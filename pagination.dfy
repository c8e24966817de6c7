/** Page arithmetic of the exchange-rate table: twenty currencies per page,
    the page count, the slice shown for a page, and the Previous/Next moves
    with their disabled states. */
module Pagination {

  const ItemsPerPage: nat := 20

  function Min(a: int, b: int): int { if a <= b then a else b }

  /** `Math.ceil(count / itemsPerPage)`: the fewest pages that hold `count`
      items. */
  function TotalPages(count: nat): (t: nat)
    ensures count <= t * ItemsPerPage
    ensures t > 0 ==> (t - 1) * ItemsPerPage < count
  {
    (count + ItemsPerPage - 1) / ItemsPerPage
  }

  /** An index argument of `Array.prototype.slice` resolved against a length:
      a negative index counts back from the end, and the result is clamped to
      [0, len]. */
  function SliceIndex(i: int, len: nat): (k: nat)
    ensures k <= len
    ensures 0 <= i <= len ==> k == i
  {
    if i < 0 then (if len + i < 0 then 0 else len + i)
    else if i > len then len
    else i
  }

  /** `xs.slice(start, end)`. */
  function Slice<T>(xs: seq<T>, start: int, end: int): seq<T>
  {
    var s, e := SliceIndex(start, |xs|), SliceIndex(end, |xs|);
    if s < e then xs[s..e] else []
  }

  /** The currencies shown on page `page`:
      `xs.slice((page - 1) * itemsPerPage, page * itemsPerPage)`. */
  function PageItems<T>(xs: seq<T>, page: int): (s: seq<T>)
    ensures |s| <= ItemsPerPage
    ensures page >= 1 ==>
      s == xs[Min((page - 1) * ItemsPerPage, |xs|)..Min(page * ItemsPerPage, |xs|)]
    ensures page == 0 ==> s == []
  {
    Slice(xs, (page - 1) * ItemsPerPage, page * ItemsPerPage)
  }

  /** The pages 1..k, concatenated in order. */
  function PagesUpTo<T>(xs: seq<T>, k: nat): seq<T>
  {
    if k == 0 then [] else PagesUpTo(xs, k - 1) + PageItems(xs, k)
  }

  /** The first k pages are the first k · 20 items (or all of them). */
  lemma {:induction false} PagesUpToIsPrefix<T>(xs: seq<T>, k: nat)
    ensures PagesUpTo(xs, k) == xs[..Min(k * ItemsPerPage, |xs|)]
  {
    if k > 0 {
      PagesUpToIsPrefix(xs, k - 1);
      var a, b := Min((k - 1) * ItemsPerPage, |xs|), Min(k * ItemsPerPage, |xs|);
      assert xs[..a] + xs[a..b] == xs[..b];
    }
  }

  /** Pages 1..TotalPages, in order, reproduce the whole list exactly once. */
  lemma AllPagesReassemble<T>(xs: seq<T>)
    ensures PagesUpTo(xs, TotalPages(|xs|)) == xs
  {
    PagesUpToIsPrefix(xs, TotalPages(|xs|));
  }

  /** The item at index i is on page i / 20 + 1, at position i % 20, and that
      page is one of the TotalPages pages. */
  lemma ItemOnItsPage<T>(xs: seq<T>, i: nat)
    requires i < |xs|
    ensures 1 <= i / ItemsPerPage + 1 <= TotalPages(|xs|)
    ensures i % ItemsPerPage < |PageItems(xs, i / ItemsPerPage + 1)|
    ensures PageItems(xs, i / ItemsPerPage + 1)[i % ItemsPerPage] == xs[i]
  {
  }

  /** The Previous handler: `Math.max(1, page - 1)`. */
  function PreviousPage(page: int): (q: int)
    ensures q >= 1
    ensures page > 1 ==> q == page - 1
    ensures page <= 1 ==> q == 1
  {
    if page - 1 > 1 then page - 1 else 1
  }

  /** The Next handler: `Math.min(totalPages, page + 1)`. */
  function NextPage(page: int, total: nat): (q: int)
    ensures q <= total
    ensures page < total ==> q == page + 1
    ensures page >= total ==> q == total
  {
    if total < page + 1 then total else page + 1
  }

  /** `disabled={currentPage === 1}` */
  predicate PreviousDisabled(page: int) { page == 1 }

  /** `disabled={currentPage === totalPages}` */
  predicate NextDisabled(page: int, total: nat) { page == total }

  datatype Click = Previous | Next

  /** A click on a button: a disabled button does nothing. */
  function Press(page: int, total: nat, c: Click): (q: int)
    ensures c == Previous && PreviousDisabled(page) ==> q == page
    ensures c == Previous && !PreviousDisabled(page) ==> 1 <= q < page || (page < 1 && q == 1)
    ensures c == Next && NextDisabled(page, total) ==> q == page
    ensures c == Next && !NextDisabled(page, total) ==> q <= total && (page < total ==> q == page + 1)
  {
    match c
    case Previous => if PreviousDisabled(page) then page else PreviousPage(page)
    case Next => if NextDisabled(page, total) then page else NextPage(page, total)
  }

  /** A sequence of clicks, in order. */
  function Run(page: int, total: nat, clicks: seq<Click>): int
    decreases |clicks|
  {
    if clicks == [] then page else Run(Press(page, total, clicks[0]), total, clicks[1..])
  }

  /** On a page within 1..total, a button is disabled exactly when its
      handler would leave the page where it is. */
  lemma DisabledExactlyWhenNoMove(page: int, total: nat)
    requires 1 <= page <= total
    ensures PreviousDisabled(page) <==> PreviousPage(page) == page
    ensures NextDisabled(page, total) <==> NextPage(page, total) == page
  {
  }

  /** With at least one page, clicks keep the page within 1..total. */
  lemma {:induction false} RunStaysInRange(page: int, total: nat, clicks: seq<Click>)
    requires 1 <= page <= total
    ensures 1 <= Run(page, total, clicks) <= total
    decreases |clicks|
  {
    if clicks != [] {
      RunStaysInRange(Press(page, total, clicks[0]), total, clicks[1..]);
    }
  }

  /** With an empty list there are no pages, yet Next is enabled on page 1
      and moves to page 0, whose slice is empty; clicks then alternate
      between pages 1 and 0 only. */
  lemma {:induction false} EmptyListPages<T>(xs: seq<T>, page: int, clicks: seq<Click>)
    requires xs == [] && (page == 0 || page == 1)
    ensures TotalPages(|xs|) == 0
    ensures !NextDisabled(1, TotalPages(|xs|)) && NextPage(1, TotalPages(|xs|)) == 0
    ensures PageItems(xs, 0) == []
    ensures Run(page, TotalPages(|xs|), clicks) in {0, 1}
    decreases |clicks|
  {
    if clicks != [] {
      EmptyListPages(xs, Press(page, 0, clicks[0]), clicks[1..]);
    }
  }
}
