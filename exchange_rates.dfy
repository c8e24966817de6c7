/** The page state of the exchange-rate view: the selected base currency, the
    currency codes of the loaded rate table, and the current page. */
module ExchangeRates {
  import opened Pagination

  class RatesView {
    var baseCurrency: string
    /** `Object.keys(rates.conversion_rates)`, or empty before rates load. */
    var currencies: seq<string>
    var currentPage: int

    /** The current page never goes negative. */
    ghost predicate Valid()
      reads this
    {
      currentPage >= 0
    }

    constructor ()
      ensures Valid()
      ensures baseCurrency == "USD" && currencies == [] && currentPage == 1
    {
      baseCurrency, currencies, currentPage := "USD", [], 1;
    }

    /** `totalPages` */
    function PageCount(): nat
      reads this
    {
      TotalPages(|currencies|)
    }

    /** `currentCurrencies`: the slice of codes shown on the current page. */
    function CurrentCurrencies(): (s: seq<string>)
      reads this
      requires Valid()
      ensures |s| <= ItemsPerPage
      ensures currentPage == 0 ==> s == []
      ensures currentPage >= 1 ==>
        s == currencies[Min((currentPage - 1) * ItemsPerPage, |currencies|)..Min(currentPage * ItemsPerPage, |currencies|)]
    {
      PageItems(currencies, currentPage)
    }

    /** `handleCurrencyChange`: a new base currency, back to page 1. */
    method HandleCurrencyChange(code: string)
      requires Valid()
      modifies this
      ensures Valid()
      ensures baseCurrency == code && currentPage == 1 && currencies == old(currencies)
    {
      baseCurrency := code;
      currentPage := 1;
    }

    /** A new rate table arrives (`setRates`): the list changes, the page
        does not. */
    method ReceiveRates(codes: seq<string>)
      requires Valid()
      modifies this
      ensures Valid()
      ensures currencies == codes && currentPage == old(currentPage) && baseCurrency == old(baseCurrency)
    {
      currencies := codes;
    }

    /** A click on Previous; nothing happens while it is disabled. */
    method ClickPrevious()
      requires Valid()
      modifies this
      ensures Valid()
      ensures currentPage == Press(old(currentPage), PageCount(), Previous)
      ensures currentPage >= 1
      ensures currencies == old(currencies) && baseCurrency == old(baseCurrency)
    {
      if !PreviousDisabled(currentPage) {
        currentPage := PreviousPage(currentPage);
      }
    }

    /** A click on Next; nothing happens while it is disabled. */
    method ClickNext()
      requires Valid()
      modifies this
      ensures Valid()
      ensures currentPage == Press(old(currentPage), PageCount(), Next)
      ensures old(currentPage) <= PageCount() ==> currentPage <= PageCount()
      ensures currencies == old(currencies) && baseCurrency == old(baseCurrency)
    {
      if !NextDisabled(currentPage, PageCount()) {
        currentPage := NextPage(currentPage, PageCount());
      }
    }
  }
}
