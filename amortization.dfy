/** The loan amortization engine of the loan calculator: the monthly rate, the
    EMI (equated monthly instalment) closed form and the month-by-month
    schedule, in exact real arithmetic. */
module Amortization {
  import opened Wrappers

  /** One row of the schedule: the month (1-based), the part of the instalment
      that repays principal, the interest charged that month, and the balance
      shown, which is clamped at zero. */
  datatype Entry = Entry(month: nat, principalPaid: real, interest: real, balance: real)

  /** b raised to the n-th power. */
  function Pow(b: real, n: nat): real
  {
    if n == 0 then 1.0 else b * Pow(b, n - 1)
  }

  /** An annual percentage turned into a monthly fraction: percent / 100 / 12. */
  function MonthlyRate(annualPercent: real): (r: real)
    ensures r * 1200.0 == annualPercent
    ensures annualPercent > 0.0 <==> r > 0.0
  {
    annualPercent / 100.0 / 12.0
  }

  /** The EMI closed form P·r·x/(x − 1) with x = (1 + r)^n. There is no value
      where the denominator x − 1 vanishes (r = 0, n = 0, or r = −2 with n
      even): the formula divides by zero there. */
  function MonthlyPayment(p: real, r: real, n: nat): (m: Option<real>)
    ensures m.None? <==> Pow(1.0 + r, n) == 1.0
    ensures m.Some? ==> m.value * (Pow(1.0 + r, n) - 1.0) == p * r * Pow(1.0 + r, n)
  {
    var x := Pow(1.0 + r, n);
    if x == 1.0 then None else Some(p * r * x / (x - 1.0))
  }

  /** The running (unclamped) balance after k months when m is paid each
      month: each month the interest balance·r is charged and the rest of the
      instalment, m − interest, repays principal. */
  function Balance(p: real, r: real, m: real, k: nat): real
  {
    if k == 0 then p
    else
      var b := Balance(p, r, m, k - 1);
      b - (m - b * r)
  }

  /** The row for month i + 1: interest on the running balance, the principal
      repaid, and the new balance clamped to zero for display. */
  function Row(p: real, r: real, m: real, i: nat): Entry
  {
    var b := Balance(p, r, m, i);
    var interest := b * r;
    var principalPaid := m - interest;
    var next := b - principalPaid;
    Entry(i + 1, principalPaid, interest, if next > 0.0 then next else 0.0)
  }

  /** The schedule for months 1..n: one row per month. */
  function Schedule(p: real, r: real, m: real, n: nat): (s: seq<Entry>)
    ensures |s| == n
    ensures forall i :: 0 <= i < n ==> s[i] == Row(p, r, m, i)
    ensures forall i :: 0 <= i < n ==> s[i].month == i + 1
    ensures forall i :: 0 <= i < n ==> s[i].interest == Balance(p, r, m, i) * r
    ensures forall i :: 0 <= i < n ==> s[i].principalPaid + s[i].interest == m
    ensures forall i :: 0 <= i < n ==> s[i].balance >= 0.0
  {
    seq(n, i requires 0 <= i < n => Row(p, r, m, i))
  }

  /** The schedule loop of `calculateLoan`: carries the running balance and
      appends one row per month, storing the clamped balance. */
  method BuildSchedule(p: real, r: real, m: real, n: nat) returns (schedule: seq<Entry>)
    ensures schedule == Schedule(p, r, m, n)
  {
    var balance := p;
    schedule := [];
    var i := 1;
    while i <= n
      invariant 1 <= i <= n + 1
      invariant balance == Balance(p, r, m, i - 1)
      invariant schedule == Schedule(p, r, m, i - 1)
    {
      var interest := balance * r;
      var principalPaid := m - interest;
      balance := balance - principalPaid;
      schedule := schedule + [Entry(i, principalPaid, interest, if balance > 0.0 then balance else 0.0)];
      assert balance == Balance(p, r, m, i);
      assert schedule[i - 1] == Row(p, r, m, i - 1);
      ScheduleGrows(p, r, m, i - 1);
      i := i + 1;
    }
  }

  /** The schedule for k + 1 months extends the one for k months by one row. */
  lemma ScheduleGrows(p: real, r: real, m: real, k: nat)
    ensures Schedule(p, r, m, k + 1) == Schedule(p, r, m, k) + [Row(p, r, m, k)]
  {
  }

  // ---------------------------------------------------------------------------
  // Powers

  lemma {:induction false} PowOfOne(n: nat)
    ensures Pow(1.0, n) == 1.0
  {
    if n > 0 {
      PowOfOne(n - 1);
    }
  }

  lemma {:induction false} PowAtLeastOne(r: real, n: nat)
    requires r >= 0.0
    ensures Pow(1.0 + r, n) >= 1.0
    ensures r > 0.0 && n > 0 ==> Pow(1.0 + r, n) > 1.0
  {
    if n > 0 {
      PowAtLeastOne(r, n - 1);
      var y := Pow(1.0 + r, n - 1);
      assert Pow(1.0 + r, n) == y + r * y;
      assert r * y >= 0.0;
      assert r > 0.0 ==> r * y > 0.0;
    }
  }

  // ---------------------------------------------------------------------------
  // The EMI

  /** With no interest the closed form divides zero by zero: there is no
      monthly payment, and no zero-interest branch. */
  lemma ZeroRateHasNoPayment(p: real, n: nat)
    ensures MonthlyPayment(p, 0.0, n) == None
  {
    PowOfOne(n);
  }

  /** The EMI exceeds the first month's interest, by an amount that repays
      the loan over the term: (m − P·r)·(x − 1) = P·r. */
  lemma PaymentExceedsInterest(p: real, r: real, n: nat)
    requires p > 0.0 && r > 0.0
    ensures MonthlyPayment(p, r, n).Some? <==> n > 0
    ensures n > 0 ==> MonthlyPayment(p, r, n).value > p * r
  {
    PowAtLeastOne(r, n);
    if n > 0 {
      var x := Pow(1.0 + r, n);
      var m := MonthlyPayment(p, r, n).value;
      assert (m - p * r) * (x - 1.0) == p * r;
      PositiveFactor(m - p * r, x - 1.0, p * r);
    }
  }

  lemma PositiveFactor(a: real, b: real, c: real)
    requires a * b == c && b > 0.0 && c > 0.0
    ensures a > 0.0
  {
  }

  lemma CancelFactor(a: real, b: real, c: real)
    requires a * c == b * c && c != 0.0
    ensures a == b
  {
  }

  /** The denominator also vanishes at r = −2 with an even term. */
  lemma NegativeTwoRateHasNoPayment(p: real)
    ensures MonthlyRate(-2400.0) == -2.0
    ensures MonthlyPayment(p, -2.0, 2) == None
  {
    assert Pow(-1.0, 2) == -1.0 * Pow(-1.0, 1);
  }

  // ---------------------------------------------------------------------------
  // The running balance

  /** The closed form of the running balance, multiplied through by r:
      r·B(k) = P·r·x^k − m·(x^k − 1) with x = 1 + r. */
  lemma {:induction false} BalanceClosedForm(p: real, r: real, m: real, k: nat)
    ensures r * Balance(p, r, m, k) == p * r * Pow(1.0 + r, k) - m * (Pow(1.0 + r, k) - 1.0)
  {
    if k > 0 {
      BalanceClosedForm(p, r, m, k - 1);
      var b := Balance(p, r, m, k - 1);
      var x := Pow(1.0 + r, k - 1);
      calc {
        r * Balance(p, r, m, k);
        r * (b * (1.0 + r) - m);
        (1.0 + r) * (r * b) - r * m;
        (1.0 + r) * (p * r * x - m * (x - 1.0)) - r * m;
        p * r * ((1.0 + r) * x) - m * ((1.0 + r) * x - 1.0);
      }
    }
  }

  /** The principal repaid in month k + 1 grows geometrically:
      (1 + r)^k · (m − P·r). */
  lemma PrincipalPaidClosedForm(p: real, r: real, m: real, k: nat)
    ensures Row(p, r, m, k).principalPaid == Pow(1.0 + r, k) * (m - p * r)
  {
    BalanceClosedForm(p, r, m, k);
  }

  /** Paying the EMI every month brings the running balance to exactly zero
      after the last month. */
  lemma BalanceReachesZero(p: real, r: real, n: nat)
    requires MonthlyPayment(p, r, n).Some?
    ensures Balance(p, r, MonthlyPayment(p, r, n).value, n) == 0.0
  {
    var m := MonthlyPayment(p, r, n).value;
    ZeroRateHasNoPayment(p, n);
    assert r != 0.0;
    BalanceClosedForm(p, r, m, n);
    assert r * Balance(p, r, m, n) == 0.0;
  }

  /** With P > 0 and r > 0, each instalment repays some principal. */
  lemma PrincipalPaidPositive(p: real, r: real, n: nat, k: nat)
    requires p > 0.0 && r > 0.0 && MonthlyPayment(p, r, n).Some?
    ensures Row(p, r, MonthlyPayment(p, r, n).value, k).principalPaid > 0.0
  {
    PaymentExceedsInterest(p, r, n);
    var m := MonthlyPayment(p, r, n).value;
    PrincipalPaidClosedForm(p, r, m, k);
    PowAtLeastOne(r, k);
    assert Pow(1.0 + r, k) * (m - p * r) > 0.0;
  }

  /** With P > 0 and r > 0 the running balance stays positive before the last
      month (so the clamp never engages there). */
  lemma {:induction false} BalancePositiveBeforeEnd(p: real, r: real, n: nat, k: nat)
    requires p > 0.0 && r > 0.0 && MonthlyPayment(p, r, n).Some? && k < n
    ensures Balance(p, r, MonthlyPayment(p, r, n).value, k) > 0.0
    decreases n - k
  {
    var m := MonthlyPayment(p, r, n).value;
    PrincipalPaidPositive(p, r, n, k);
    assert Balance(p, r, m, k + 1) == Balance(p, r, m, k) - Row(p, r, m, k).principalPaid;
    if k + 1 == n {
      BalanceReachesZero(p, r, n);
    } else {
      BalancePositiveBeforeEnd(p, r, n, k + 1);
    }
  }

  /** The EMI schedule, for P > 0 and r > 0: every month repays principal,
      the balance strictly decreases, the shown balance is the running
      balance itself (never clamped), and it is zero after the last month. */
  lemma EmiScheduleSettles(p: real, r: real, n: nat)
    requires p > 0.0 && r > 0.0 && n > 0
    ensures MonthlyPayment(p, r, n).Some?
    ensures var s := Schedule(p, r, MonthlyPayment(p, r, n).value, n);
      && (forall i :: 0 <= i < n ==> s[i].principalPaid > 0.0)
      && (forall i :: 0 <= i < n ==> s[i].balance == Balance(p, r, MonthlyPayment(p, r, n).value, i + 1))
      && (forall i :: 0 < i < n ==> s[i].balance < s[i - 1].balance)
      && s[n - 1].balance == 0.0
  {
    PaymentExceedsInterest(p, r, n);
    var m := MonthlyPayment(p, r, n).value;
    var s := Schedule(p, r, m, n);
    forall i | 0 <= i < n
      ensures s[i].principalPaid > 0.0
      ensures s[i].balance == Balance(p, r, m, i + 1)
    {
      PrincipalPaidPositive(p, r, n, i);
      if i + 1 < n {
        BalancePositiveBeforeEnd(p, r, n, i + 1);
      } else {
        BalanceReachesZero(p, r, n);
      }
    }
    forall i | 0 < i < n
      ensures s[i].balance < s[i - 1].balance
    {
      PrincipalPaidPositive(p, r, n, i);
      assert Balance(p, r, m, i + 1) == Balance(p, r, m, i) - Row(p, r, m, i).principalPaid;
    }
    BalanceReachesZero(p, r, n);
  }

  // ---------------------------------------------------------------------------
  // Totals

  /** The sum of the principalPaid column. */
  function TotalPrincipal(s: seq<Entry>): real
  {
    if s == [] then 0.0 else TotalPrincipal(s[..|s| - 1]) + s[|s| - 1].principalPaid
  }

  /** The principal column telescopes: over the first k months it adds up to
      what the running balance has dropped by. */
  lemma {:induction false} PrincipalTelescopes(p: real, r: real, m: real, k: nat)
    ensures TotalPrincipal(Schedule(p, r, m, k)) == p - Balance(p, r, m, k)
  {
    if k > 0 {
      PrincipalTelescopes(p, r, m, k - 1);
      var s := Schedule(p, r, m, k);
      assert s[..k - 1] == Schedule(p, r, m, k - 1);
    }
  }

  /** Over the whole EMI schedule the principal repaid is exactly the loan. */
  lemma PrincipalRepaidInFull(p: real, r: real, n: nat)
    requires MonthlyPayment(p, r, n).Some?
    ensures TotalPrincipal(Schedule(p, r, MonthlyPayment(p, r, n).value, n)) == p
  {
    PrincipalTelescopes(p, r, MonthlyPayment(p, r, n).value, n);
    BalanceReachesZero(p, r, n);
  }

  /** A one-month loan is repaid in one instalment of P·(1 + r) whose
      principal part is the whole loan. */
  lemma SingleMonthPayoff(p: real, r: real)
    requires r != 0.0
    ensures MonthlyPayment(p, r, 1) == Some(p * (1.0 + r))
    ensures var s := Schedule(p, r, p * (1.0 + r), 1);
      s[0].principalPaid == p && s[0].interest == p * r && s[0].balance == 0.0
  {
    assert Pow(1.0 + r, 0) == 1.0;
    assert Pow(1.0 + r, 1) == 1.0 + r;
    var m := MonthlyPayment(p, r, 1).value;
    var x := Pow(1.0 + r, 1);
    var q := p * (1.0 + r);
    calc {
      m * r;
      { assert x - 1.0 == r; }
      m * (x - 1.0);
      p * r * x;
      { assert x == 1.0 + r; }
      p * r * (1.0 + r);
      q * r;
    }
    CancelFactor(m, q, r);
  }
}
