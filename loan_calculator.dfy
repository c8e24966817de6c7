/** The state of the loan calculator component: its three text inputs, the
    computed monthly payment and schedule, the selected display currency and
    the loaded rate table; and the currency conversion applied on display.
    Parsing is a parameter: it gives a number, or `None` when the text does
    not parse (NaN). */
module LoanCalculator {
  import opened Wrappers
  import opened Amortization

  /** What a press of "Calculate" did. `NotANumber` is the early return on an
      input that does not parse; `DivisionByZero` is a term and rate for
      which the closed form divides by zero ((1 + r)^n = 1). */
  datatype Status = Calculated | NotANumber | DivisionByZero

  /** A term in years that is a whole, non-negative number of months. */
  predicate WholeMonths(termYears: real)
  {
    termYears >= 0.0 && (termYears * 12.0).Floor as real == termYears * 12.0
  }

  /** The number of months in the term: years × 12. */
  function Months(termYears: real): (n: nat)
    requires WholeMonths(termYears)
    ensures n as real == termYears * 12.0
  {
    (termYears * 12.0).Floor
  }

  /** `convertCurrency`: the amount unchanged while no rate table is loaded or
      while the selected currency is the base "USD"; otherwise the amount
      times the selected currency's rate. `None` is the NaN that results when
      the selected code is missing from the table. */
  function Convert(value: real, rates: Option<map<string, real>>, selected: string): (v: Option<real>)
    ensures rates.None? || selected == "USD" ==> v == Some(value)
    ensures rates.Some? && selected != "USD" ==> (v.Some? <==> selected in rates.value)
    ensures rates.Some? && selected != "USD" && v.Some? ==> v.value == value * rates.value[selected]
  {
    if rates.None? || selected == "USD" then Some(value)
    else if selected in rates.value then Some(value * rates.value[selected])
    else None
  }

  /** Conversion is linear: when a conversion exists, converting a sum is
      the sum of the conversions, so a converted row still adds up. */
  lemma ConvertAdditive(a: real, b: real, rates: Option<map<string, real>>, selected: string)
    ensures Convert(a, rates, selected).Some? <==> Convert(b, rates, selected).Some?
    ensures Convert(a, rates, selected).Some? ==>
      && Convert(a + b, rates, selected).Some?
      && Convert(a + b, rates, selected).value == Convert(a, rates, selected).value + Convert(b, rates, selected).value
  {
  }

  /** Every displayed row of a schedule, converted, still splits the converted
      monthly payment into converted principal and converted interest. */
  lemma ConvertedRowsAddUp(p: real, r: real, m: real, n: nat, i: nat,
                           rates: Option<map<string, real>>, selected: string)
    requires i < n
    requires Convert(m, rates, selected).Some?
    ensures var e := Schedule(p, r, m, n)[i];
      Convert(e.principalPaid, rates, selected).value + Convert(e.interest, rates, selected).value
        == Convert(m, rates, selected).value
  {
  }

  class Calculator {
    var loanAmount: string
    var interestRate: string
    var loanTerm: string
    var monthlyPayment: Option<real>
    var amortizationSchedule: seq<Entry>
    var selectedCurrency: string
    var exchangeRates: Option<map<string, real>>

    /** The component's initial state. */
    constructor ()
      ensures loanAmount == "100000" && interestRate == "8.5" && loanTerm == "5"
      ensures monthlyPayment == None && amortizationSchedule == []
      ensures selectedCurrency == "USD" && exchangeRates == None
    {
      loanAmount, interestRate, loanTerm := "100000", "8.5", "5";
      monthlyPayment, amortizationSchedule := None, [];
      selectedCurrency, exchangeRates := "USD", None;
    }

    /** `calculateLoan`: parses the three input fields, returns early on NaN,
        otherwise stores the EMI and the schedule it generates. */
    method CalculateLoan(parse: string -> Option<real>) returns (status: Status)
      requires parse(loanTerm).Some? ==> WholeMonths(parse(loanTerm).value)
      modifies this
      ensures loanAmount == old(loanAmount) && interestRate == old(interestRate) && loanTerm == old(loanTerm)
      ensures selectedCurrency == old(selectedCurrency) && exchangeRates == old(exchangeRates)
      ensures var principal, annualPercent, termYears := parse(loanAmount), parse(interestRate), parse(loanTerm);
        status == NotANumber <==> principal.None? || annualPercent.None? || termYears.None?
      ensures status != Calculated ==>
        monthlyPayment == old(monthlyPayment) && amortizationSchedule == old(amortizationSchedule)
      ensures var principal, annualPercent, termYears := parse(loanAmount), parse(interestRate), parse(loanTerm);
        status != NotANumber ==>
        var p, r, n := principal.value, MonthlyRate(annualPercent.value), Months(termYears.value);
        && (status == DivisionByZero <==> MonthlyPayment(p, r, n).None?)
        && (status == Calculated ==>
              monthlyPayment == MonthlyPayment(p, r, n)
              && amortizationSchedule == Schedule(p, r, monthlyPayment.value, n))
    {
      var principal, annualPercent, termYears := parse(loanAmount), parse(interestRate), parse(loanTerm);
      if principal.None? || annualPercent.None? || termYears.None? {
        return NotANumber;
      }
      var p := principal.value;
      var r := MonthlyRate(annualPercent.value);
      var n := Months(termYears.value);
      var monthly := MonthlyPayment(p, r, n);
      if monthly.None? {
        return DivisionByZero;
      }
      monthlyPayment := monthly;
      amortizationSchedule := BuildSchedule(p, r, monthly.value, n);
      status := Calculated;
    }

    /** `resetTable`: forget the payment and the schedule, and nothing else. */
    method ResetTable()
      modifies this
      ensures monthlyPayment == None && amortizationSchedule == []
      ensures loanAmount == old(loanAmount) && interestRate == old(interestRate) && loanTerm == old(loanTerm)
      ensures selectedCurrency == old(selectedCurrency) && exchangeRates == old(exchangeRates)
    {
      monthlyPayment := None;
      amortizationSchedule := [];
    }
  }
}
