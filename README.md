# Loan calculator: amortization engine and exchange-rate pagination

A Dafny model of the two pieces of logic in this React application.

- **The loan calculator** (`src/components/LoanCalculator.jsx`).
  - "Calculate" parses the loan amount, the annual interest rate and the term in years.
  - It turns the rate into the monthly rate `r = rate / 100 / 12` and the term into `n = years × 12` months.
  - It computes the equated monthly instalment (EMI) `P·r·x/(x − 1)` with `x = (1 + r)^n`.
  - A loop then builds the month-by-month schedule of `{month, principalPaid, interest, balance}`. It carries a running balance and stores the balance clamped at zero.
  - "Reset" clears the payment and the schedule.
  - Amounts are shown converted into the selected currency with the loaded rate table.
- **The exchange-rate view** (`src/components/ExchangeRates.jsx`).
  - It shows the currency codes of the loaded table twenty per page.
  - Previous and Next buttons move between pages and are disabled on the first and on the last page.
  - Choosing another base currency returns to page 1.

Modules:

- `Wrappers` (`wrappers.dfy`): `Option`, which stands for `null` and for a value that is NaN.
- `Amortization` (`amortization.dfy`): the engine. It holds the rate and EMI functions, the schedule specified as a function, the schedule loop as a method proved against it, and the lemmas about the schedule. All of it is in exact `real` arithmetic.
- `LoanCalculator` (`loan_calculator.dfy`): the component state as a class. `CalculateLoan` and `ResetTable` are methods that update it. `Convert` is the currency conversion.
- `Pagination` (`pagination.dfy`): page count, page slice, the Previous/Next moves and their disabled states, as functions and lemmas.
- `ExchangeRates` (`exchange_rates.dfy`): the view's page state as a class, one method per handler.

Three points of the code's behaviour worth stating:

- There is no zero-interest branch. Many EMI calculators handle a rate of 0 separately with `P / n`; this code has no such branch: at `r = 0` the closed form evaluates `0/0`. `MonthlyPayment` has no value wherever `(1 + r)^n = 1`: at `r = 0`, at `n = 0`, or at `r = −2` (an annual rate of −2400 %) with `n` even. `CalculateLoan` reports `DivisionByZero` there.
- A currency code missing from the rate table is not an error of its own. The code multiplies by `undefined`, which gives NaN. `Convert` returns `None` there.
- Page numbers are not clamped to the list: only the Next and Previous moves clamp, so with an empty list Next leads to page 0. `EmptyListPages` states this behaviour as written.

## Model

| member | source | states |
|---|---|---|
| Amortization.MonthlyRate | src/components/LoanCalculator.jsx:57 | the monthly rate is the annual percentage over 1200, and it is positive exactly when the annual rate is |
| Amortization.MonthlyPayment | src/components/LoanCalculator.jsx:64-66 | there is a payment exactly when (1+r)^n ≠ 1, and it then satisfies the annuity equation m·(x−1) = P·r·x |
| Amortization.Schedule | src/components/LoanCalculator.jsx:70-84 | one entry per month numbered 1..n; interest is the running balance before the month times r; principalPaid + interest is the payment; the stored balance is never negative |
| Amortization.BuildSchedule | src/components/LoanCalculator.jsx:70-84 | the loop carrying the running balance and appending one row per month yields exactly the specified schedule |
| Amortization.ZeroRateHasNoPayment | src/components/LoanCalculator.jsx:64-66 | at r = 0 the formula has no value: no zero-interest branch exists |
| Amortization.NegativeTwoRateHasNoPayment | src/components/LoanCalculator.jsx:57-66 | an annual rate of −2400 % gives r = −2, and with a two-month term the formula divides by zero as well |
| Amortization.PaymentExceedsInterest | src/components/LoanCalculator.jsx:64-66 | for P > 0 and r > 0 a payment exists exactly when n > 0, and it exceeds the first month's interest P·r |
| Amortization.BalanceClosedForm | src/components/LoanCalculator.jsx:70-77 | the running balance after k months satisfies r·B(k) = P·r·x^k − m·(x^k − 1) with x = 1 + r |
| Amortization.PrincipalPaidClosedForm | src/components/LoanCalculator.jsx:74-75 | the principal repaid in month k+1 is (1+r)^k·(m − P·r) |
| Amortization.BalanceReachesZero | src/components/LoanCalculator.jsx:64-84 | paying the EMI every month leaves a running balance of exactly 0 after month n |
| Amortization.PrincipalPaidPositive | src/components/LoanCalculator.jsx:74-75 | with P > 0 and r > 0 every month's principalPaid is positive |
| Amortization.BalancePositiveBeforeEnd | src/components/LoanCalculator.jsx:76-82 | with P > 0 and r > 0 the running balance is positive before month n, so the clamp never engages early |
| Amortization.EmiScheduleSettles | src/components/LoanCalculator.jsx:64-84 | for P > 0, r > 0, n > 0: principalPaid > 0 in every row, the stored balance is the running balance, it strictly decreases, and it is 0 in the last row |
| Amortization.PrincipalTelescopes | src/components/LoanCalculator.jsx:73-84 | the principalPaid column over the first k months adds up to P minus the running balance after k months |
| Amortization.PrincipalRepaidInFull | src/components/LoanCalculator.jsx:64-84 | over the EMI schedule the principalPaid column adds up to exactly P |
| Amortization.SingleMonthPayoff | src/components/LoanCalculator.jsx:64-84 | a one-month term pays P·(1+r) once, of which P is principal and P·r interest, leaving balance 0 |
| LoanCalculator.Months | src/components/LoanCalculator.jsx:58 | the month count is the term in years times 12 |
| LoanCalculator.Calculator.constructor | src/components/LoanCalculator.jsx:18-24 | the initial state: inputs "100000", "8.5" and "5", no payment, an empty schedule, "USD" selected and no rate table |
| LoanCalculator.Calculator.CalculateLoan | src/components/LoanCalculator.jsx:55-87 | the three input fields are parsed; a NaN input returns early leaving payment and schedule unchanged; otherwise the stored payment is the EMI and the stored schedule the one it generates; inputs, currency and rates never change |
| LoanCalculator.Calculator.ResetTable | src/components/LoanCalculator.jsx:90-93 | the payment becomes null and the schedule empty; inputs, selected currency and rates are untouched |
| LoanCalculator.Convert | src/components/LoanCalculator.jsx:101-106 | the value unchanged without rates or for "USD"; otherwise value × rate, and no value when the code is missing from the table |
| LoanCalculator.ConvertAdditive | src/components/LoanCalculator.jsx:101-106 | conversion is additive wherever it is defined |
| LoanCalculator.ConvertedRowsAddUp | src/components/LoanCalculator.jsx:366-369 | in every displayed row the converted principal and converted interest add up to the converted monthly payment |
| Pagination.TotalPages | src/components/ExchangeRates.jsx:69 | the page count is ⌈count/20⌉: the least t with count ≤ 20·t |
| Pagination.PageItems | src/components/ExchangeRates.jsx:70 | page p ≥ 1 shows the contiguous slice [(p−1)·20, p·20) of the list clipped to its length, at most 20 items; page 0 shows nothing |
| Pagination.PagesUpToIsPrefix | src/components/ExchangeRates.jsx:69-70 | pages 1..k concatenated are the first 20·k items |
| Pagination.AllPagesReassemble | src/components/ExchangeRates.jsx:69-70 | pages 1..totalPages concatenated in order are the whole list, each item once |
| Pagination.ItemOnItsPage | src/components/ExchangeRates.jsx:69-70 | item i appears on page i/20 + 1, which is a valid page, at position i mod 20 |
| Pagination.PreviousPage | src/components/ExchangeRates.jsx:137 | Previous moves back one page and never below 1 |
| Pagination.NextPage | src/components/ExchangeRates.jsx:154 | Next moves forward one page and never past totalPages |
| Pagination.Press | src/components/ExchangeRates.jsx:136-155 | a click on a disabled button leaves the page; an enabled Previous leads to a page of at least 1, an enabled Next to a page of at most totalPages |
| Pagination.DisabledExactlyWhenNoMove | src/components/ExchangeRates.jsx:137-155 | on a page in 1..totalPages, Previous is disabled exactly when p = 1 and Next exactly when p = totalPages, which is exactly when the move would not change the page |
| Pagination.RunStaysInRange | src/components/ExchangeRates.jsx:137-155 | with at least one page, any sequence of clicks keeps the page within 1..totalPages |
| Pagination.EmptyListPages | src/components/ExchangeRates.jsx:68-70 | an empty list has 0 pages, Next is enabled on page 1 and goes to page 0, whose slice is empty, and clicks only ever reach pages 0 and 1 |
| ExchangeRates.RatesView.constructor | src/components/ExchangeRates.jsx:7-11 | the initial state: base "USD", no rates loaded so an empty list of codes, page 1 |
| ExchangeRates.RatesView.HandleCurrencyChange | src/components/ExchangeRates.jsx:38-41 | the base currency changes and the page resets to 1 |
| ExchangeRates.RatesView.ClickPrevious | src/components/ExchangeRates.jsx:136-138 | a click sets the page to max(1, p−1) unless the button is disabled; the page is then at least 1 |
| ExchangeRates.RatesView.ClickNext | src/components/ExchangeRates.jsx:153-155 | a click sets the page to min(totalPages, p+1) unless the button is disabled; a page within totalPages stays within it |
| ExchangeRates.RatesView.CurrentCurrencies | src/components/ExchangeRates.jsx:70 | the codes shown are the current page's slice, at most 20, and nothing on page 0 |
| ExchangeRates.RatesView.ReceiveRates | src/components/ExchangeRates.jsx:26 | a new rate table replaces the list of codes and leaves the page where it was |

## Left out

- The fetches of the rate tables, the async effects, `isLoading` and the error message are left out. They are network I/O, and overlapping fetches are concurrency. `ReceiveRates` models only the state change when a response lands.
- Rendering is left out: the theme-dependent class names, the `cn` joiner, the currency symbols, the currency dropdown and its toggle. The buttons exist only while rates are loaded and not loading; the model lets them be clicked in any state.
- Choosing a display currency in the dropdown is left out. It is part of the dropdown UI. `Convert` takes the selected code as a parameter.
- `formatCurrency` (`toFixed(2)`) is left out. It is string formatting of floating point.
- `Number.parseFloat` is left out. `CalculateLoan` takes the parser as a parameter and applies it to the three input fields, `None` standing for NaN.
- IEEE-754 doubles are not modelled. All arithmetic is exact over `real`, and `Math.pow` is the exact power with a whole exponent. Rounding, NaN and Infinity propagation are not modelled.
- LoanCalculator.Calculator.CalculateLoan: requires the parsed term to be a whole, non-negative number of months. Fractional terms use a fractional exponent in `Math.pow` while the loop runs ⌊n⌋ times; negative terms give a negative exponent. Neither is modelled.
- LoanCalculator.Calculator.CalculateLoan: where the closed form divides by zero, the model returns `DivisionByZero` and leaves the state unchanged. The code instead stores NaN or Infinity as the payment and a schedule of such values.
- The theme provider, the navigation bar, the routes and the static pages hold no logic of this core.
