# International Mortgage Calculator — amortization engine in Dafny

This project models the amortization engine of the International Mortgage Calculator
(`App.py`). It has three operations:

- `calculate_mortgage` computes the loan summary: the principal-and-interest payment, the
  monthly add-ons, the totals and the payoff month.
- `generate_yearly_schedule` runs the month-by-month balance recurrence twelve months at a
  time and emits one row per term year. Once the loan is paid off, the remaining years are
  zero rows.
- `generate_monthly_schedule` runs the same recurrence over every month of the term, but
  emits rows only for the first twelve and the last twelve months. It labels each emitted
  row by stepping a calendar date one month at a time, and stops after the first emitted
  row that reaches payoff.

Files, one module each:

- `wrappers.dfy` holds `Option`.
- `calendar.dfy` models `datetime.date`: validity over years 1..9999, `replace`, and the
  one-month step.
- `amortization.dfy` holds the payment formula, the clamped one-month `Step`, and the two
  balance recurrences.
  - `GuardedBalance` is the yearly loop, which stops paying once the balance is not positive.
  - `SteppedBalance` is the monthly loop, which steps every month.
- `summary.dfy` models `calculate_mortgage`.
- `yearly.dfy` and `monthly.dfy` model the two schedules.

Modelling choices:

- Money is exact `real`.
- A Python exception that the operation catches becomes `None` (the summary) or the empty
  sequence (a schedule).
- The start date is a valid calendar date, which is a precondition.

Each schedule is specified in two layers:

- A function says which rows come out (`Yearly.PlanRows`, `Monthly.PlanMonthRows`). A
  method with the source's loops (`Yearly.YearlyRows`, `Monthly.MonthlyRows`) is proved
  to produce exactly those rows.
- The properties of the schedules are lemmas about the functions. `Yearly.Schedule` and
  `Monthly.Schedule` are the schedules for a given input.

Where the code and its evident intent differ, the model follows the code:

- A February-29 start whose payoff year is not a leap year makes the summary fail
  (`App.py:140` raises before the clamp at 141-145). A 2024-02-29 start with a one-year
  term therefore has no summary, where the evident intent of the clamp at `App.py:141-145`
  is a 2025-02-28 payoff.
  When the payoff year is a leap year, the payoff day becomes the 28th.
- Property tax and home insurance per month are zero unless the annual figure is
  positive (`App.py:129-130`).
- In the monthly schedule, the label date moves only after an emitted row, and any failed
  move empties the whole schedule, including the move after the last row, which produces
  no label. So a positive loan at a non-negative rate starting on the 31st always gives an empty monthly schedule.
  A start on the 30th empties the schedule whenever a month step lands in February; a start
  on the 29th, whenever one lands in February of a non-leap year.
- The last-year monthly rows are labelled with the months that follow row 12, not with
  their own calendar months.

## Model

| member | source | states |
|---|---|---|
| Summary.EffectiveTerm | App.py:101-104 | the term is the override when it is present and positive, else the base term |
| Summary.EffectiveRate | App.py:100-107 | the rate is override/100 when the override is present and positive, else rate/100 |
| Summary.TermMonths | App.py:109 | definition: the term in months is twelve times the effective term in years |
| Summary.LoanAmount | App.py:116 | definition: the loan is the home value less the down payment |
| Summary.MonthlyRate | App.py:117 | definition: the monthly rate is the effective annual rate over twelve |
| Summary.PaymentPI | App.py:119-126 | definition: the principal-and-interest payment is the annuity formula (or its linear fallback) on the loan, the monthly rate and the term in months |
| Summary.MonthlyOutlay | App.py:132-134 | definition: the total monthly payment is principal and interest plus tax, PMI, insurance and HOA |
| Summary.OverTerm | App.py:136-137 | definition: a monthly amount times the months of the term |
| Summary.PlanOf | App.py:192-211 | definition: the loan, monthly rate and payment the schedules recompute as the summary does (also App.py:286-305) |
| Summary.Succeeds | App.py:119-145 | definition: the calculation raises nothing, that is, the term has months and the payoff date exists |
| Summary.PayoffDate | App.py:140-145 | a payoff date exists iff the target year is in 1..9999 and, for a Feb-29 start, is a leap year; it keeps the start month, moves the year by the term, and has day 28 for a Feb-29 start |
| Summary.CalculateMortgage | App.py:97-164 | a summary exists iff the term is non-zero and the payoff date exists; each field is what the source computes: the loan, the payment formula, guarded PMI/tax/insurance, HOA passed through, the total monthly outlay, annual and term totals, total interest, and payoff year and month |
| Summary.TotalsAddUp | App.py:132-137 | total payments equal the loan, plus the total interest, plus the add-ons over the term |
| Summary.SummaryFailsExactly | App.py:109-145 | the summary fails exactly for a zero term, a payoff year outside 1..9999, or a Feb-29 start with a non-leap payoff year |
| Summary.LeapDayOneYearFails | App.py:140-145 | a Feb-29 start with a one-year term has no summary |
| Summary.NoRateNoInterest | App.py:125-137 | at a non-positive rate the total interest is zero |
| Summary.AddOnsNonNegative | App.py:128-130 | PMI, tax and insurance per month are never negative for a non-negative PMI rate |
| Summary.PaymentRetiresLoan | App.py:119-126 | for a positive loan and non-negative rate, the reported payment brings both loops' balances to exactly zero in the last month and keeps them positive before it |
| Amortization.Pow | App.py:122 | powers of a positive base are positive; for a positive exponent, powers of a base above one are above one |
| Amortization.PowInt | App.py:122 | Python's `**` for an integer exponent of either sign is positive, and equals one only for a zero exponent when the base is above one |
| Amortization.AnnuityPayment | App.py:119-126 | the payment is undefined (division by zero) exactly for a zero-month term |
| Amortization.AnnuityPaymentValue | App.py:120-124 | for a positive rate, `P * (Q - 1) == L * r * Q` with `Q = (1 + r)^n > 1` |
| Amortization.LinearPaymentRepays | App.py:125-126 | for a non-positive rate, the payment times the months is the loan |
| Amortization.AnnuityExceedsInterest | App.py:120-124 | the annuity payment exceeds the interest on the whole loan |
| Amortization.PaymentCoversInterest | App.py:119-126 | for a positive loan and term, the payment is positive and exceeds the first month's interest |
| Amortization.Step | App.py:223-229 | interest is balance times rate; the new balance is the old one minus the principal and is never negative; an overshoot is taken off the principal |
| Amortization.InlineStep | App.py:328-335 | the loops' inline arithmetic with the clamp is exactly `Step` |
| Amortization.GuardedBalance | App.py:220-229 | definition: the balance after m months of the yearly loop, which stops stepping once the balance is not positive |
| Amortization.PaidPrincipal | App.py:231-232 | definition: the principal the yearly loop accumulates over months from+1..to |
| Amortization.PaidInterest | App.py:231-232 | definition: the interest the yearly loop accumulates over months from+1..to |
| Amortization.SteppedBalance | App.py:318-335 | definition: the balance after m months of the monthly loop, which steps every month, shown or not |
| Amortization.GuardedMonth | App.py:220-229 | a month of the yearly loop lowers the balance by its principal |
| Amortization.PaidOffMonthPaysNothing | App.py:221-222 | a month that opens with a balance that is not positive pays no principal and no interest and leaves the balance as it is |
| Amortization.PrincipalTelescopes | App.py:220-232 | principal paid over a stretch of months is what the balance fell by |
| Amortization.PaidOffStays | App.py:221-222 | once the yearly loop's balance is not positive, it stays put and nothing more is paid |
| Amortization.PaidSplit | App.py:231-232 | sums over consecutive stretches of months add up |
| Amortization.GuardedBalanceNonNegative | App.py:225-229 | from a non-negative loan the yearly balance never goes negative |
| Amortization.StepLowers | App.py:223-229 | a month starting between zero and the loan lowers the balance when the payment exceeds the loan's interest |
| Amortization.GuardedBalanceDecreases | App.py:220-229 | each month keeps the yearly balance between zero and the loan and does not raise it |
| Amortization.GuardedBalanceMonotone | App.py:220-229 | the yearly balance never rises over any stretch of months |
| Amortization.SteppedBalanceDecreases | App.py:318-335 | when the payment exceeds the loan's interest, each month of the monthly loop keeps the balance between zero and the loan and does not raise it; a zero balance steps to zero |
| Amortization.SteppedBalanceMonotone | App.py:318-335 | the monthly loop's balance never rises over any stretch of months |
| Amortization.AnnuityMonth | App.py:223-229 | one month moves a balance on the annuity curve to the next point of the curve |
| Amortization.AnnuityStep | App.py:223-229 | month k moves the balance from curve point k-1 to k |
| Amortization.AnnuityClosedForm | App.py:220-229 | after k months both recurrences are on the closed-form annuity curve and agree |
| Amortization.CurveSign | App.py:120-124 | the annuity curve is zero at the term and positive before it |
| Amortization.LinearMonth | App.py:125-126 | one zero-rate month moves a balance on the straight line to the next point |
| Amortization.LinearStep | App.py:223-229 | month k moves the zero-rate balance from line point k-1 to k |
| Amortization.LineSign | App.py:125-126 | the zero-rate line is zero at the term and positive before it |
| Amortization.LinearClosedForm | App.py:220-229 | after k zero-rate months both recurrences are on the straight line and agree |
| Amortization.AnnuityPaidOff | App.py:120-124 | with the annuity payment both balances reach zero at the term and are positive before |
| Amortization.LinearPaidOff | App.py:125-126 | with the linear payment both balances reach zero at the term and are positive before |
| Amortization.PaidOffAtTerm | App.py:119-126 | for a positive loan and non-negative rate, the formula's payment retires the loan exactly at the term and not earlier |
| Calendar.DaysInMonth | App.py:140 | month lengths are 28-31; February has 29 days exactly in leap years |
| Calendar.IsLeapYear | App.py:140-145 | definition: the Gregorian leap-year rule of `datetime.date` |
| Calendar.IsLeapDay | App.py:141 | definition: a start date on February 29, the case the payoff clamp tests |
| Calendar.Valid | App.py:140 | definition: the dates `datetime.date` accepts: year 1..9999, month 1..12, day within the month |
| Calendar.Replace | App.py:140 | `replace` yields the date iff it is a valid date |
| Calendar.NextMonth | App.py:347-350 | the step keeps the day and goes to the next month, rolling December over to January of the next year |
| Calendar.AddMonths | App.py:346-350 | k steps keep the day and yield a valid date |
| Calendar.ShiftedNext | App.py:347-350 | the arithmetic shift by k+1 months is the month after the shift by k |
| Calendar.AddMonthsShifted | App.py:346-350 | k successful steps land on the start shifted by k calendar months |
| Calendar.NextMonthShifted | App.py:347-350 | one step from the k-shift is the (k+1)-shift, or fails when that date does not exist |
| Calendar.AddMonthsFailureSticks | App.py:346-350 | once a step has failed, every later step count fails |
| Calendar.SameDayEveryYear | App.py:236 | any day but Feb 29 exists in every year 1..9999 |
| Calendar.LeapYearsApart | App.py:140-145 | no two consecutive years are both leap years |
| Yearly.LabelsExtend | App.py:236 | adding a valid label keeps all labels valid |
| Yearly.LabelDate | App.py:236 | definition: the label of row `year` is the start date moved into year start + year - 1 (also at App.py:247 for padded rows), or none when that date does not exist |
| Yearly.ExpectedRow | App.py:234-251 | definition: row k holds the sums and closing balance of months 12(k-1)+1..12k, or is a zero row once an earlier year ended paid off |
| Yearly.Schedule | App.py:182-255 | definition: empty when the summary fails, else the rows of the plan the summary's payment gives |
| Yearly.ExpectedRows | App.py:234-251 | the first n expected rows are n rows |
| Yearly.ExpectedRowsSnoc | App.py:234-240 | the n+1 rows are the n rows and row n+1 |
| Yearly.PaidYearRow | App.py:234-240 | a year the loop pays through yields expected row `year` |
| Yearly.PaddedYearRow | App.py:242-251 | a year after payoff is a zero row |
| Yearly.PlanRows | App.py:216-255 | the rows are empty or one per term year, row i numbered i+1 and labelled start year + i |
| Yearly.PayYear | App.py:217-232 | up to twelve months, stopping once the balance is not positive: the year's principal and interest sums and closing balance match the recurrence |
| Yearly.YearlyRows | App.py:213-255 | the year loop with zero padding produces exactly `PlanRows` |
| Yearly.GenerateYearlySchedule | App.py:182-211 | the schedule is empty when the summary fails, else the year loop's rows |
| Yearly.ScheduleRow | App.py:216-255 | a non-empty schedule has one row per term year, each the expected row |
| Yearly.YearlyNonEmptyExactly | App.py:216-258 | the schedule is non-empty iff the term is at least one, the payoff year is at most 9999, and the start is not Feb 29 |
| Yearly.LabelsExactly | App.py:236 | all labels exist iff the last label year is at most 9999 and, beyond one row, the start is not Feb 29 |
| Yearly.ZeroRowsAfterPayoff | App.py:242-252 | every row after one ending paid off is a zero row |
| Yearly.NonPositiveLoanRows | App.py:220-222 | a loan of at most zero gives a first row with no payments ending at the loan amount, then zero rows |
| Yearly.PrincipalPrefix | App.py:231-239 | the principal of the first k rows is the loan less the balance after k years |
| Yearly.PrincipalAddsUp | App.py:231-239 | the principal column adds up to the loan less the last ending balance |
| Yearly.BalancesNeverRise | App.py:220-239 | ending balances never rise and stay between zero and the loan |
| Yearly.YearlyPaysOff | App.py:216-252 | for a positive loan and non-negative rate, every row but the last ends positive and the last ends at zero |
| Monthly.Range | App.py:314 | `range(lo, hi)` as a sequence of consecutive integers |
| Monthly.Window | App.py:313-316 | the shown months are at most min(total, 24), all in 1..total, and are exactly the months in the first or last twelve |
| Monthly.WindowIncreasing | App.py:313-316 | the shown months are strictly increasing, so none repeats |
| Monthly.WindowLast | App.py:316 | for a positive term the window ends on the last month |
| Monthly.StopIndex | App.py:352-353 | the emitted row count lies between the start position and the window size |
| Monthly.StopIndexSpec | App.py:352-353 | the loop stops right after the first shown month whose closing balance is not positive, or at the end of the window |
| Monthly.ExpectedMonthRow | App.py:328-343 | definition: the row at window position i shows month w[i], is labelled start + i months, and holds that month's step from the balance every earlier month left |
| Monthly.ExpectedMonthRows | App.py:337-343 | the first n expected rows are n rows |
| Monthly.ExpectedMonthRowsIndex | App.py:337-343 | row i of the first n expected rows is expected row i |
| Monthly.PlanMonthRows | App.py:318-353 | row i shows window month i, labelled i calendar months after the start |
| Monthly.Schedule | App.py:276-356 | definition: empty when the summary fails, else the rows of the plan over the window |
| Monthly.GenerateMonthlySchedule | App.py:276-311 | the schedule is empty when the summary fails, else the month loop's rows |
| Monthly.WindowPosition | App.py:318-319 | a month is shown iff it is the next unshown window month |
| Monthly.EmittedMonth | App.py:328-345 | an emitted month appends the next expected row, and its closing balance is the recurrence's |
| Monthly.MonthLoopEntry | App.py:307-309 | the loop invariant holds at the start |
| Monthly.HiddenMonth | App.py:319-326 | a hidden month advances the balance by one step and emits nothing |
| Monthly.ShownMonth | App.py:328-353 | a shown month with a positive closing balance appends its row and moves the label |
| Monthly.LastShownMonth | App.py:328-353 | a shown month that pays off completes the schedule |
| Monthly.LastRow | App.py:337-353 | the row that pays off is the last row of the schedule |
| Monthly.EmitMonth | App.py:328-353 | a shown month either continues the loop or completes the schedule |
| Monthly.ShownMonthDateFails | App.py:346-350 | a label date that cannot be advanced empties the schedule |
| Monthly.MonthLoopExit | App.py:318 | after the last month every window month has been shown |
| Monthly.MonthlyRows | App.py:307-356 | the month loop with window, `continue`, date step and `break` produces exactly `PlanMonthRows` |
| Monthly.ExpectedMonthRowValues | App.py:328-335 | an expected row's interest, principal and closing balance come from the every-month recurrence |
| Monthly.PlanMonthRowValues | App.py:321-345 | each row's interest is charged on the balance all earlier months (shown or hidden) left; its principal is the balance drop |
| Monthly.PlanMonthRowsStop | App.py:352-353 | every row but the last has a positive ending balance, and a schedule cut short ends at zero |
| Monthly.MonthlyRowsInWindow | App.py:313-343 | for every row i, including the last and a single row: there are at most 24 rows, row i shows a month among the first and last twelve of the term, every later row shows a later month, and row i is labelled i calendar months after the start |
| Monthly.PlanBalancesNeverRise | App.py:318-345 | for a positive loan paid by its term's annuity payment, the rows' ending balances never rise and stay between zero and the loan, hidden months included |
| Monthly.BalancesNeverRise | App.py:318-345 | for a positive loan amount, the monthly schedule's ending balances never rise and stay between zero and the loan |
| Monthly.DateFailureEmpties | App.py:346-350 | when the start date cannot be advanced one month, the schedule is empty |
| Monthly.ThirtyFirstFails | App.py:347-350 | two month steps from a 31st always fail |
| Monthly.ThirtyFirstStartEmpties | App.py:346-359 | a positive loan at a non-negative rate that starts on a 31st gets an empty schedule: its balance outlives the first month, and the label reaches a month without a 31st |
| Monthly.MonthlyFullWindow | App.py:313-353 | for a positive loan and non-negative rate, with valid labels, every window month is shown: the last row is the term's last month and ends at zero, all earlier rows end positive |

## Left out

- The Streamlit page: widgets, sidebar, metrics, and the `st.error` messages. A caught
  exception is modelled only as its result: `None`, or an empty schedule.
- Plotly charts and the pandas `DataFrame`. Schedules are sequences of row records.
- `strftime` formatting. Labels are the year (yearly) or the year and month (monthly),
  and the payoff date is its year and month.
- The `COUNTRIES` table. It is configuration for the page only.
- Floating-point rounding and the `float()`/`int()` coercions. Inputs are typed, and all
  arithmetic is exact `real`. So no statement here covers a float balance that ends
  slightly above or below zero. `PaidOffAtTerm` and the lemmas that use it hold for exact
  arithmetic only.
- Amortization.PowInt: a Python float power that overflows or underflows is not modelled.
  With an exact power, the `(1 + r)^n - 1 == 0` division by zero happens only for a zero
  term.
- Years outside 1..9999 are not dates. A `replace` that would leave that range fails like
  any other invalid date.
