/**
 * `generate_yearly_schedule`: one row per year of the term, each summing twelve months of
 * the loop that stops paying once the balance is no longer positive. When the loan is
 * paid off the remaining years are padded with zero rows. Any failure (the summary
 * failing, or a row's year label that is not a date) yields the empty schedule.
 */
module Yearly {
  import opened Wrappers
  import opened Calendar
  import opened Amortization
  import opened Summary

  /** A schedule row; `labelYear` is the calendar year the row is labelled with. */
  datatype YearRow = YearRow(year: int, labelYear: int, principal: real, interest: real, endingBalance: real)

  /** The date row `year` (1-based) is labelled with: the start date moved into that year. */
  function LabelDate(start: Date, year: int): Option<Date> {
    Replace(start.year + year - 1, start.month, start.day)
  }

  /** Every row of a `years`-row schedule has a label date. */
  predicate LabelsValid(start: Date, years: int) {
    forall k :: 1 <= k <= years ==> LabelDate(start, k).Some?
  }

  lemma {:induction false} LabelsExtend(start: Date, n: int)
    requires n >= 0 && LabelsValid(start, n) && LabelDate(start, n + 1).Some?
    ensures LabelsValid(start, n + 1)
  {
  }

  /**
   * Row `k` of the schedule: the principal and interest of months `12(k-1)+1 .. 12k`
   * and the balance after them, or a zero row once an earlier year ended paid off.
   */
  function ExpectedRow(pl: Plan, start: Date, k: nat): YearRow
    requires k >= 1
  {
    if k > 1 && GuardedBalance(pl, 12 * (k - 1)) <= 0.0 then
      YearRow(k, start.year + k - 1, 0.0, 0.0, 0.0)
    else
      YearRow(k, start.year + k - 1, PaidPrincipal(pl, 12 * (k - 1), 12 * k),
              PaidInterest(pl, 12 * (k - 1), 12 * k), GuardedBalance(pl, 12 * k))
  }

  /** The first `n` rows of the schedule. */
  function ExpectedRows(pl: Plan, start: Date, n: nat): (rows: seq<YearRow>)
    ensures |rows| == n
  {
    seq(n, i requires 0 <= i < n => ExpectedRow(pl, start, i + 1))
  }

  lemma {:induction false} ExpectedRowsSnoc(pl: Plan, start: Date, n: nat)
    ensures ExpectedRows(pl, start, n + 1) == ExpectedRows(pl, start, n) + [ExpectedRow(pl, start, n + 1)]
  {
  }

  /** A year the loop pays through: its sums and closing balance make up row `year`. */
  lemma {:induction false} PaidYearRow(pl: Plan, start: Date, year: nat, principal: real, interest: real, balance: real, labelYear: int)
    requires year >= 1
    requires year > 1 ==> GuardedBalance(pl, 12 * (year - 1)) > 0.0
    requires principal == PaidPrincipal(pl, 12 * (year - 1), 12 * year)
    requires interest == PaidInterest(pl, 12 * (year - 1), 12 * year)
    requires balance == GuardedBalance(pl, 12 * year)
    requires labelYear == start.year + year - 1
    ensures YearRow(year, labelYear, principal, interest, balance) == ExpectedRow(pl, start, year)
  {
  }

  /** A year after the loan was paid off is a zero row. */
  lemma {:induction false} PaddedYearRow(pl: Plan, start: Date, paidYear: nat, year: nat, labelYear: int)
    requires 1 <= paidYear < year && GuardedBalance(pl, 12 * paidYear) <= 0.0
    requires labelYear == start.year + year - 1
    ensures YearRow(year, labelYear, 0.0, 0.0, 0.0) == ExpectedRow(pl, start, year)
  {
    PaidOffStays(pl, 12 * paidYear, 12 * (year - 1));
  }

  /**
   * The rows the loop produces for a plan: one per year of the term, or none when some
   * row's label date does not exist.
   */
  function PlanRows(pl: Plan, start: Date, years: int): (rows: seq<YearRow>)
    ensures rows == [] || |rows| == years
    ensures forall i :: 0 <= i < |rows| ==> (rows[i].year == i + 1 && rows[i].labelYear == start.year + i)
  {
    if years <= 0 || !LabelsValid(start, years) then [] else ExpectedRows(pl, start, years)
  }

  /** The schedule `generate_yearly_schedule` returns. */
  function Schedule(input: LoanInput): seq<YearRow>
    requires Valid(input.startDate)
  {
    if !Succeeds(input) then []
    else PlanRows(PlanOf(input), input.startDate, EffectiveTerm(input))
  }

  /** `generate_yearly_schedule`: the summary must succeed before any row is produced. */
  method GenerateYearlySchedule(input: LoanInput) returns (rows: seq<YearRow>)
    requires Valid(input.startDate)
    ensures rows == Schedule(input)
  {
    if CalculateMortgage(input).None? {
      return [];
    }
    var loan := input.homeValue - input.downPayment;
    var monthlyRate := EffectiveRate(input) / 12.0;
    var years := EffectiveTerm(input);
    var payment := AnnuityPayment(loan, monthlyRate, years * 12).value;
    rows := YearlyRows(loan, monthlyRate, payment, years, input.startDate);
  }

  /**
   * One year of the loop: up to twelve months, stopping at the first month that opens
   * with a balance that is no longer positive. Returns the year's principal and interest
   * and the closing balance.
   */
  method PayYear(monthlyRate: real, payment: real, opening: real, ghost pl: Plan, ghost first: nat)
    returns (yearlyPrincipal: real, yearlyInterest: real, balance: real)
    requires pl.rate == monthlyRate && pl.payment == payment && opening == GuardedBalance(pl, first)
    ensures yearlyPrincipal == PaidPrincipal(pl, first, first + 12)
    ensures yearlyInterest == PaidInterest(pl, first, first + 12)
    ensures balance == GuardedBalance(pl, first + 12)
  {
    yearlyInterest := 0.0;
    yearlyPrincipal := 0.0;
    balance := opening;
    var month := 0;
    while month < 12
      invariant 0 <= month <= 12
      invariant balance == GuardedBalance(pl, first + month)
      invariant yearlyPrincipal == PaidPrincipal(pl, first, first + month)
      invariant yearlyInterest == PaidInterest(pl, first, first + month)
    {
      if balance <= 0.0 {
        PaidOffStays(pl, first + month, first + 12);
        PaidSplit(pl, first, first + month, first + 12);
        return;
      }
      var interestPayment := balance * monthlyRate;
      var principalPayment := payment - interestPayment;
      InlineStep(balance, monthlyRate, payment, interestPayment, principalPayment, balance - principalPayment);
      balance := balance - principalPayment;
      if balance < 0.0 {
        principalPayment := principalPayment + balance;
        balance := 0.0;
      }
      yearlyInterest := yearlyInterest + interestPayment;
      yearlyPrincipal := yearlyPrincipal + principalPayment;
      month := month + 1;
    }
  }

  /** The year loop of `generate_yearly_schedule`, on exact reals. */
  method YearlyRows(loan: real, monthlyRate: real, payment: real, years: int, start: Date)
    returns (rows: seq<YearRow>)
    ensures rows == PlanRows(Plan(loan, monthlyRate, payment), start, years)
  {
    ghost var pl := Plan(loan, monthlyRate, payment);
    rows := [];
    var balance := loan;
    var year := 1;
    while year <= years
      invariant 1 <= year && (year == 1 || year <= years + 1)
      invariant balance == GuardedBalance(pl, 12 * (year - 1))
      invariant year > 1 ==> balance > 0.0
      invariant rows == ExpectedRows(pl, start, year - 1)
      invariant LabelsValid(start, year - 1)
    {
      var yearlyPrincipal, yearlyInterest;
      yearlyPrincipal, yearlyInterest, balance := PayYear(monthlyRate, payment, balance, pl, 12 * (year - 1));

      var rowLabel := LabelDate(start, year);
      if rowLabel.None? {
        assert !LabelsValid(start, years);
        return [];
      }
      LabelsExtend(start, year - 1);
      PaidYearRow(pl, start, year, yearlyPrincipal, yearlyInterest, balance, rowLabel.value.year);
      ExpectedRowsSnoc(pl, start, year - 1);
      rows := rows + [YearRow(year, rowLabel.value.year, yearlyPrincipal, yearlyInterest, balance)];

      if balance <= 0.0 {
        // Paid off: the remaining years are zero rows.
        var remaining := year + 1;
        while remaining <= years
          invariant year + 1 <= remaining <= years + 1
          invariant rows == ExpectedRows(pl, start, remaining - 1)
          invariant LabelsValid(start, remaining - 1)
        {
          var padLabel := LabelDate(start, remaining);
          if padLabel.None? {
            assert !LabelsValid(start, years);
            return [];
          }
          LabelsExtend(start, remaining - 1);
          PaddedYearRow(pl, start, year, remaining, padLabel.value.year);
          ExpectedRowsSnoc(pl, start, remaining - 1);
          rows := rows + [YearRow(remaining, padLabel.value.year, 0.0, 0.0, 0.0)];
          remaining := remaining + 1;
        }
        return;
      }
      year := year + 1;
    }
  }

  /** A row of a non-empty schedule, unfolded. */
  lemma {:induction false} ScheduleRow(input: LoanInput, i: nat)
    requires Valid(input.startDate) && i < |Schedule(input)|
    ensures Succeeds(input) && TermMonths(input) != 0
    ensures |Schedule(input)| == EffectiveTerm(input)
    ensures Schedule(input)[i] == ExpectedRow(PlanOf(input), input.startDate, i + 1)
  {
  }

  /**
   * The schedule is non-empty exactly when the term is positive, the payoff year is at
   * most 9999 and the start date is not February 29: a leap-day start fails either on
   * the payoff date (one-year term) or on the second row's label (longer terms).
   */
  lemma {:induction false} YearlyNonEmptyExactly(input: LoanInput)
    requires Valid(input.startDate)
    ensures Schedule(input) != [] <==>
      EffectiveTerm(input) >= 1 && input.startDate.year + EffectiveTerm(input) <= MaxYear
      && !IsLeapDay(input.startDate)
  {
    var start := input.startDate;
    var years := EffectiveTerm(input);
    if years >= 1 {
      LabelsExactly(start, years);
      LeapYearsApart(start.year);
    }
  }

  /**
   * Every row of a `years`-row schedule has a label date exactly when the last label year
   * is at most 9999 and, beyond the first row, the start date is not February 29.
   */
  lemma {:induction false} LabelsExactly(start: Date, years: int)
    requires Valid(start) && years >= 1
    ensures LabelsValid(start, years) <==>
      start.year + years - 1 <= MaxYear && (years == 1 || !IsLeapDay(start))
  {
    if start.year + years - 1 <= MaxYear && (years == 1 || !IsLeapDay(start)) {
      forall k | 1 <= k <= years
        ensures LabelDate(start, k).Some?
      {
        if k > 1 {
          SameDayEveryYear(start, start.year + k - 1);
        }
      }
    }
    if IsLeapDay(start) && years >= 2 {
      LeapYearsApart(start.year);
      assert LabelDate(start, 2).None?;
    }
    if start.year + years - 1 > MaxYear {
      assert LabelDate(start, years).None?;
    }
  }

  /** Once a row ends paid off, every later row is a zero row. */
  lemma {:induction false} ZeroRowsAfterPayoff(input: LoanInput, i: nat, j: nat)
    requires Valid(input.startDate)
    requires i < j < |Schedule(input)| && Schedule(input)[i].endingBalance <= 0.0
    ensures Schedule(input)[j] == YearRow(j + 1, input.startDate.year + j, 0.0, 0.0, 0.0)
  {
    var pl := PlanOf(input);
    if i > 0 && GuardedBalance(pl, 12 * i) <= 0.0 {
      PaidOffStays(pl, 12 * i, 12 * j);
    } else {
      PaidOffStays(pl, 12 * (i + 1), 12 * j);
    }
  }

  /**
   * A loan amount that is not positive is never paid on: the first row reports the loan
   * amount as its ending balance and every later row is a zero row.
   */
  lemma {:induction false} NonPositiveLoanRows(input: LoanInput, j: nat)
    requires Valid(input.startDate) && LoanAmount(input) <= 0.0 && j < |Schedule(input)|
    ensures j == 0 ==> Schedule(input)[0] == YearRow(1, input.startDate.year, 0.0, 0.0, LoanAmount(input))
    ensures j > 0 ==> Schedule(input)[j] == YearRow(j + 1, input.startDate.year + j, 0.0, 0.0, 0.0)
  {
    var pl := PlanOf(input);
    PaidOffStays(pl, 0, 12);
    if j > 0 {
      PaidOffStays(pl, 0, 12 * j);
    }
  }

  /** The principal column of a stretch of rows, added up. */
  function TotalPrincipal(rows: seq<YearRow>): real {
    if rows == [] then 0.0 else TotalPrincipal(rows[..|rows| - 1]) + rows[|rows| - 1].principal
  }

  lemma {:induction false} PrincipalPrefix(pl: Plan, start: Date, k: nat)
    ensures TotalPrincipal(ExpectedRows(pl, start, k)) == pl.loan - GuardedBalance(pl, 12 * k)
  {
    if k > 0 {
      PrincipalPrefix(pl, start, k - 1);
      ExpectedRowsSnoc(pl, start, k - 1);
      var rows := ExpectedRows(pl, start, k);
      assert rows[..k - 1] == ExpectedRows(pl, start, k - 1);
      if k > 1 && GuardedBalance(pl, 12 * (k - 1)) <= 0.0 {
        PaidOffStays(pl, 12 * (k - 1), 12 * k);
      } else {
        PrincipalTelescopes(pl, 12 * (k - 1), 12 * k);
      }
    }
  }

  /**
   * For a non-negative loan amount the principal column adds up to the loan amount less
   * the last row's ending balance.
   */
  lemma {:induction false} PrincipalAddsUp(input: LoanInput)
    requires Valid(input.startDate) && LoanAmount(input) >= 0.0 && Schedule(input) != []
    ensures var rows := Schedule(input);
      TotalPrincipal(rows) == LoanAmount(input) - rows[|rows| - 1].endingBalance
  {
    var rows := Schedule(input);
    var n := |rows|;
    ScheduleRow(input, n - 1);
    var pl := PlanOf(input);
    assert rows == ExpectedRows(pl, input.startDate, n);
    PrincipalPrefix(pl, input.startDate, n);
    GuardedBalanceNonNegative(pl, 12 * n);
    if n > 1 && GuardedBalance(pl, 12 * (n - 1)) <= 0.0 {
      PaidOffStays(pl, 12 * (n - 1), 12 * n);
    }
  }

  /** For a positive loan amount the ending balances never rise and stay within the loan. */
  lemma {:induction false} BalancesNeverRise(input: LoanInput, i: nat, j: nat)
    requires Valid(input.startDate) && LoanAmount(input) > 0.0
    requires i <= j < |Schedule(input)|
    ensures 0.0 <= Schedule(input)[j].endingBalance <= Schedule(input)[i].endingBalance <= LoanAmount(input)
  {
    var pl := PlanOf(input);
    PaymentCoversInterest(pl.loan, pl.rate, TermMonths(input));
    GuardedBalanceMonotone(pl, 12 * (i + 1), 12 * (j + 1));
    GuardedBalanceMonotone(pl, 0, 12 * (i + 1));
    if i > 0 && GuardedBalance(pl, 12 * i) <= 0.0 {
      PaidOffStays(pl, 12 * i, 12 * (i + 1));
      PaidOffStays(pl, 12 * i, 12 * j);
    } else if j > 0 && GuardedBalance(pl, 12 * j) <= 0.0 {
      PaidOffStays(pl, 12 * j, 12 * (j + 1));
    }
  }

  /**
   * For a positive loan amount and a non-negative rate, the loan is paid off in the last
   * year and not before: every row but the last ends with a positive balance, the last with zero.
   */
  lemma {:induction false} YearlyPaysOff(input: LoanInput, i: nat)
    requires Valid(input.startDate) && LoanAmount(input) > 0.0 && MonthlyRate(input) >= 0.0
    requires i < |Schedule(input)|
    ensures i < |Schedule(input)| - 1 ==> Schedule(input)[i].endingBalance > 0.0
    ensures i == |Schedule(input)| - 1 ==> Schedule(input)[i].endingBalance == 0.0
  {
    PaymentRetiresLoan(input, 12 * (i + 1));
    if i > 0 {
      PaymentRetiresLoan(input, 12 * i);
    }
  }
}
