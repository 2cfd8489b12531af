/**
 * `generate_monthly_schedule`: the balance is stepped through every month of the term, and
 * a row is emitted for each month of the first and the last twelve. The label date starts
 * at the start date and moves one calendar month per emitted row. The loop ends after the
 * first emitted row whose balance is no longer positive. Any failure (the summary failing,
 * or a label date that does not exist) yields the empty schedule.
 */
module Monthly {
  import opened Wrappers
  import opened Calendar
  import opened Amortization
  import opened Summary

  /** A schedule row; `labelYear` and `labelMonth` are the calendar month it is labelled with. */
  datatype MonthRow = MonthRow(
    month: int, labelYear: int, labelMonth: int, principal: real, interest: real, endingBalance: real)

  function Min(a: int, b: int): int {
    if a <= b then a else b
  }

  function Max(a: int, b: int): int {
    if a >= b then a else b
  }

  /** The integers `lo .. hi - 1` in increasing order. */
  function Range(lo: int, hi: int): (r: seq<int>)
    ensures |r| == if lo < hi then hi - lo else 0
    ensures forall i :: 0 <= i < |r| ==> r[i] == lo + i
  {
    seq(if lo < hi then hi - lo else 0, i => lo + i)
  }

  /**
   * The months the schedule shows: months 1 to 12 and the last twelve months of the term,
   * in increasing order and each once.
   */
  function Window(total: int): (w: seq<int>)
    ensures |w| == if total <= 0 then 0 else Min(total, 24)
    ensures forall i :: 0 <= i < |w| ==> 1 <= w[i] <= total
    ensures forall m :: m in w <==> 1 <= m <= total && (m <= 12 || m > total - 12)
  {
    var first := Range(1, Min(13, total + 1));
    var last := if total > 12 then Range(Max(total - 11, 13), total + 1) else [];
    assert forall m :: m in first <==> 1 <= m <= total && m <= 12 by {
      forall m | 1 <= m <= total && m <= 12
        ensures m in first
      {
        assert first[m - 1] == m;
      }
    }
    assert forall m :: m in last <==> 13 <= m <= total && m > total - 12 by {
      forall m | 13 <= m <= total && m > total - 12
        ensures m in last
      {
        assert last[m - Max(total - 11, 13)] == m;
      }
    }
    first + last
  }

  /** The window is strictly increasing, so no month is shown twice. */
  lemma {:induction false} WindowIncreasing(total: int, i: nat, j: nat)
    requires i < j < |Window(total)|
    ensures Window(total)[i] < Window(total)[j]
  {
    var first := Range(1, Min(13, total + 1));
    assert Window(total) == first + (if total > 12 then Range(Max(total - 11, 13), total + 1) else []);
  }

  /** The window of a positive term ends on the term's last month. */
  lemma {:induction false} WindowLast(total: int)
    requires total > 0
    ensures |Window(total)| > 0 && Window(total)[|Window(total)| - 1] == total
  {
    var w := Window(total);
    assert total in w;
    var k :| 0 <= k < |w| && w[k] == total;
    if k < |w| - 1 {
      WindowIncreasing(total, k, |w| - 1);
    }
  }

  /** Every month in `w` is a real month of the loop, numbered from 1. */
  predicate PositiveMonths(w: seq<int>) {
    forall i :: 0 <= i < |w| ==> w[i] >= 1
  }

  /**
   * How many rows the loop emits: it stops after the first shown month (from position
   * `j` of the window on) whose closing balance is no longer positive.
   */
  function StopIndex(pl: Plan, w: seq<int>, j: nat): (n: nat)
    requires PositiveMonths(w) && j <= |w|
    decreases |w| - j
    ensures j <= n <= |w|
  {
    if j == |w| then j
    else if SteppedBalance(pl, w[j]) <= 0.0 then j + 1
    else StopIndex(pl, w, j + 1)
  }

  /**
   * The stop is the first position from `j` on whose closing balance is not positive,
   * or the end of the window when there is none.
   */
  lemma {:induction false} StopIndexSpec(pl: Plan, w: seq<int>, j: nat)
    requires PositiveMonths(w) && j <= |w|
    decreases |w| - j
    ensures var n := StopIndex(pl, w, j);
      (n == j <==> j == |w|)
      && (forall i :: j <= i < n - 1 ==> SteppedBalance(pl, w[i]) > 0.0)
      && (n < |w| ==> n > j && SteppedBalance(pl, w[n - 1]) <= 0.0)
  {
    if j < |w| && SteppedBalance(pl, w[j]) > 0.0 {
      StopIndexSpec(pl, w, j + 1);
    }
  }

  /**
   * The row for window position `i`: the month it shows, the label `i` months after the
   * start, and that month's step from the balance every earlier month left.
   */
  function ExpectedMonthRow(pl: Plan, start: Date, w: seq<int>, i: nat): MonthRow
    requires PositiveMonths(w) && i < |w|
  {
    var m := w[i];
    var s := Step(SteppedBalance(pl, m - 1), pl.rate, pl.payment);
    MonthRow(m, ShiftYear(start, i), ShiftMonth(start, i), s.principal, s.interest, s.balance)
  }

  /** The first `n` rows. */
  function ExpectedMonthRows(pl: Plan, start: Date, w: seq<int>, n: nat): (rows: seq<MonthRow>)
    requires PositiveMonths(w) && n <= |w|
    ensures |rows| == n
  {
    if n == 0 then [] else ExpectedMonthRows(pl, start, w, n - 1) + [ExpectedMonthRow(pl, start, w, n - 1)]
  }

  lemma {:induction false} ExpectedMonthRowsIndex(pl: Plan, start: Date, w: seq<int>, n: nat, i: nat)
    requires PositiveMonths(w) && i < n <= |w|
    ensures ExpectedMonthRows(pl, start, w, n)[i] == ExpectedMonthRow(pl, start, w, i)
  {
    if i < n - 1 {
      ExpectedMonthRowsIndex(pl, start, w, n - 1, i);
    }
  }

  /**
   * The rows the loop produces for a plan and a window: those up to the stop, or none when
   * a label date (including the one after the last row) does not exist.
   */
  function PlanMonthRows(pl: Plan, start: Date, w: seq<int>): (rows: seq<MonthRow>)
    requires Valid(start) && PositiveMonths(w)
    ensures |rows| <= |w|
    ensures forall i :: 0 <= i < |rows| ==> rows[i].month == w[i]
    ensures forall i :: 0 <= i < |rows| ==> (rows[i].labelYear == ShiftYear(start, i)
                                          && rows[i].labelMonth == ShiftMonth(start, i))
  {
    var n := StopIndex(pl, w, 0);
    if AddMonths(start, n).None? then []
    else
      var rows := ExpectedMonthRows(pl, start, w, n);
      assert forall i :: 0 <= i < n ==> rows[i] == ExpectedMonthRow(pl, start, w, i) by {
        forall i | 0 <= i < n
          ensures rows[i] == ExpectedMonthRow(pl, start, w, i)
        {
          ExpectedMonthRowsIndex(pl, start, w, n, i);
        }
      }
      rows
  }

  /** The schedule `generate_monthly_schedule` returns. */
  function Schedule(input: LoanInput): seq<MonthRow>
    requires Valid(input.startDate)
  {
    if !Succeeds(input) then []
    else PlanMonthRows(PlanOf(input), input.startDate, Window(TermMonths(input)))
  }

  /** `generate_monthly_schedule`: the summary must succeed before any row is produced. */
  method GenerateMonthlySchedule(input: LoanInput) returns (rows: seq<MonthRow>)
    requires Valid(input.startDate)
    ensures rows == Schedule(input)
  {
    if CalculateMortgage(input).None? {
      return [];
    }
    var loan := input.homeValue - input.downPayment;
    var monthlyRate := EffectiveRate(input) / 12.0;
    var totalMonths := EffectiveTerm(input) * 12;
    var payment := AnnuityPayment(loan, monthlyRate, totalMonths).value;
    rows := MonthlyRows(loan, monthlyRate, payment, totalMonths, input.startDate);
  }

  /** Where month `month` stands in the window, given the window position `j` reached so far. */
  lemma {:induction false} WindowPosition(total: int, j: nat, month: int)
    requires j <= |Window(total)|
    requires j > 0 ==> Window(total)[j - 1] < month
    requires j < |Window(total)| ==> Window(total)[j] >= month
    ensures month in Window(total) <==> j < |Window(total)| && Window(total)[j] == month
    ensures j + 1 < |Window(total)| ==> Window(total)[j + 1] > Window(total)[j]
  {
    var w := Window(total);
    if j + 1 < |w| {
      WindowIncreasing(total, j, j + 1);
    }
    if month in w {
      var k :| 0 <= k < |w| && w[k] == month;
      if k < j - 1 {
        WindowIncreasing(total, k, j - 1);
      } else if k > j {
        WindowIncreasing(total, j, k);
      }
    }
  }

  /**
   * An emitted month: the row it appends is the next expected row, its closing balance is
   * the recurrence's, and a positive closing balance leaves the stop where it was.
   */
  lemma {:induction false} EmittedMonth(pl: Plan, start: Date, w: seq<int>, j: nat, month: int, balance: real,
                                        current: Date, s: Split)
    requires PositiveMonths(w) && j < |w| && Valid(start) && w[j] == month
    requires AddMonths(start, j) == Some(current)
    requires balance == SteppedBalance(pl, month - 1) && s == Step(balance, pl.rate, pl.payment)
    ensures ExpectedMonthRows(pl, start, w, j + 1)
         == ExpectedMonthRows(pl, start, w, j) + [MonthRow(month, current.year, current.month, s.principal, s.interest, s.balance)]
    ensures s.balance == SteppedBalance(pl, month)
    ensures s.balance > 0.0 ==> StopIndex(pl, w, j) == StopIndex(pl, w, j + 1)
  {
    AddMonthsShifted(start, j);
  }

  /**
   * What holds at the head of the month loop when `rows` have been emitted, `month` is the
   * next month, `balance` the balance every earlier month left and `current` the next label date.
   */
  ghost predicate MonthLoopInv(pl: Plan, start: Date, total: int, month: int, balance: real,
                               current: Date, rows: seq<MonthRow>)
    requires Valid(start)
  {
    var w := Window(total);
    1 <= month && (month == 1 || month <= total + 1)
    && balance == SteppedBalance(pl, month - 1)
    && |rows| <= |w|
    && (|rows| > 0 ==> w[|rows| - 1] < month)
    && (|rows| < |w| ==> w[|rows|] >= month)
    && StopIndex(pl, w, 0) == StopIndex(pl, w, |rows|)
    && rows == ExpectedMonthRows(pl, start, w, |rows|)
    && AddMonths(start, |rows|) == Some(current)
  }

  lemma {:induction false} MonthLoopEntry(pl: Plan, start: Date, total: int)
    requires Valid(start)
    ensures MonthLoopInv(pl, start, total, 1, pl.loan, start, [])
  {
  }

  /** A month outside the window only moves the balance on. */
  lemma {:induction false} HiddenMonth(pl: Plan, start: Date, total: int, month: int, balance: real,
                                       current: Date, rows: seq<MonthRow>, after: real)
    requires Valid(start) && MonthLoopInv(pl, start, total, month, balance, current, rows)
    requires month <= total && month !in Window(total)
    requires after == Step(balance, pl.rate, pl.payment).balance
    ensures MonthLoopInv(pl, start, total, month + 1, after, current, rows)
  {
    WindowPosition(total, |rows|, month);
  }

  /** A shown month whose closing balance is still positive appends its row and goes on. */
  lemma {:induction false} ShownMonth(pl: Plan, start: Date, total: int, month: int, balance: real,
                                      current: Date, rows: seq<MonthRow>, s: Split, next: Date)
    requires Valid(start) && MonthLoopInv(pl, start, total, month, balance, current, rows)
    requires month <= total && month in Window(total)
    requires s == Step(balance, pl.rate, pl.payment) && NextMonth(current) == Some(next)
    requires s.balance > 0.0
    ensures MonthLoopInv(pl, start, total, month + 1, s.balance, next,
                         rows + [MonthRow(month, current.year, current.month, s.principal, s.interest, s.balance)])
  {
    var w := Window(total);
    var j := |rows|;
    WindowPosition(total, j, month);
    EmittedMonth(pl, start, w, j, month, balance, current, s);
    assert AddMonths(start, j + 1) == Some(next);
    assert SteppedBalance(pl, month) == s.balance;
  }

  /** A shown month that pays the loan off appends the last row of the schedule. */
  lemma {:induction false} LastShownMonth(pl: Plan, start: Date, total: int, month: int, balance: real,
                                          current: Date, rows: seq<MonthRow>, s: Split, next: Date)
    requires Valid(start) && MonthLoopInv(pl, start, total, month, balance, current, rows)
    requires month <= total && month in Window(total)
    requires s == Step(balance, pl.rate, pl.payment) && NextMonth(current) == Some(next)
    requires s.balance <= 0.0
    ensures rows + [MonthRow(month, current.year, current.month, s.principal, s.interest, s.balance)]
         == PlanMonthRows(pl, start, Window(total))
  {
    var w := Window(total);
    WindowPosition(total, |rows|, month);
    LastRow(pl, start, w, rows, month, balance, current, s, next);
  }

  /** The row at window position `|rows|` ends the schedule when its closing balance is not positive. */
  lemma {:induction false} LastRow(pl: Plan, start: Date, w: seq<int>, rows: seq<MonthRow>, month: int,
                                   balance: real, current: Date, s: Split, next: Date)
    requires PositiveMonths(w) && |rows| < |w| && Valid(start) && w[|rows|] == month
    requires rows == ExpectedMonthRows(pl, start, w, |rows|)
    requires StopIndex(pl, w, 0) == StopIndex(pl, w, |rows|)
    requires AddMonths(start, |rows|) == Some(current) && NextMonth(current) == Some(next)
    requires balance == SteppedBalance(pl, month - 1)
    requires s == Step(balance, pl.rate, pl.payment) && s.balance <= 0.0
    ensures rows + [MonthRow(month, current.year, current.month, s.principal, s.interest, s.balance)]
         == PlanMonthRows(pl, start, w)
  {
    var j := |rows|;
    EmittedMonth(pl, start, w, j, month, balance, current, s);
    assert StopIndex(pl, w, j) == j + 1;
    assert AddMonths(start, j + 1) == Some(next);
    assert PlanMonthRows(pl, start, w) == ExpectedMonthRows(pl, start, w, j + 1);
  }

  /** A shown month whose label date advances: the loop goes on, or the schedule is complete. */
  lemma {:induction false} EmitMonth(pl: Plan, start: Date, total: int, month: int, balance: real,
                                     current: Date, rows: seq<MonthRow>,
                                     principal: real, interest: real, ending: real, next: Date)
    requires Valid(start) && MonthLoopInv(pl, start, total, month, balance, current, rows)
    requires month <= total && month in Window(total)
    requires Split(principal, interest, ending) == Step(balance, pl.rate, pl.payment)
    requires NextMonth(current) == Some(next)
    ensures ending > 0.0 ==>
      MonthLoopInv(pl, start, total, month + 1, ending, next,
                   rows + [MonthRow(month, current.year, current.month, principal, interest, ending)])
    ensures ending <= 0.0 ==>
      rows + [MonthRow(month, current.year, current.month, principal, interest, ending)]
      == PlanMonthRows(pl, start, Window(total))
  {
    var s := Split(principal, interest, ending);
    if ending > 0.0 {
      ShownMonth(pl, start, total, month, balance, current, rows, s, next);
    } else {
      LastShownMonth(pl, start, total, month, balance, current, rows, s, next);
    }
  }

  /** A label date that cannot be advanced empties the schedule. */
  lemma {:induction false} ShownMonthDateFails(pl: Plan, start: Date, total: int, month: int, balance: real,
                                               current: Date, rows: seq<MonthRow>)
    requires Valid(start) && MonthLoopInv(pl, start, total, month, balance, current, rows)
    requires month <= total && month in Window(total) && NextMonth(current).None?
    ensures PlanMonthRows(pl, start, Window(total)) == []
  {
    var w := Window(total);
    WindowPosition(total, |rows|, month);
    StopIndexSpec(pl, w, |rows|);
    AddMonthsFailureSticks(start, |rows| + 1, StopIndex(pl, w, 0));
  }

  /** Past the last month every window month has been shown. */
  lemma {:induction false} MonthLoopExit(pl: Plan, start: Date, total: int, month: int, balance: real,
                                         current: Date, rows: seq<MonthRow>)
    requires Valid(start) && MonthLoopInv(pl, start, total, month, balance, current, rows)
    requires month > total
    ensures rows == PlanMonthRows(pl, start, Window(total))
  {
  }

  /** The month loop of `generate_monthly_schedule`, on exact reals. */
  method MonthlyRows(loan: real, monthlyRate: real, payment: real, total: int, start: Date)
    returns (rows: seq<MonthRow>)
    requires Valid(start)
    ensures rows == PlanMonthRows(Plan(loan, monthlyRate, payment), start, Window(total))
  {
    ghost var pl := Plan(loan, monthlyRate, payment);
    var monthsToShow := Window(total);

    rows := [];
    var balance := loan;
    var current := start;
    var month := 1;
    MonthLoopEntry(pl, start, total);
    // Stated as an equation, the invariant is checked as one fact, which the lemmas below
    // establish, rather than clause by clause.
    while month <= total
      invariant MonthLoopInv(pl, start, total, month, balance, current, rows) == true
    {
      if month !in monthsToShow {
        var interestPayment := balance * monthlyRate;
        var principalPayment := payment - interestPayment;
        ghost var opening := balance;
        InlineStep(balance, monthlyRate, payment, interestPayment, principalPayment, balance - principalPayment);
        balance := balance - principalPayment;
        if balance < 0.0 {
          balance := 0.0;
        }
        HiddenMonth(pl, start, total, month, opening, current, rows, balance);
        month := month + 1;
        continue;
      }

      var interestPayment := balance * monthlyRate;
      var principalPayment := payment - interestPayment;
      var endingBalance := balance - principalPayment;
      InlineStep(balance, monthlyRate, payment, interestPayment, principalPayment, endingBalance);
      if endingBalance < 0.0 {
        principalPayment := principalPayment + endingBalance;
        endingBalance := 0.0;
      }
      var next := NextMonth(current);
      if next.None? {
        ShownMonthDateFails(pl, start, total, month, balance, current, rows);
        return [];
      }
      EmitMonth(pl, start, total, month, balance, current, rows,
                principalPayment, interestPayment, endingBalance, next.value);
      rows := rows + [MonthRow(month, current.year, current.month, principalPayment, interestPayment, endingBalance)];
      balance := endingBalance;
      current := next.value;
      if balance <= 0.0 {
        return;
      }
      month := month + 1;
    }
    MonthLoopExit(pl, start, total, month, balance, current, rows);
  }

  /**
   * Each row shows one month of the every-month recurrence: its interest is charged on the
   * balance the previous month left, shown or not, and it closes with that month's balance.
   */
  lemma {:induction false} PlanMonthRowValues(pl: Plan, start: Date, w: seq<int>, i: nat)
    requires Valid(start) && PositiveMonths(w) && i < |PlanMonthRows(pl, start, w)|
    ensures var row := PlanMonthRows(pl, start, w)[i];
      row.interest == SteppedBalance(pl, w[i] - 1) * pl.rate
      && row.endingBalance == SteppedBalance(pl, w[i])
      && row.principal == SteppedBalance(pl, w[i] - 1) - SteppedBalance(pl, w[i])
  {
    ExpectedMonthRowsIndex(pl, start, w, StopIndex(pl, w, 0), i);
    ExpectedMonthRowValues(pl, start, w, i);
  }

  lemma {:induction false} ExpectedMonthRowValues(pl: Plan, start: Date, w: seq<int>, i: nat)
    requires PositiveMonths(w) && i < |w|
    ensures var row := ExpectedMonthRow(pl, start, w, i);
      row.interest == SteppedBalance(pl, w[i] - 1) * pl.rate
      && row.endingBalance == SteppedBalance(pl, w[i])
      && row.principal == SteppedBalance(pl, w[i] - 1) - SteppedBalance(pl, w[i])
  {
  }

  /**
   * The loop stops at the first row that pays the loan off: every row but the last leaves
   * a positive balance, and a schedule cut short ends on a zero balance.
   */
  lemma {:induction false} PlanMonthRowsStop(pl: Plan, start: Date, w: seq<int>)
    requires Valid(start) && PositiveMonths(w)
    ensures var rows := PlanMonthRows(pl, start, w);
      (forall i :: 0 <= i < |rows| - 1 ==> rows[i].endingBalance > 0.0)
      && (0 < |rows| < |w| ==> rows[|rows| - 1].endingBalance == 0.0)
  {
    var rows := PlanMonthRows(pl, start, w);
    StopIndexSpec(pl, w, 0);
    forall i | 0 <= i < |rows|
      ensures rows[i].endingBalance == SteppedBalance(pl, w[i])
    {
      PlanMonthRowValues(pl, start, w, i);
    }
    if 0 < |rows| {
      assert SteppedBalance(pl, w[|rows| - 1]) >= 0.0 by {
        assert w[|rows| - 1] >= 1;
      }
    }
  }

  /**
   * The schedule shows at most 24 rows. Row `i` is for a window month, labelled `i`
   * calendar months after the start, and every later row shows a later month.
   */
  lemma {:induction false} MonthlyRowsInWindow(input: LoanInput, i: nat)
    requires Valid(input.startDate) && i < |Schedule(input)|
    ensures var rows := Schedule(input);
      var total := TermMonths(input);
      |rows| <= 24
      && 1 <= rows[i].month <= total && (rows[i].month <= 12 || rows[i].month > total - 12)
      && (forall j :: i < j < |rows| ==> rows[i].month < rows[j].month)
      && rows[i].labelYear == ShiftYear(input.startDate, i)
      && rows[i].labelMonth == ShiftMonth(input.startDate, i)
  {
    var rows := Schedule(input);
    var w := Window(TermMonths(input));
    assert w[i] in w;
    forall j | i < j < |rows|
      ensures rows[i].month < rows[j].month
    {
      WindowIncreasing(TermMonths(input), i, j);
    }
  }

  /**
   * Over a window of increasing months, for a positive loan paid by the annuity payment of
   * its term, the ending balances never rise and stay within the loan.
   */
  lemma {:induction false} PlanBalancesNeverRise(pl: Plan, start: Date, total: int, i: nat, j: nat)
    requires pl.loan > 0.0 && total > 0 && pl.payment == AnnuityPayment(pl.loan, pl.rate, total).value
    requires Valid(start) && i <= j < |PlanMonthRows(pl, start, Window(total))|
    ensures var rows := PlanMonthRows(pl, start, Window(total));
      0.0 <= rows[j].endingBalance <= rows[i].endingBalance <= pl.loan
  {
    var w := Window(total);
    PaymentCoversInterest(pl.loan, pl.rate, total);
    PlanMonthRowValues(pl, start, w, i);
    PlanMonthRowValues(pl, start, w, j);
    if i < j {
      WindowIncreasing(total, i, j);
    }
    SteppedBalanceMonotone(pl, w[i], w[j]);
    SteppedBalanceMonotone(pl, 0, w[i]);
  }

  /**
   * For a positive loan amount the ending balances never rise and stay within the loan,
   * hidden months included: each shown balance is the every-month recurrence's.
   */
  lemma {:induction false} BalancesNeverRise(input: LoanInput, i: nat, j: nat)
    requires Valid(input.startDate) && LoanAmount(input) > 0.0
    requires i <= j < |Schedule(input)|
    ensures 0.0 <= Schedule(input)[j].endingBalance <= Schedule(input)[i].endingBalance <= LoanAmount(input)
  {
    PlanBalancesNeverRise(PlanOf(input), input.startDate, TermMonths(input), i, j);
  }

  /**
   * When the label date cannot be advanced past the start (a start day the next month
   * lacks), the monthly schedule is empty however the loan is paid.
   */
  lemma {:induction false} DateFailureEmpties(input: LoanInput)
    requires Valid(input.startDate) && NextMonth(input.startDate).None?
    ensures Schedule(input) == []
  {
    if Succeeds(input) {
      var w := Window(TermMonths(input));
      var n := StopIndex(PlanOf(input), w, 0);
      if |w| > 0 {
        StopIndexSpec(PlanOf(input), w, 0);
        assert AddMonths(input.startDate, 1).None?;
        AddMonthsFailureSticks(input.startDate, 1, n);
      }
    }
  }

  /** Among two calendar months after a 31st, one has fewer than 31 days. */
  lemma {:induction false} ThirtyFirstFails(d: Date)
    requires Valid(d) && d.day == 31
    ensures AddMonths(d, 2).None?
  {
    assert AddMonths(d, 1) == NextMonth(d);
    if NextMonth(d).Some? {
      var e := NextMonth(d).value;
      assert e.day == 31 && (e.month == 8 || e.month == 1);
      assert NextMonth(e).None?;
    }
  }

  /**
   * A loan that starts on the 31st and still has a balance after its first month gets an
   * empty monthly schedule: the label date reaches a month without a 31st within two rows.
   */
  lemma {:induction false} ThirtyFirstStartEmpties(input: LoanInput)
    requires Valid(input.startDate) && input.startDate.day == 31
    requires LoanAmount(input) > 0.0 && MonthlyRate(input) >= 0.0 && TermMonths(input) > 0
    ensures Schedule(input) == []
  {
    if Succeeds(input) {
      var pl := PlanOf(input);
      var w := Window(TermMonths(input));
      PaymentRetiresLoan(input, 1);
      assert w[0] == 1 && 1 < TermMonths(input);
      StopIndexSpec(pl, w, 0);
      StopIndexSpec(pl, w, 1);
      ThirtyFirstFails(input.startDate);
      AddMonthsFailureSticks(input.startDate, 2, StopIndex(pl, w, 0));
    }
  }

  /**
   * With exact arithmetic, a positive loan and a non-negative rate, every window month is
   * shown (when the labels exist), and only the last row reaches a zero balance.
   */
  lemma {:induction false} MonthlyFullWindow(input: LoanInput)
    requires Valid(input.startDate) && Succeeds(input)
    requires LoanAmount(input) > 0.0 && MonthlyRate(input) >= 0.0 && TermMonths(input) > 0
    requires AddMonths(input.startDate, |Window(TermMonths(input))|).Some?
    ensures var rows := Schedule(input);
      |rows| == |Window(TermMonths(input))|
      && rows[|rows| - 1].month == TermMonths(input)
      && rows[|rows| - 1].endingBalance == 0.0
      && forall i :: 0 <= i < |rows| - 1 ==> rows[i].endingBalance > 0.0
  {
    var pl := PlanOf(input);
    var total := TermMonths(input);
    var w := Window(total);
    assert |w| > 0;
    StopIndexSpec(pl, w, 0);
    if StopIndex(pl, w, 0) < |w| {
      var k := StopIndex(pl, w, 0) - 1;
      PaymentRetiresLoan(input, w[k]);
      assert false;
    }
    PlanMonthRowsStop(pl, input.startDate, w);
    PlanMonthRowValues(pl, input.startDate, w, |w| - 1);
    WindowLast(total);
    PaymentRetiresLoan(input, 0);
  }
}
