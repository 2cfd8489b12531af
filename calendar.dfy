/**
 * Proleptic-Gregorian calendar dates, as Python's `datetime.date` sees them.
 * `Replace` is `date.replace`: it yields `None` where Python raises `ValueError`
 * (a year outside 1..9999, or a day the target month does not have).
 */
module Calendar {
  import opened Wrappers

  datatype Date = Date(year: int, month: int, day: int)

  const MinYear: int := 1
  const MaxYear: int := 9999

  predicate IsLeapYear(y: int) {
    y % 4 == 0 && (y % 100 != 0 || y % 400 == 0)
  }

  function DaysInMonth(y: int, m: int): (n: int)
    requires 1 <= m <= 12
    ensures 28 <= n <= 31
    ensures m == 2 ==> (n == 29 <==> IsLeapYear(y))
    ensures m != 2 ==> n >= 30
  {
    if m == 2 then (if IsLeapYear(y) then 29 else 28)
    else if m == 4 || m == 6 || m == 9 || m == 11 then 30
    else 31
  }

  /** February 29, the one day that exists only in leap years. */
  predicate IsLeapDay(d: Date) {
    d.month == 2 && d.day == 29
  }

  /** The dates `datetime.date` can represent. */
  predicate Valid(d: Date) {
    MinYear <= d.year <= MaxYear && 1 <= d.month <= 12 && 1 <= d.day <= DaysInMonth(d.year, d.month)
  }

  /** `date.replace(year, month, day)`: the new date, or `None` for a `ValueError`. */
  function Replace(year: int, month: int, day: int): (r: Option<Date>)
    ensures r.Some? <==> Valid(Date(year, month, day))
    ensures r.Some? ==> r.value == Date(year, month, day)
  {
    var d := Date(year, month, day);
    if Valid(d) then Some(d) else None
  }

  /** One calendar month later with the day kept: December rolls over to January of the next year. */
  function NextMonth(d: Date): (r: Option<Date>)
    requires 1 <= d.month <= 12
    ensures r.Some? ==> Valid(r.value) && r.value.day == d.day
    ensures r.Some? && d.month == 12 ==> r.value.year == d.year + 1 && r.value.month == 1
    ensures r.Some? && d.month < 12 ==> r.value.year == d.year && r.value.month == d.month + 1
  {
    if d.month == 12 then Replace(d.year + 1, 1, d.day) else Replace(d.year, d.month + 1, d.day)
  }

  /** The date `k` steps of `NextMonth` after `d`, or `None` when some step fails. */
  function AddMonths(d: Date, k: nat): (r: Option<Date>)
    requires Valid(d)
    ensures r.Some? ==> Valid(r.value) && r.value.day == d.day
  {
    if k == 0 then Some(d)
    else match AddMonths(d, k - 1)
      case None => None
      case Some(e) => NextMonth(e)
  }

  /** Calendar arithmetic: the year and month that lie `k` months after `d`. */
  function ShiftYear(d: Date, k: int): int {
    d.year + (d.month - 1 + k) / 12
  }

  function ShiftMonth(d: Date, k: int): int {
    (d.month - 1 + k) % 12 + 1
  }

  function Shifted(d: Date, k: int): Date {
    Date(ShiftYear(d, k), ShiftMonth(d, k), d.day)
  }

  lemma {:induction false} ShiftedNext(d: Date, k: nat)
    requires 1 <= d.month <= 12
    ensures 1 <= ShiftMonth(d, k) <= 12
    ensures ShiftMonth(d, k) == 12 ==> ShiftYear(d, k + 1) == ShiftYear(d, k) + 1 && ShiftMonth(d, k + 1) == 1
    ensures ShiftMonth(d, k) < 12 ==> ShiftYear(d, k + 1) == ShiftYear(d, k) && ShiftMonth(d, k + 1) == ShiftMonth(d, k) + 1
  {
    var t := d.month - 1 + k;
    assert t + 1 == 12 * (t / 12) + t % 12 + 1;
    if t % 12 == 11 {
      assert t + 1 == 12 * (t / 12 + 1) + 0;
    } else {
      assert t + 1 == 12 * (t / 12) + (t % 12 + 1);
    }
  }

  /** Stepping month by month lands on the arithmetic shift. */
  lemma {:induction false} AddMonthsShifted(d: Date, k: nat)
    requires Valid(d)
    ensures AddMonths(d, k).Some? ==> AddMonths(d, k).value == Shifted(d, k)
  {
    if k == 0 {
      assert Shifted(d, 0) == d by { assert (d.month - 1) / 12 == 0; }
    } else {
      AddMonthsShifted(d, k - 1);
      match AddMonths(d, k - 1)
      case Some(e) =>
        NextMonthShifted(d, k - 1, e);
      case None =>
    }
  }

  /** One `NextMonth` step from the shift by `j` months lands on the shift by `j + 1`. */
  lemma {:induction false} NextMonthShifted(d: Date, j: nat, e: Date)
    requires Valid(d) && Valid(e) && e == Shifted(d, j)
    ensures NextMonth(e) == if Valid(Shifted(d, j + 1)) then Some(Shifted(d, j + 1)) else None
  {
    ShiftedNext(d, j);
  }

  /** Once a month step has failed, every later step fails too. */
  lemma {:induction false} AddMonthsFailureSticks(d: Date, k: nat, k': nat)
    requires Valid(d) && k <= k'
    requires AddMonths(d, k).None?
    ensures AddMonths(d, k').None?
  {
    if k < k' {
      AddMonthsFailureSticks(d, k, k' - 1);
    }
  }

  /** Any other day of the year exists in every representable year. */
  lemma {:induction false} SameDayEveryYear(d: Date, y: int)
    requires Valid(d) && !IsLeapDay(d) && MinYear <= y <= MaxYear
    ensures Valid(Date(y, d.month, d.day))
  {
  }

  /** No two consecutive years are both leap years. */
  lemma {:induction false} LeapYearsApart(y: int)
    ensures !(IsLeapYear(y) && IsLeapYear(y + 1))
  {
    if y % 4 == 0 {
      assert (y + 1) % 4 == 1;
    }
  }
}
