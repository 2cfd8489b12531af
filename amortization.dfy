/**
 * The amortization arithmetic shared by the summary and both schedules: the annuity
 * payment, the clamped one-month step, and the two balance recurrences the schedules run.
 * Money is exact `real`; floating-point rounding is not modelled.
 */
module Amortization {
  import opened Wrappers

  /** `x ** n` for a natural exponent. */
  function Pow(x: real, n: nat): (r: real)
    ensures x > 0.0 ==> r > 0.0
    ensures x >= 1.0 ==> r >= 1.0
    ensures x > 1.0 && n > 0 ==> r > 1.0
  {
    if n == 0 then 1.0 else x * Pow(x, n - 1)
  }

  /** Python's float `x ** n` for an integer exponent of either sign (x is positive here). */
  function PowInt(x: real, n: int): (r: real)
    requires x > 0.0
    ensures r > 0.0
    ensures x > 1.0 ==> (r == 1.0 <==> n == 0)
  {
    if n >= 0 then Pow(x, n)
    else
      var p := Pow(x, -n);
      assert x > 1.0 ==> 1.0 / p < 1.0 by {
        if x > 1.0 { assert p > 1.0; }
      }
      1.0 / p
  }

  lemma {:induction false} ScaleUp(x: real, p: real, c: real)
    requires x > 1.0 && p > 0.0 && c == x * p
    ensures c > p
  {
    assert c - p == (x - 1.0) * p;
  }

  lemma {:induction false} PowSuccGreater(x: real, m: nat)
    requires x > 1.0
    ensures Pow(x, m + 1) > Pow(x, m)
  {
    ScaleUp(x, Pow(x, m), Pow(x, m + 1));
  }

  /** A larger exponent gives a strictly larger power of a base above one. */
  lemma {:induction false} PowStrictlyIncreasing(x: real, k: nat, n: nat)
    requires x > 1.0 && k < n
    ensures Pow(x, k) < Pow(x, n)
  {
    PowSuccGreater(x, n - 1);
    if k < n - 1 {
      PowStrictlyIncreasing(x, k, n - 1);
    }
  }

  lemma {:induction false} PowIncreasing(x: real, k: nat, n: nat)
    requires x > 1.0 && k <= n
    ensures Pow(x, k) <= Pow(x, n)
  {
    if k < n {
      PowStrictlyIncreasing(x, k, n);
    }
  }

  /**
   * The monthly principal-and-interest payment: the annuity formula when the monthly rate
   * is positive, the linear fallback `loan / months` otherwise. `None` is the
   * `ZeroDivisionError` a zero-month term raises.
   */
  function AnnuityPayment(loan: real, rate: real, months: int): (p: Option<real>)
    ensures p.None? <==> months == 0
  {
    if rate > 0.0 then
      var q := PowInt(1.0 + rate, months);
      if q - 1.0 == 0.0 then None else Some(loan * (rate * q) / (q - 1.0))
    else if months == 0 then None
    else Some(loan / (months as real))
  }

  lemma {:induction false} DivTimesDivisor(x: real, d: real)
    requires d != 0.0
    ensures x / d * d == x
  {
  }

  lemma {:induction false} ProductSign(a: real, b: real)
    requires a > 0.0 && b >= 0.0
    ensures a * b >= 0.0
    ensures b > 0.0 ==> a * b > 0.0
  {
  }

  /** The sign of `b` is the sign of `b * d` when `d` is positive. */
  lemma {:induction false} SignOfFactor(b: real, d: real, v: real)
    requires d > 0.0 && b * d == v
    ensures v > 0.0 ==> b > 0.0
    ensures v >= 0.0 ==> b >= 0.0
    ensures v == 0.0 ==> b == 0.0
  {
  }

  /** With a non-positive rate the linear payment repays exactly the loan over the term. */
  lemma {:induction false} LinearPaymentRepays(loan: real, rate: real, months: int)
    requires rate <= 0.0 && months != 0
    ensures AnnuityPayment(loan, rate, months).value * (months as real) == loan
  {
    DivTimesDivisor(loan, months as real);
  }

  /**
   * For a positive rate and term the payment `P` is the annuity formula:
   * `P * (Q - 1) == loan * rate * Q` with `Q = (1 + rate)^n > 1`.
   */
  lemma {:induction false} AnnuityPaymentValue(loan: real, rate: real, n: nat)
    requires rate > 0.0 && n >= 1
    ensures Pow(1.0 + rate, n) > 1.0
    ensures AnnuityPays(AnnuityPayment(loan, rate, n).value, loan, rate, Pow(1.0 + rate, n))
  {
    var q := Pow(1.0 + rate, n);
    assert q > 1.0;
    assert PowInt(1.0 + rate, n) == q;
    assert q - 1.0 != 0.0;
    assert AnnuityPayment(loan, rate, n).value == loan * (rate * q) / (q - 1.0);
    DivTimesDivisor(loan * (rate * q), q - 1.0);
  }

  /** The annuity formula pays more than the interest on the whole loan. */
  lemma {:induction false} AnnuityExceedsInterest(loan: real, rate: real, bigQ: real, payment: real)
    requires loan > 0.0 && rate > 0.0 && bigQ > 1.0
    requires AnnuityPays(payment, loan, rate, bigQ)
    ensures payment > loan * rate
  {
    var lr := loan * rate;
    assert lr > 0.0;
    assert (payment - lr) * (bigQ - 1.0) == lr;
    SignOfFactor(payment - lr, bigQ - 1.0, lr);
  }

  /** One month's principal, interest and ending balance. */
  datatype Split = Split(principal: real, interest: real, balance: real)

  /**
   * One month of the recurrence: interest accrues on the balance, the rest of the payment
   * is principal, and an overshoot past zero is taken off the principal.
   */
  function Step(balance: real, rate: real, payment: real): (s: Split)
    ensures s.interest == balance * rate
    ensures s.balance == balance - s.principal
    ensures s.balance >= 0.0
    ensures s.principal <= payment - s.interest
    ensures s.principal == payment - s.interest || s.principal == balance
  {
    var interest := balance * rate;
    var principal := payment - interest;
    var next := balance - principal;
    if next < 0.0 then Split(principal + next, interest, 0.0) else Split(principal, interest, next)
  }

  /** The loops' own arithmetic for one month, with overshoot taken off the principal, is `Step`. */
  lemma {:induction false} InlineStep(b: real, rate: real, payment: real, interest: real, principal: real, next: real)
    requires interest == b * rate && principal == payment - interest && next == b - principal
    ensures next < 0.0 ==> Step(b, rate, payment) == Split(principal + next, interest, 0.0)
    ensures next >= 0.0 ==> Step(b, rate, payment) == Split(principal, interest, next)
  {
  }

  /** The loan amount, the monthly rate and the monthly payment a schedule runs on. */
  datatype Plan = Plan(loan: real, rate: real, payment: real)

  /**
   * The balance after `m` months of the yearly schedule's loop, which skips a month
   * once the balance is no longer positive.
   */
  function GuardedBalance(pl: Plan, m: nat): real {
    if m == 0 then pl.loan
    else
      var b := GuardedBalance(pl, m - 1);
      if b <= 0.0 then b else Step(b, pl.rate, pl.payment).balance
  }

  /** What month `m` (1-based) of the yearly schedule's loop pays: nothing once paid off. */
  function GuardedMonth(pl: Plan, m: nat): (s: Split)
    requires m >= 1
    ensures s.balance == GuardedBalance(pl, m)
    ensures s.balance == GuardedBalance(pl, m - 1) - s.principal
  {
    var b := GuardedBalance(pl, m - 1);
    if b <= 0.0 then Split(0.0, 0.0, b) else Step(b, pl.rate, pl.payment)
  }

  /** A month of the yearly loop that opens paid off pays neither principal nor interest. */
  lemma {:induction false} PaidOffMonthPaysNothing(pl: Plan, m: nat)
    requires m >= 1 && GuardedBalance(pl, m - 1) <= 0.0
    ensures GuardedMonth(pl, m) == Split(0.0, 0.0, GuardedBalance(pl, m - 1))
    ensures GuardedBalance(pl, m) == GuardedBalance(pl, m - 1)
  {
  }

  /** Principal paid in months `from+1 .. to` of the yearly schedule's loop. */
  function PaidPrincipal(pl: Plan, from: nat, to: nat): real
    decreases to
  {
    if to <= from then 0.0 else PaidPrincipal(pl, from, to - 1) + GuardedMonth(pl, to).principal
  }

  /** Interest paid in months `from+1 .. to` of the yearly schedule's loop. */
  function PaidInterest(pl: Plan, from: nat, to: nat): real
    decreases to
  {
    if to <= from then 0.0 else PaidInterest(pl, from, to - 1) + GuardedMonth(pl, to).interest
  }

  /** The balance after `m` months of the monthly schedule's loop, which steps every month. */
  function SteppedBalance(pl: Plan, m: nat): real {
    if m == 0 then pl.loan else Step(SteppedBalance(pl, m - 1), pl.rate, pl.payment).balance
  }

  /** The principal paid over a stretch of months is what the balance fell by. */
  lemma {:induction false} PrincipalTelescopes(pl: Plan, from: nat, to: nat)
    requires from <= to
    ensures PaidPrincipal(pl, from, to) == GuardedBalance(pl, from) - GuardedBalance(pl, to)
  {
    if from < to {
      PrincipalTelescopes(pl, from, to - 1);
      var s := GuardedMonth(pl, to);
    }
  }

  /** Once the yearly loop's balance is not positive it stays put and nothing more is paid. */
  lemma {:induction false} PaidOffStays(pl: Plan, m: nat, m': nat)
    requires m <= m' && GuardedBalance(pl, m) <= 0.0
    ensures GuardedBalance(pl, m') == GuardedBalance(pl, m)
    ensures PaidPrincipal(pl, m, m') == 0.0 && PaidInterest(pl, m, m') == 0.0
  {
    if m < m' {
      PaidOffStays(pl, m, m' - 1);
    }
  }

  /** Sums over consecutive stretches of months add up. */
  lemma {:induction false} PaidSplit(pl: Plan, a: nat, b: nat, c: nat)
    requires a <= b <= c
    ensures PaidPrincipal(pl, a, c) == PaidPrincipal(pl, a, b) + PaidPrincipal(pl, b, c)
    ensures PaidInterest(pl, a, c) == PaidInterest(pl, a, b) + PaidInterest(pl, b, c)
  {
    if b < c {
      PaidSplit(pl, a, b, c - 1);
    }
  }

  /** Starting from a non-negative loan the yearly loop's balance never goes negative. */
  lemma {:induction false} GuardedBalanceNonNegative(pl: Plan, m: nat)
    requires pl.loan >= 0.0
    ensures GuardedBalance(pl, m) >= 0.0
  {
    if m > 0 {
      GuardedBalanceNonNegative(pl, m - 1);
    }
  }

  /** A month that starts with a balance between zero and the loan amount lowers it. */
  lemma {:induction false} StepLowers(pl: Plan, b: real)
    requires pl.payment > 0.0 && pl.payment > pl.loan * pl.rate
    requires 0.0 < b <= pl.loan
    ensures Step(b, pl.rate, pl.payment).balance < b
  {
    if pl.rate >= 0.0 {
      assert b * pl.rate <= pl.loan * pl.rate;
    } else {
      assert b * pl.rate < 0.0;
    }
  }

  /**
   * When the payment is positive and exceeds the interest on the whole loan, every month
   * of the yearly loop lowers the balance, which stays between zero and the loan amount.
   */
  lemma {:induction false} GuardedBalanceDecreases(pl: Plan, m: nat)
    requires pl.loan > 0.0 && pl.payment > 0.0 && pl.payment > pl.loan * pl.rate
    ensures 0.0 <= GuardedBalance(pl, m + 1) <= GuardedBalance(pl, m) <= pl.loan
  {
    if m > 0 {
      GuardedBalanceDecreases(pl, m - 1);
    }
    var b := GuardedBalance(pl, m);
    if b > 0.0 {
      StepLowers(pl, b);
    }
  }

  /** Under the same condition the balance never rises over any stretch of months. */
  lemma {:induction false} GuardedBalanceMonotone(pl: Plan, m: nat, m': nat)
    requires pl.loan > 0.0 && pl.payment > 0.0 && pl.payment > pl.loan * pl.rate
    requires m <= m'
    ensures 0.0 <= GuardedBalance(pl, m') <= GuardedBalance(pl, m) <= pl.loan
  {
    GuardedBalanceDecreases(pl, m);
    if m < m' {
      GuardedBalanceMonotone(pl, m, m' - 1);
      GuardedBalanceDecreases(pl, m' - 1);
    }
  }

  /**
   * The monthly loop's balance obeys the same bounds: a month keeps it between zero and
   * the loan and does not raise it. A zero balance steps to zero, since the payment is positive.
   */
  lemma {:induction false} SteppedBalanceDecreases(pl: Plan, m: nat)
    requires pl.loan > 0.0 && pl.payment > 0.0 && pl.payment > pl.loan * pl.rate
    ensures 0.0 <= SteppedBalance(pl, m + 1) <= SteppedBalance(pl, m) <= pl.loan
  {
    if m > 0 {
      SteppedBalanceDecreases(pl, m - 1);
    }
    var b := SteppedBalance(pl, m);
    if b > 0.0 {
      StepLowers(pl, b);
    }
  }

  /** The monthly loop's balance never rises over any stretch of months. */
  lemma {:induction false} SteppedBalanceMonotone(pl: Plan, m: nat, m': nat)
    requires pl.loan > 0.0 && pl.payment > 0.0 && pl.payment > pl.loan * pl.rate
    requires m <= m'
    ensures 0.0 <= SteppedBalance(pl, m') <= SteppedBalance(pl, m) <= pl.loan
  {
    SteppedBalanceDecreases(pl, m);
    if m < m' {
      SteppedBalanceMonotone(pl, m, m' - 1);
      SteppedBalanceDecreases(pl, m' - 1);
    }
  }

  /** The payment the annuity formula (or its linear fallback) gives meets that condition. */
  lemma {:induction false} PaymentCoversInterest(loan: real, rate: real, months: int)
    requires loan > 0.0 && months > 0
    ensures AnnuityPayment(loan, rate, months).value > 0.0
    ensures AnnuityPayment(loan, rate, months).value > loan * rate
  {
    if rate > 0.0 {
      AnnuityPaymentValue(loan, rate, months);
      AnnuityExceedsInterest(loan, rate, Pow(1.0 + rate, months), AnnuityPayment(loan, rate, months).value);
      assert loan * rate > 0.0;
    } else {
      LinearPaymentRepays(loan, rate, months);
      var p := AnnuityPayment(loan, rate, months).value;
      assert p > 0.0;
      assert loan * rate <= 0.0;
    }
  }

  /** `payment` is the annuity payment `loan * r * Q / (Q - 1)`, stated without division. */
  predicate AnnuityPays(payment: real, loan: real, r: real, bigQ: real) {
    payment * (bigQ - 1.0) == loan * (r * bigQ)
  }

  /** `b` is the annuity balance `loan * (Q - c) / (Q - 1)`, stated without division. */
  predicate OnAnnuityCurve(b: real, loan: real, bigQ: real, c: real) {
    b * (bigQ - 1.0) == loan * (bigQ - c)
  }

  /**
   * One annuity month, in the closed form `B * (Q - 1) == loan * (Q - a)` with `a = q^(k-1)`:
   * the balance is positive and the month leaves `loan * (Q - q * a)` over `Q - 1`.
   */
  lemma {:induction false} AnnuityMonth(loan: real, r: real, q: real, bigQ: real, a: real, c: real, payment: real, b: real)
    requires loan > 0.0 && r > 0.0 && q == 1.0 + r && bigQ > 1.0 && a < bigQ
    requires c == q * a && c <= bigQ
    requires AnnuityPays(payment, loan, r, bigQ)
    requires OnAnnuityCurve(b, loan, bigQ, a)
    ensures b > 0.0
    ensures OnAnnuityCurve(Step(b, r, payment).balance, loan, bigQ, c)
  {
    var d := bigQ - 1.0;
    var next := b * q - payment;
    assert next * d == b * d * q - payment * d;
    assert next * d == loan * (bigQ - q * a);
    ProductSign(loan, bigQ - a);
    ProductSign(loan, bigQ - q * a);
    SignOfFactor(b, d, loan * (bigQ - a));
    SignOfFactor(next, d, loan * (bigQ - q * a));
    assert b - (payment - b * r) == next;
  }

  /**
   * With a positive rate and the annuity payment for `n` months, the balance after
   * `k <= n` months is `loan * (q^n - q^k) / (q^n - 1)` with `q = 1 + rate`, in both
   * schedules' recurrences: no month before the last overshoots.
   */
  lemma {:induction false} AnnuityClosedForm(pl: Plan, n: nat, k: nat)
    requires pl.loan > 0.0 && pl.rate > 0.0 && 1 <= n && k <= n
    requires Pow(1.0 + pl.rate, n) > 1.0 && AnnuityPays(pl.payment, pl.loan, pl.rate, Pow(1.0 + pl.rate, n))
    ensures OnAnnuityCurve(GuardedBalance(pl, k), pl.loan, Pow(1.0 + pl.rate, n), Pow(1.0 + pl.rate, k))
    ensures SteppedBalance(pl, k) == GuardedBalance(pl, k)
  {
    if k > 0 {
      AnnuityClosedForm(pl, n, k - 1);
      AnnuityStep(pl, n, k, GuardedBalance(pl, k - 1));
    }
  }

  /** The induction step of `AnnuityClosedForm`: month `k` moves the balance along the curve. */
  lemma {:induction false} AnnuityStep(pl: Plan, n: nat, k: nat, b: real)
    requires pl.loan > 0.0 && pl.rate > 0.0 && 1 <= k <= n
    requires Pow(1.0 + pl.rate, n) > 1.0 && AnnuityPays(pl.payment, pl.loan, pl.rate, Pow(1.0 + pl.rate, n))
    requires OnAnnuityCurve(b, pl.loan, Pow(1.0 + pl.rate, n), Pow(1.0 + pl.rate, k - 1))
    ensures b > 0.0
    ensures OnAnnuityCurve(Step(b, pl.rate, pl.payment).balance, pl.loan, Pow(1.0 + pl.rate, n), Pow(1.0 + pl.rate, k))
  {
    var q := 1.0 + pl.rate;
    var a := Pow(q, k - 1);
    var c := Pow(q, k);
    PowStrictlyIncreasing(q, k - 1, n);
    PowIncreasing(q, k, n);
    AnnuityMonth(pl.loan, pl.rate, q, Pow(q, n), a, c, pl.payment, b);
  }

  /** Where the annuity curve is zero and where it is positive. */
  lemma {:induction false} CurveSign(b: real, loan: real, bigQ: real, c: real)
    requires loan > 0.0 && bigQ > 1.0 && c <= bigQ
    requires OnAnnuityCurve(b, loan, bigQ, c)
    ensures c == bigQ ==> b == 0.0
    ensures c < bigQ ==> b > 0.0
  {
    ProductSign(loan, bigQ - c);
    SignOfFactor(b, bigQ - 1.0, loan * (bigQ - c));
  }

  /** `b` is the zero-rate balance `loan * (n - j) / n`, stated without division. */
  predicate OnLinearLine(b: real, loan: real, n: real, j: real) {
    b * n == loan * (n - j)
  }

  /** One month of the zero-rate schedule on that line. */
  lemma {:induction false} LinearMonth(loan: real, n: real, j: real, payment: real, b: real)
    requires loan > 0.0 && n > 0.0 && 1.0 <= j <= n
    requires payment * n == loan
    requires OnLinearLine(b, loan, n, j - 1.0)
    ensures b > 0.0
    ensures OnLinearLine(Step(b, 0.0, payment).balance, loan, n, j)
  {
    ProductSign(loan, n - (j - 1.0));
    ProductSign(loan, n - j);
    SignOfFactor(b, n, loan * (n - (j - 1.0)));
    var next := b - payment;
    assert next * n == loan * (n - j);
    SignOfFactor(next, n, loan * (n - j));
    assert b - (payment - b * 0.0) == next;
  }

  /** Where the zero-rate line is zero and where it is positive. */
  lemma {:induction false} LineSign(b: real, loan: real, n: real, j: real)
    requires loan > 0.0 && n > 0.0 && j <= n
    requires OnLinearLine(b, loan, n, j)
    ensures j == n ==> b == 0.0
    ensures j < n ==> b > 0.0
  {
    ProductSign(loan, n - j);
    SignOfFactor(b, n, loan * (n - j));
  }

  /**
   * With a zero rate the linear payment for `n` months leaves `loan * (n - k) / n`
   * after `k <= n` months, in both schedules' recurrences.
   */
  lemma {:induction false} LinearClosedForm(pl: Plan, n: nat, k: nat)
    requires pl.loan > 0.0 && pl.rate == 0.0 && 1 <= n && k <= n
    requires pl.payment * (n as real) == pl.loan
    ensures OnLinearLine(GuardedBalance(pl, k), pl.loan, n as real, k as real)
    ensures SteppedBalance(pl, k) == GuardedBalance(pl, k)
  {
    if k > 0 {
      LinearClosedForm(pl, n, k - 1);
      LinearStep(pl, n, k, GuardedBalance(pl, k - 1));
    }
  }

  /** The induction step of `LinearClosedForm`: month `k` moves the balance along the line. */
  lemma {:induction false} LinearStep(pl: Plan, n: nat, k: nat, b: real)
    requires pl.loan > 0.0 && pl.rate == 0.0 && 1 <= k <= n
    requires pl.payment * (n as real) == pl.loan
    requires OnLinearLine(b, pl.loan, n as real, (k - 1) as real)
    ensures b > 0.0
    ensures OnLinearLine(Step(b, pl.rate, pl.payment).balance, pl.loan, n as real, k as real)
  {
    assert (k - 1) as real == k as real - 1.0;
    LinearMonth(pl.loan, n as real, k as real, pl.payment, b);
  }

  /**
   * With exact arithmetic and a non-negative rate, the payment the formula gives for `n`
   * months keeps the balance positive for `n - 1` months and brings it to exactly zero
   * in month `n`, in both schedules' recurrences.
   */
  lemma {:induction false} PaidOffAtTerm(pl: Plan, n: nat, k: nat)
    requires pl.loan > 0.0 && pl.rate >= 0.0 && 1 <= n && k <= n
    requires AnnuityPayment(pl.loan, pl.rate, n) == Some(pl.payment)
    ensures GuardedBalance(pl, n) == 0.0 && SteppedBalance(pl, n) == 0.0
    ensures k < n ==> GuardedBalance(pl, k) > 0.0 && SteppedBalance(pl, k) > 0.0
  {
    if pl.rate > 0.0 {
      AnnuityPaymentValue(pl.loan, pl.rate, n);
      AnnuityPaidOff(pl, n, k);
    } else {
      LinearPaymentRepays(pl.loan, pl.rate, n);
      LinearPaidOff(pl, n, k);
    }
  }

  lemma {:induction false} AnnuityPaidOff(pl: Plan, n: nat, k: nat)
    requires pl.loan > 0.0 && pl.rate > 0.0 && 1 <= n && k <= n
    requires Pow(1.0 + pl.rate, n) > 1.0 && AnnuityPays(pl.payment, pl.loan, pl.rate, Pow(1.0 + pl.rate, n))
    ensures GuardedBalance(pl, n) == 0.0 && SteppedBalance(pl, n) == 0.0
    ensures k < n ==> GuardedBalance(pl, k) > 0.0 && SteppedBalance(pl, k) > 0.0
  {
    var q := 1.0 + pl.rate;
    AnnuityClosedForm(pl, n, n);
    AnnuityClosedForm(pl, n, k);
    PowIncreasing(q, k, n);
    CurveSign(GuardedBalance(pl, n), pl.loan, Pow(q, n), Pow(q, n));
    if k < n {
      PowStrictlyIncreasing(q, k, n);
    }
    CurveSign(GuardedBalance(pl, k), pl.loan, Pow(q, n), Pow(q, k));
  }

  lemma {:induction false} LinearPaidOff(pl: Plan, n: nat, k: nat)
    requires pl.loan > 0.0 && pl.rate == 0.0 && 1 <= n && k <= n
    requires pl.payment * (n as real) == pl.loan
    ensures GuardedBalance(pl, n) == 0.0 && SteppedBalance(pl, n) == 0.0
    ensures k < n ==> GuardedBalance(pl, k) > 0.0 && SteppedBalance(pl, k) > 0.0
  {
    LinearClosedForm(pl, n, n);
    LinearClosedForm(pl, n, k);
    LineSign(GuardedBalance(pl, n), pl.loan, n as real, n as real);
    LineSign(GuardedBalance(pl, k), pl.loan, n as real, k as real);
  }
}
