/**
 * The loan summary of `calculate_mortgage`: override resolution, the principal-and-interest
 * payment, the monthly add-ons and totals, and the payoff date. A Python exception inside
 * the calculation (division by a zero-month term, an invalid payoff date) is `None`.
 */
module Summary {
  import opened Wrappers
  import opened Calendar
  import opened Amortization

  /** The calculator's inputs; the start date is a real calendar date. */
  datatype LoanInput = LoanInput(
    homeValue: real,
    downPayment: real,
    interestRate: real,        // annual, in percent
    loanTermYears: int,
    startDate: Date,
    propertyTax: real,         // annual
    pmiRate: real,             // annual, in percent of the loan
    homeInsurance: real,       // annual
    hoaFee: real,              // monthly
    overrideRate: Option<real>,
    overrideTerm: Option<int>)

  /** The figures `calculate_mortgage` reports; the payoff date is shown as month and year only. */
  datatype MortgageSummary = MortgageSummary(
    loanAmount: real,
    monthlyPaymentPI: real,
    totalMonthlyPayment: real,
    totalInterestPaid: real,
    payoffYear: int,
    payoffMonth: int,
    annualPayment: real,
    totalPayments: real,
    propertyTaxMonthly: real,
    pmiMonthly: real,
    homeInsuranceMonthly: real,
    hoaFeeMonthly: real)

  /** The term in years: a present, positive override replaces the base term. */
  function EffectiveTerm(input: LoanInput): (years: int)
    ensures input.overrideTerm.Some? && input.overrideTerm.value > 0 ==> years == input.overrideTerm.value
    ensures input.overrideTerm.None? || input.overrideTerm.value <= 0 ==> years == input.loanTermYears
  {
    match input.overrideTerm
    case Some(t) => if t > 0 then t else input.loanTermYears
    case None => input.loanTermYears
  }

  /** The annual rate as a fraction: a present, positive override replaces the base rate. */
  function EffectiveRate(input: LoanInput): (rate: real)
    ensures input.overrideRate.Some? && input.overrideRate.value > 0.0 ==> rate == input.overrideRate.value / 100.0
    ensures input.overrideRate.None? || input.overrideRate.value <= 0.0 ==> rate == input.interestRate / 100.0
  {
    match input.overrideRate
    case Some(r) => if r > 0.0 then r / 100.0 else input.interestRate / 100.0
    case None => input.interestRate / 100.0
  }

  function LoanAmount(input: LoanInput): real {
    input.homeValue - input.downPayment
  }

  function MonthlyRate(input: LoanInput): real {
    EffectiveRate(input) / 12.0
  }

  function TermMonths(input: LoanInput): int {
    EffectiveTerm(input) * 12
  }

  /** The principal-and-interest payment all three operations compute. */
  function PaymentPI(input: LoanInput): Option<real> {
    AnnuityPayment(LoanAmount(input), MonthlyRate(input), TermMonths(input))
  }

  /**
   * The payoff date: the start date moved `years` years on. A February-29 start first
   * needs the target year to have that day (else `None`), and is then moved to the 28th.
   */
  function PayoffDate(start: Date, years: int): (r: Option<Date>)
    requires Valid(start)
    ensures r.Some? <==> MinYear <= start.year + years <= MaxYear
                         && (IsLeapDay(start) ==> IsLeapYear(start.year + years))
    ensures r.Some? ==> r.value.year == start.year + years && r.value.month == start.month
    ensures r.Some? ==> r.value.day == if IsLeapDay(start) then 28 else start.day
  {
    match Replace(start.year + years, start.month, start.day)
    case None => None
    case Some(d) =>
      if IsLeapDay(start) then
        match Replace(d.year, d.month, 28)
        case Some(e) => Some(e)
        case None => Some(d)
      else Some(d)
  }

  /** What the borrower pays each month: principal and interest plus the four add-ons. */
  function MonthlyOutlay(pi: real, tax: real, pmi: real, insurance: real, hoa: real): real {
    pi + tax + pmi + insurance + hoa
  }

  /** A monthly amount summed over a term of `months` months. */
  function OverTerm(monthly: real, months: int): real {
    monthly * (months as real)
  }

  /** Two monthly amounts over a term are the two amounts' terms added. */
  lemma {:induction false} OverTermAdds(a: real, b: real, months: int)
    ensures OverTerm(a + b, months) == OverTerm(a, months) + OverTerm(b, months)
  {
    var n := months as real;
    assert (a + b) * n == a * n + b * n;
  }

  /** The calculation raises nothing: the term has months and the payoff date exists. */
  predicate Succeeds(input: LoanInput)
    requires Valid(input.startDate)
  {
    TermMonths(input) != 0 && PayoffDate(input.startDate, EffectiveTerm(input)).Some?
  }

  /**
   * `calculate_mortgage`: the loan summary, or `None` when the calculation raises.
   */
  function CalculateMortgage(input: LoanInput): (r: Option<MortgageSummary>)
    requires Valid(input.startDate)
    ensures r.Some? <==> Succeeds(input)
    ensures r.Some? ==> r.value.loanAmount == input.homeValue - input.downPayment
    ensures r.Some? ==> Some(r.value.monthlyPaymentPI) == PaymentPI(input)
    ensures r.Some? ==> r.value.totalMonthlyPayment == r.value.monthlyPaymentPI + r.value.propertyTaxMonthly
                          + r.value.pmiMonthly + r.value.homeInsuranceMonthly + r.value.hoaFeeMonthly
    ensures r.Some? ==> r.value.pmiMonthly == if r.value.loanAmount > 0.0
                          then r.value.loanAmount * (input.pmiRate / 100.0) / 12.0 else 0.0
    ensures r.Some? ==> r.value.propertyTaxMonthly == if input.propertyTax > 0.0 then input.propertyTax / 12.0 else 0.0
    ensures r.Some? ==> r.value.homeInsuranceMonthly == if input.homeInsurance > 0.0 then input.homeInsurance / 12.0 else 0.0
    ensures r.Some? ==> r.value.hoaFeeMonthly == input.hoaFee
    ensures r.Some? ==> r.value.payoffYear == input.startDate.year + EffectiveTerm(input)
                          && r.value.payoffMonth == input.startDate.month
    ensures r.Some? ==> r.value.annualPayment == r.value.totalMonthlyPayment * 12.0
    ensures r.Some? ==> r.value.totalPayments == OverTerm(r.value.totalMonthlyPayment, TermMonths(input))
    ensures r.Some? ==> r.value.totalInterestPaid == OverTerm(r.value.monthlyPaymentPI, TermMonths(input)) - r.value.loanAmount
  {
    var years := EffectiveTerm(input);
    var months := years * 12;
    var loan := input.homeValue - input.downPayment;
    var rate := EffectiveRate(input) / 12.0;
    match AnnuityPayment(loan, rate, months)
    case None => None
    case Some(pi) =>
      var pmi := if loan > 0.0 then loan * (input.pmiRate / 100.0) / 12.0 else 0.0;
      var tax := if input.propertyTax > 0.0 then input.propertyTax / 12.0 else 0.0;
      var insurance := if input.homeInsurance > 0.0 then input.homeInsurance / 12.0 else 0.0;
      var total := MonthlyOutlay(pi, tax, pmi, insurance, input.hoaFee);
      match PayoffDate(input.startDate, years)
      case None => None
      case Some(payoff) =>
        Some(MortgageSummary(
          loan, pi, total, OverTerm(pi, months) - loan, payoff.year, payoff.month,
          total * 12.0, OverTerm(total, months), tax, pmi, insurance, input.hoaFee))
  }

  /** What the borrower pays over the term is the loan, the interest and the add-ons. */
  lemma {:induction false} TotalsAddUp(input: LoanInput)
    requires Valid(input.startDate) && CalculateMortgage(input).Some?
    ensures var r := CalculateMortgage(input).value;
      r.totalPayments == r.loanAmount + r.totalInterestPaid
      + OverTerm(r.propertyTaxMonthly + r.pmiMonthly + r.homeInsuranceMonthly + r.hoaFeeMonthly, TermMonths(input))
  {
    var r := CalculateMortgage(input).value;
    OverTermAdds(r.monthlyPaymentPI, r.propertyTaxMonthly + r.pmiMonthly + r.homeInsuranceMonthly + r.hoaFeeMonthly,
                 TermMonths(input));
  }

  /**
   * The calculation fails exactly for a zero-year term, a payoff year outside 1..9999,
   * or a February-29 start whose payoff year is not a leap year.
   */
  lemma {:induction false} SummaryFailsExactly(input: LoanInput)
    requires Valid(input.startDate)
    ensures CalculateMortgage(input).None? <==>
      var target := input.startDate.year + EffectiveTerm(input);
      EffectiveTerm(input) == 0 || target < MinYear || target > MaxYear
      || (IsLeapDay(input.startDate) && !IsLeapYear(target))
  {
  }

  /**
   * A February-29 start with a one-year term fails: the following year is never a leap year.
   */
  lemma {:induction false} LeapDayOneYearFails(input: LoanInput)
    requires Valid(input.startDate) && IsLeapDay(input.startDate) && EffectiveTerm(input) == 1
    ensures CalculateMortgage(input) == None
  {
    LeapYearsApart(input.startDate.year);
  }

  /** A loan at a zero (or negative) rate is repaid without interest. */
  lemma {:induction false} NoRateNoInterest(input: LoanInput)
    requires Valid(input.startDate) && CalculateMortgage(input).Some? && MonthlyRate(input) <= 0.0
    ensures CalculateMortgage(input).value.totalInterestPaid == 0.0
  {
    LinearPaymentRepays(LoanAmount(input), MonthlyRate(input), TermMonths(input));
  }

  /** The add-ons are never negative when the annual figures are not. */
  lemma {:induction false} AddOnsNonNegative(input: LoanInput)
    requires Valid(input.startDate) && CalculateMortgage(input).Some? && input.pmiRate >= 0.0
    ensures var s := CalculateMortgage(input).value;
      s.pmiMonthly >= 0.0 && s.propertyTaxMonthly >= 0.0 && s.homeInsuranceMonthly >= 0.0
  {
    var s := CalculateMortgage(input).value;
    if s.loanAmount > 0.0 {
      ProductSign(s.loanAmount, input.pmiRate / 100.0);
    }
  }

  /** The schedules' recurrence for this input, with the summary's payment. */
  function PlanOf(input: LoanInput): Plan
    requires TermMonths(input) != 0
  {
    Plan(LoanAmount(input), MonthlyRate(input), PaymentPI(input).value)
  }

  /**
   * With exact arithmetic, a positive loan and a non-negative rate, the reported payment
   * brings the balance to exactly zero after the term's months, and not before.
   */
  lemma {:induction false} PaymentRetiresLoan(input: LoanInput, k: nat)
    requires Valid(input.startDate) && Succeeds(input)
    requires LoanAmount(input) > 0.0 && MonthlyRate(input) >= 0.0 && TermMonths(input) > 0
    requires k <= TermMonths(input)
    ensures GuardedBalance(PlanOf(input), TermMonths(input)) == 0.0
    ensures SteppedBalance(PlanOf(input), TermMonths(input)) == 0.0
    ensures k < TermMonths(input) ==> GuardedBalance(PlanOf(input), k) > 0.0 && SteppedBalance(PlanOf(input), k) > 0.0
  {
    PaidOffAtTerm(PlanOf(input), TermMonths(input), k);
  }
}
