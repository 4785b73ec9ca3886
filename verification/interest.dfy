/** Interest on a principal between two dates (`JurosService`): simple,
    compound and pro rata die, with the rate given in percent per month. */
module Interest {
  import opened Decimal
  import opened Calendar

  /** `TipoJuros` */
  datatype InterestKind = Simple | Compound

  /** `PeriodicidadeJuros`: the unit in which periods are counted. */
  datatype Periodicity = Daily | Monthly | Annual

  /** Decimal places of intermediate rates, and significant digits of the
      compound growth factor. */
  const Precision: nat := 10
  const DaysPerMonth: real := 30.0
  const MonthsPerYear: real := 12.0

  /** Number of whole periods from `from` to `to` (`calcularPeriodos`). */
  function Periods(from: Date, to: Date, p: Periodicity): int {
    match p
    case Daily => DaysBetween(from, to)
    case Monthly => MonthsBetween(from, to)
    case Annual => YearsBetween(from, to)
  }

  /** A percentage as a fraction with ten decimals (`divide(CEM, 10, HALF_UP)`). */
  function Fraction(percent: real): real {
    RoundHalfUp(percent / 100.0, Precision)
  }

  /** The monthly rate converted to the periodicity (`ajustarTaxaParaPeriodicidade`). */
  function AdjustRate(monthly: real, p: Periodicity): (r: real)
    ensures p == Monthly ==> r == monthly
    ensures p == Annual ==> r == MonthsPerYear * monthly
    ensures p == Daily ==>
      && HasScale(r, Precision)
      && monthly / DaysPerMonth - 0.5 / Scale(Precision) <= r <= monthly / DaysPerMonth + 0.5 / Scale(Precision)
    ensures monthly >= 0.0 ==> r >= 0.0
  {
    match p
    case Daily =>
      RoundHalfUpFacts(monthly / DaysPerMonth, Precision);
      RoundHalfUp(monthly / DaysPerMonth, Precision)
    case Monthly => monthly
    case Annual => monthly * MonthsPerYear
  }

  /** The rate per period for a monthly percentage. */
  function PeriodRate(ratePercent: real, p: Periodicity): (i: real)
    ensures ratePercent >= 0.0 ==> i >= 0.0
  {
    AdjustRate(Fraction(ratePercent), p)
  }

  /** J = P × i × t rounded to cents: the formula shared by simple interest
      and pro rata die. */
  function SimpleFormula(principal: real, i: real, n: int): (r: real)
  {
    RoundHalfUp(principal * i * (n as real), 2)
  }

  /** J = P × ((1 + i)^n rounded to ten significant digits) − P, rounded to
      cents; nothing when there is no whole period. */
  function CompoundFormula(principal: real, i: real, n: int): (r: real)
    ensures n <= 0 ==> r == 0.0
  {
    if n <= 0 then 0.0
    else RoundHalfUp(principal * GrowthFactor(i, n) - principal, 2)
  }

  /** (1 + i)^n to ten significant digits (`pow(n, MathContext(10, HALF_UP))`). */
  function GrowthFactor(i: real, n: nat): real {
    RoundSignificant(Pow(1.0 + i, n), Precision)
  }

  /** `calcularJurosSimples` */
  function SimpleInterest(principal: real, ratePercent: real, from: Date, to: Date, p: Periodicity): (r: real)
    ensures HasScale(r, 2)
    ensures var exact := principal * PeriodRate(ratePercent, p) * (Periods(from, to, p) as real);
      exact - 0.005 <= r <= exact + 0.005
    ensures Periods(from, to, p) == 0 ==> r == 0.0
    ensures principal >= 0.0 && ratePercent >= 0.0 && Periods(from, to, p) >= 0 ==> r >= 0.0
  {
    SimpleFormulaFacts(principal, PeriodRate(ratePercent, p), Periods(from, to, p));
    SimpleFormula(principal, PeriodRate(ratePercent, p), Periods(from, to, p))
  }

  /** J = P × i × t to cents: two decimals, within half a cent of the exact
      product, nothing for no period, never negative for non-negative inputs. */
  lemma SimpleFormulaFacts(principal: real, i: real, n: int)
    ensures HasScale(SimpleFormula(principal, i, n), 2)
    ensures principal * i * (n as real) - 0.005 <= SimpleFormula(principal, i, n) <= principal * i * (n as real) + 0.005
    ensures n == 0 ==> SimpleFormula(principal, i, n) == 0.0
    ensures principal >= 0.0 && i >= 0.0 && n >= 0 ==> SimpleFormula(principal, i, n) >= 0.0
  {
    RoundHalfUpFacts(principal * i * (n as real), 2);
    assert Scale(2) == 100.0;
    if principal >= 0.0 && i >= 0.0 && n >= 0 {
      SimpleFormulaNonNegative(principal, i, n);
    }
    if n == 0 {
      assert principal * i * (n as real) == 0.0;
      RoundExact(0.0, 2);
    }
  }

  /** `calcularJurosCompostos` */
  function CompoundInterest(principal: real, ratePercent: real, from: Date, to: Date, p: Periodicity): (r: real)
    ensures Periods(from, to, p) <= 0 ==> r == 0.0
  {
    CompoundFormula(principal, PeriodRate(ratePercent, p), Periods(from, to, p))
  }

  /** `JurosService.calcular`: no interest on a non-positive principal or
      rate, otherwise the kind selects the formula. */
  function Calculate(principal: real, ratePercent: real, kind: InterestKind,
                     from: Date, to: Date, p: Periodicity): (r: real)
    ensures principal <= 0.0 || ratePercent <= 0.0 ==> r == 0.0
    ensures principal > 0.0 && ratePercent > 0.0 && kind == Simple ==>
      r == SimpleInterest(principal, ratePercent, from, to, p)
    ensures principal > 0.0 && ratePercent > 0.0 && kind == Compound ==>
      r == CompoundInterest(principal, ratePercent, from, to, p)
  {
    if principal <= 0.0 || ratePercent <= 0.0 then 0.0
    else if kind == Simple then SimpleInterest(principal, ratePercent, from, to, p)
    else CompoundInterest(principal, ratePercent, from, to, p)
  }

  /** Interest for a number of days at a monthly rate, the daily rate being
      the monthly fraction divided by 30 and kept to ten decimals
      (`calcularProRataDie`). */
  function ProRataDie(principal: real, monthlyPercent: real, days: int): (r: real)
    ensures principal <= 0.0 || monthlyPercent <= 0.0 ==> r == 0.0
  {
    if principal <= 0.0 || monthlyPercent <= 0.0 then 0.0
    else SimpleFormula(principal, PeriodRate(monthlyPercent, Daily), days)
  }

  /** The same interest with the daily rate kept exact (the monthly fraction
      divided by 30, not rounded), so that thirty days give exactly one
      month's interest. */
  function ProRataDieExact(principal: real, monthlyPercent: real, days: int): (r: real)
    ensures principal <= 0.0 || monthlyPercent <= 0.0 ==> r == 0.0
  {
    if principal <= 0.0 || monthlyPercent <= 0.0 then 0.0
    else SimpleFormula(principal, Fraction(monthlyPercent) / DaysPerMonth, days)
  }

  lemma SimpleFormulaNonNegative(principal: real, i: real, n: int)
    requires principal >= 0.0 && i >= 0.0 && n >= 0
    ensures SimpleFormula(principal, i, n) >= 0.0
  {
    var a := principal * i;
    assert a >= 0.0;
    assert a * (n as real) >= 0.0;
  }

  lemma SimpleFormulaMonotone(principal: real, i: real, n1: int, n2: int)
    requires principal >= 0.0 && i >= 0.0 && n1 <= n2
    ensures SimpleFormula(principal, i, n1) <= SimpleFormula(principal, i, n2)
  {
    var a := principal * i;
    assert a >= 0.0;
    assert a * (n1 as real) <= a * (n2 as real);
    RoundMonotone(principal * i * (n1 as real), principal * i * (n2 as real), 2);
  }

  lemma SimpleFormulaUnfold(principal: real, i: real, n: int)
    ensures SimpleFormula(principal, i, n) == RoundHalfUp(principal * i * (n as real), 2)
  {
  }

  lemma RoundSameValue(x: real, y: real, k: int)
    requires x == y
    ensures RoundHalfUp(x, k) == RoundHalfUp(y, k)
  {
  }

  /** Thirty days at an exact thirtieth of a rate are one period at the rate. */
  lemma ThirtyDaysExact(principal: real, f: real)
    ensures SimpleFormula(principal, f / DaysPerMonth, 30) == SimpleFormula(principal, f, 1)
  {
    var thirty, one := 30, 1;
    var d := f / DaysPerMonth;
    SimpleFormulaUnfold(principal, d, thirty);
    SimpleFormulaUnfold(principal, f, one);
    assert principal * d * (thirty as real) == principal * f * (one as real);
    RoundSameValue(principal * d * (thirty as real), principal * f * (one as real), 2);
  }

  /** Monthly simple interest charges one monthly rate per whole calendar
      month elapsed: the month difference, less one when the end day-of-month
      falls before the start day-of-month. */
  lemma SimpleMonthlyCountsWholeMonths(principal: real, ratePercent: real, from: Date, to: Date)
    requires !IsBefore(to, from)
    ensures SimpleInterest(principal, ratePercent, from, to, Monthly) ==
      SimpleFormula(principal, Fraction(ratePercent),
        CompetenceOf(to) - CompetenceOf(from) - (if to.day < from.day then 1 else 0))
  {
    MonthsBetweenCountsWholeMonths(from, to);
  }

  /** Simple interest is never negative once the end date is not before the
      start, and it never decreases as more periods elapse. */
  lemma SimpleInterestGrowsWithTime(principal: real, ratePercent: real, from: Date, to1: Date, to2: Date, p: Periodicity)
    requires principal >= 0.0 && ratePercent >= 0.0
    requires 0 <= Periods(from, to1, p) <= Periods(from, to2, p)
    ensures 0.0 <= SimpleInterest(principal, ratePercent, from, to1, p)
    ensures SimpleInterest(principal, ratePercent, from, to1, p) <= SimpleInterest(principal, ratePercent, from, to2, p)
  {
    var i := PeriodRate(ratePercent, p);
    SimpleFormulaNonNegative(principal, i, Periods(from, to1, p));
    SimpleFormulaMonotone(principal, i, Periods(from, to1, p), Periods(from, to2, p));
  }

  /** Pro rata die over the days between two dates is the daily simple
      interest between them. */
  lemma ProRataDieIsDailySimpleInterest(principal: real, monthlyPercent: real, from: Date, to: Date)
    ensures ProRataDie(principal, monthlyPercent, DaysBetween(from, to)) ==
      Calculate(principal, monthlyPercent, Simple, from, to, Daily)
  {
  }

  /** Counted forward, DAYS is the epoch-day difference, MONTHS the whole
      calendar months elapsed and YEARS the whole twelve-month blocks among
      them. */
  lemma PeriodsCountWholeUnits(from: Date, to: Date)
    requires !IsBefore(to, from)
    ensures Periods(from, to, Daily) == EpochDay(to) - EpochDay(from)
    ensures var m := CompetenceOf(to) - CompetenceOf(from) - (if to.day < from.day then 1 else 0);
      m >= 0 && Periods(from, to, Monthly) == m && Periods(from, to, Annual) == m / 12
  {
    MonthsBetweenCountsWholeMonths(from, to);
  }

  /** Swapping the dates negates the period count in every unit. */
  lemma PeriodsAntisymmetric(from: Date, to: Date, p: Periodicity)
    ensures Periods(to, from, p) == -Periods(from, to, p)
  {
    MonthsBetweenAntisymmetric(from, to);
  }

  /** (1 + i)^n >= 1 + n·i for a non-negative rate (Bernoulli): the exact
      compound growth factor never falls below the simple one. */
  lemma {:induction false} CompoundGrowthAtLeastSimple(i: real, n: nat)
    requires i >= 0.0
    ensures Pow(1.0 + i, n) >= 1.0 + (n as real) * i
  {
    if n > 0 {
      CompoundGrowthAtLeastSimple(i, n - 1);
      var g := Pow(1.0 + i, n - 1);
      var b := 1.0 + ((n - 1) as real) * i;
      assert Pow(1.0 + i, n) == (1.0 + i) * g;
      MulMonotone(b, g, 1.0 + i);
      assert (1.0 + i) * g >= (1.0 + i) * b;
      assert (1.0 + i) * (1.0 + ((n - 1) as real) * i) == 1.0 + (n as real) * i + ((n - 1) as real) * i * i;
      assert ((n - 1) as real) * i * i >= 0.0;
    }
  }

  /** With a non-negative rate the ten-digit growth factor is at least 1:
      the exact power is (Bernoulli), and rounding to significant digits
      does not take a value of at least 1 below 1. */
  lemma GrowthFactorAtLeastOne(i: real, n: nat)
    requires i >= 0.0
    ensures GrowthFactor(i, n) >= 1.0
  {
    CompoundGrowthAtLeastSimple(i, n);
    assert (n as real) * i >= 0.0;
    RoundSignificantAtLeastOne(Pow(1.0 + i, n), Precision);
  }

  /** Compound interest on a non-negative principal at a non-negative rate
      is never negative. */
  lemma CompoundInterestNonNegative(principal: real, ratePercent: real, from: Date, to: Date, p: Periodicity)
    requires principal >= 0.0 && ratePercent >= 0.0
    ensures CompoundInterest(principal, ratePercent, from, to, p) >= 0.0
  {
    CompoundFormulaNonNegative(principal, PeriodRate(ratePercent, p), Periods(from, to, p));
  }

  lemma CompoundFormulaNonNegative(principal: real, i: real, n: int)
    requires principal >= 0.0 && i >= 0.0
    ensures CompoundFormula(principal, i, n) >= 0.0
  {
    if n > 0 {
      GrowthFactorAtLeastOne(i, n);
      GainNonNegative(principal, GrowthFactor(i, n));
      CompoundFormulaUnfold(principal, i, n);
    }
  }

  /** The compound interest is the exact gain P · ((1 + i)^n − 1) up to two
      roundings: the growth factor to ten significant digits, which moves
      the gain by at most P · (1 + i)^n · 5·10^-10, and the result to cents,
      which moves it by at most half a cent. */
  lemma CompoundFormulaWithinBound(principal: real, i: real, n: nat)
    requires principal >= 0.0 && i >= 0.0 && n >= 1
    ensures Within(CompoundFormula(principal, i, n), ExactGain(principal, Pow(1.0 + i, n)), RoundingSlack(principal, Pow(1.0 + i, n)))
  {
    CompoundFormulaParts(principal, i, n);
    CompoundBoundFromParts(principal, i, n);
  }

  /** The two roundings of the formula: the growth factor within a relative
      5·10^-10 of the exact power, and the result as P · g − P to cents. */
  lemma CompoundFormulaParts(principal: real, i: real, n: nat)
    requires i >= 0.0 && n >= 1
    ensures Within(GrowthFactor(i, n), Pow(1.0 + i, n), Pow(1.0 + i, n) * 0.0000000005)
    ensures CompoundFormula(principal, i, n) == RoundHalfUp(principal * GrowthFactor(i, n) - principal, 2)
  {
    GrowthFactorRelative(i, n);
    CompoundFormulaUnfold(principal, i, n);
  }

  /** The bound from the two roundings. */
  lemma CompoundBoundFromParts(principal: real, i: real, n: nat)
    requires principal >= 0.0 && i >= 0.0 && n >= 1
    requires Within(GrowthFactor(i, n), Pow(1.0 + i, n), Pow(1.0 + i, n) * 0.0000000005)
    requires CompoundFormula(principal, i, n) == RoundHalfUp(principal * GrowthFactor(i, n) - principal, 2)
    ensures Within(CompoundFormula(principal, i, n), ExactGain(principal, Pow(1.0 + i, n)), RoundingSlack(principal, Pow(1.0 + i, n)))
  {
    GainBound(principal, GrowthFactor(i, n), Pow(1.0 + i, n), CompoundFormula(principal, i, n));
  }

  /** `calcularJurosCompostos` is the exact compound gain over the whole
      periods, up to half a cent plus 5·10^-10 of the grown principal. */
  lemma CompoundInterestWithinBound(principal: real, ratePercent: real, from: Date, to: Date, p: Periodicity)
    requires principal >= 0.0 && ratePercent >= 0.0 && Periods(from, to, p) >= 1
    ensures var x := Pow(1.0 + PeriodRate(ratePercent, p), Periods(from, to, p));
      Within(CompoundInterest(principal, ratePercent, from, to, p), ExactGain(principal, x), RoundingSlack(principal, x))
  {
    CompoundFormulaWithinBound(principal, PeriodRate(ratePercent, p), Periods(from, to, p));
  }
  /** The gain P · (x − 1) of a principal grown by the factor x. */
  function ExactGain(principal: real, x: real): real {
    principal * (x - 1.0)
  }

  /** Half a cent plus 5·10^-10 of the grown principal P · x. */
  function RoundingSlack(principal: real, x: real): real {
    0.005 + principal * (x * 0.0000000005)
  }

  /** The ten-digit growth factor is within 5·10^-10 of (1 + i)^n, relatively. */
  lemma GrowthFactorRelative(i: real, n: nat)
    requires i >= 0.0
    ensures Within(GrowthFactor(i, n), Pow(1.0 + i, n), Pow(1.0 + i, n) * 0.0000000005)
  {
    CompoundGrowthAtLeastSimple(i, n);
    assert (n as real) * i >= 0.0;
    RoundSignificantRelative(Pow(1.0 + i, n), Precision);
    NineDigits();
  }

  /** P · g − P to cents, for g within a relative 5·10^-10 of x, is within
      half a cent plus P · x · 5·10^-10 of P · (x − 1). */
  lemma GainBound(principal: real, g: real, x: real, r: real)
    requires principal >= 0.0 && Within(g, x, x * 0.0000000005)
    requires r == RoundHalfUp(principal * g - principal, 2)
    ensures Within(r, ExactGain(principal, x), RoundingSlack(principal, x))
  {
    GainWithin(principal, g, x, x * 0.0000000005, r);
  }

  /** P · g − P to cents, for g within d of x, is within half a cent plus
      P · d of P · (x − 1). */
  lemma GainWithin(principal: real, g: real, x: real, d: real, r: real)
    requires principal >= 0.0 && Within(g, x, d)
    requires r == RoundHalfUp(principal * g - principal, 2)
    ensures Within(r, principal * (x - 1.0), 0.005 + principal * d)
  {
    GainError(principal, g, x, d);
    ToCents(principal * g - principal);
    WithinBoth(r, principal * g - principal, principal * (x - 1.0), principal * d, 0.005);
  }

  /** A factor g within d of x moves the gain P · g − P by at most P · d
      from P · (x − 1). */
  lemma GainError(principal: real, g: real, x: real, d: real)
    requires principal >= 0.0 && Within(g, x, d)
    ensures Within(principal * g - principal, principal * (x - 1.0), principal * d)
  {
    assert principal * g - principal - principal * (x - 1.0) == principal * (g - x);
    assert principal * (g - x) <= principal * d;
    assert principal * (g - x) >= -(principal * d);
  }

  /** Rounding to cents moves a value by at most half a cent. */
  lemma ToCents(y: real)
    ensures Within(RoundHalfUp(y, 2), y, 0.005)
  {
    RoundHalfUpFacts(y, 2);
    ScaleStep(0);
    ScaleStep(1);
  }

  /** 0.5 / 10^9 is 5·10^-10. */
  lemma NineDigits()
    ensures 0.5 / Scale(Precision - 1) == 0.0000000005
  {
    assert Scale(9) == 1000000000.0;
  }

  lemma GainNonNegative(principal: real, g: real)
    requires principal >= 0.0 && g >= 1.0
    ensures principal * g - principal >= 0.0
  {
    assert principal * g - principal == principal * (g - 1.0);
  }

  /** Thirty days of the corrected pro rata die are exactly one month of
      monthly simple interest. */
  lemma ProRataDieExactFullMonth(principal: real, monthlyPercent: real, from: Date, to: Date)
    requires principal > 0.0 && monthlyPercent > 0.0
    requires MonthsBetween(from, to) == 1
    ensures ProRataDieExact(principal, monthlyPercent, 30) ==
      Calculate(principal, monthlyPercent, Simple, from, to, Monthly)
  {
    ThirtyDaysExact(principal, Fraction(monthlyPercent));
  }

  /** As written, the daily rate is rounded before it is multiplied, so thirty
      days can fall short of one month's interest: R$ 100,000,000.00 at 1% a
      month gives 999,999.90 for thirty days instead of 1,000,000.00. */
  lemma ProRataDieFullMonthShortfall()
    ensures ProRataDie(100000000.0, 1.0, 30) == 999999.90
    ensures Calculate(100000000.0, 1.0, Simple, Ymd(2024, 1, 1), Ymd(2024, 2, 1), Monthly) == 1000000.0
  {
    assert Scale(2) == 100.0 && Scale(10) == 10000000000.0;
    RoundHalfUpIs(1.0 / 100.0, 10, 100000000);
    assert Fraction(1.0) == 0.01;
    RoundHalfUpIs(0.01 / DaysPerMonth, 10, 3333333);
    var daily := 0.0003333333;
    assert PeriodRate(1.0, Daily) == daily;
    var p, thirty, one := 100000000.0, 30, 1;
    SimpleFormulaUnfold(p, daily, thirty);
    RoundHalfUpIs(p * daily * (thirty as real), 2, 99999990);
    var from, to := Ymd(2024, 1, 1), Ymd(2024, 2, 1);
    MonthsBetweenCountsWholeMonths(from, to);
    assert Periods(from, to, Monthly) == one;
    SimpleFormulaUnfold(p, 0.01, one);
    RoundHalfUpIs(p * 0.01 * (one as real), 2, 100000000);
  }

  /** R$ 10,000.00 at 1% a month: 12 months of monthly interest give
      1,200.00, four years of annual interest 4,800.00 and the thirty days of
      January 2024 of daily interest 100.00. */
  lemma SimpleInterestExamples()
    ensures Calculate(10000.0, 1.0, Simple, Ymd(2023, 1, 1), Ymd(2024, 1, 1), Monthly) == 1200.0
    ensures Calculate(10000.0, 1.0, Simple, Ymd(2020, 1, 1), Ymd(2024, 1, 1), Annual) == 4800.0
    ensures Calculate(10000.0, 1.0, Simple, Ymd(2024, 1, 1), Ymd(2024, 1, 31), Daily) == 100.0
  {
    assert Scale(2) == 100.0 && Scale(10) == 10000000000.0;
    RoundHalfUpIs(1.0 / 100.0, 10, 100000000);
    RoundHalfUpIs(0.01 / DaysPerMonth, 10, 3333333);
    var p := 10000.0;
    var twelve, four, thirty := 12, 4, 30;
    MonthsBetweenCountsWholeMonths(Ymd(2023, 1, 1), Ymd(2024, 1, 1));
    assert Periods(Ymd(2023, 1, 1), Ymd(2024, 1, 1), Monthly) == twelve;
    SimpleFormulaUnfold(p, 0.01, twelve);
    RoundHalfUpIs(p * 0.01 * (twelve as real), 2, 120000);
    MonthsBetweenCountsWholeMonths(Ymd(2020, 1, 1), Ymd(2024, 1, 1));
    assert Periods(Ymd(2020, 1, 1), Ymd(2024, 1, 1), Annual) == four;
    assert PeriodRate(1.0, Annual) == 0.12;
    SimpleFormulaUnfold(p, 0.12, four);
    RoundHalfUpIs(p * 0.12 * (four as real), 2, 480000);
    assert Periods(Ymd(2024, 1, 1), Ymd(2024, 1, 31), Daily) == thirty;
    assert PeriodRate(1.0, Daily) == 0.0003333333;
    SimpleFormulaUnfold(p, 0.0003333333, thirty);
    RoundHalfUpIs(p * 0.0003333333 * (thirty as real), 2, 10000);
  }

  /** R$ 10,000.00 at 1% a month: 15 days give 50.00 and 30 days 100.00. */
  lemma ProRataDieExamples()
    ensures ProRataDie(10000.0, 1.0, 15) == 50.0
    ensures ProRataDie(10000.0, 1.0, 30) == 100.0
  {
    assert Scale(2) == 100.0 && Scale(10) == 10000000000.0;
    RoundHalfUpIs(1.0 / 100.0, 10, 100000000);
    RoundHalfUpIs(0.01 / DaysPerMonth, 10, 3333333);
    assert PeriodRate(1.0, Daily) == 0.0003333333;
    var p, fifteen, thirty := 10000.0, 15, 30;
    SimpleFormulaUnfold(p, 0.0003333333, fifteen);
    RoundHalfUpIs(p * 0.0003333333 * (fifteen as real), 2, 5000);
    SimpleFormulaUnfold(p, 0.0003333333, thirty);
    RoundHalfUpIs(p * 0.0003333333 * (thirty as real), 2, 10000);
  }

  lemma CompoundFormulaUnfold(principal: real, i: real, n: int)
    requires n > 0
    ensures CompoundFormula(principal, i, n) == RoundHalfUp(principal * GrowthFactor(i, n) - principal, 2)
  {
  }

  /** 1.01^12 to ten significant digits. */
  lemma GrowthFactorExample()
    ensures GrowthFactor(0.01, 12) == 1.126825030
  {
    var g := Pow(1.01, 12);
    assert g == 1.126825030131969720661201;
    assert Magnitude(g) == 1;
    assert Scale(9) == 1000000000.0;
    RoundHalfUpIs(g, 9, 1126825030);
  }

  /** R$ 10,000.00 at 1% a month compounded over the 12 months of 2023 gives
      1,268.25: between 1,268 and 1,269, and above the 1,200.00 of simple
      interest. */
  lemma CompoundInterestExample()
    ensures Calculate(10000.0, 1.0, Compound, Ymd(2023, 1, 1), Ymd(2024, 1, 1), Monthly) == 1268.25
    ensures 1268.0 < Calculate(10000.0, 1.0, Compound, Ymd(2023, 1, 1), Ymd(2024, 1, 1), Monthly) < 1269.0
    ensures Calculate(10000.0, 1.0, Compound, Ymd(2023, 1, 1), Ymd(2024, 1, 1), Monthly) >
            Calculate(10000.0, 1.0, Simple, Ymd(2023, 1, 1), Ymd(2024, 1, 1), Monthly)
  {
    SimpleInterestExamples();
    assert Scale(2) == 100.0 && Scale(10) == 10000000000.0;
    RoundHalfUpIs(1.0 / 100.0, 10, 100000000);
    var twelve, p, i := 12, 10000.0, 0.01;
    MonthsBetweenCountsWholeMonths(Ymd(2023, 1, 1), Ymd(2024, 1, 1));
    assert Periods(Ymd(2023, 1, 1), Ymd(2024, 1, 1), Monthly) == twelve;
    assert PeriodRate(1.0, Monthly) == i;
    CompoundFormulaUnfold(p, i, twelve);
    GrowthFactorExample();
    RoundHalfUpIs(p * 1.126825030 - p, 2, 126825);
  }
}
