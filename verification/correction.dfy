/** Monetary correction (`CorrecaoMonetariaService`): an amount is brought
    forward by the ratio of the index at the month of the end date to the
    index at the month before the start date. */
module Correction {
  import opened Wrappers
  import opened Decimal
  import opened Calendar
  import opened Errors
  import opened IndexStore

  /** Decimal places of the correction factor. */
  const FactorDecimals: int := 10

  /** The index month of the start date: the month before it. */
  function BaseCompetence(start: Date): Competence {
    CompetenceOf(start) - 1
  }

  /** The index month of the end date: its own month. */
  function FinalCompetence(end: Date): Competence {
    CompetenceOf(end)
  }

  /** The value of the latest point of series s at or before c; a missing
      point is "Índice não encontrado para a competência". */
  function LookupIndex(store: Store, s: SeriesId, c: Competence): (r: Result<real, Error>)
    ensures r.Failure? <==> ValueAtOrBefore(store, s, c).None?
    ensures r.Failure? ==> r.error == IndexNotFound(c)
    ensures r.Success? ==> Some(r.value) == ValueAtOrBefore(store, s, c)
  {
    match ValueAtOrBefore(store, s, c)
    case None => Failure(IndexNotFound(c))
    case Some(v) => Success(v)
  }

  /** final ÷ base to ten decimals, HALF_UP. */
  function Factor(base: real, final: real): real
    requires base != 0.0
  {
    RoundHalfUp(final / base, FactorDecimals)
  }

  /** The amount times a factor, to cents. */
  function Apply(amount: real, factor: real): real {
    RoundHalfUp(amount * factor, 2)
  }

  /** `calcularComIndices`: a zero base index is refused; otherwise the amount
      times the rounded factor, to cents. */
  function CorrectWithIndices(amount: real, base: real, final: real): (r: Result<real, Error>)
    ensures r.Failure? <==> base == 0.0
    ensures r.Failure? ==> r.error == ZeroBaseIndex
    ensures r.Success? ==> r.value == Apply(amount, Factor(base, final))
  {
    if base == 0.0 then Failure(ZeroBaseIndex)
    else Success(Apply(amount, Factor(base, final)))
  }

  /** `calcularFatorCorrecao`: the same two lookups with no guard on amount,
      date order or zero; a zero base index makes the division fail. */
  function CorrectionFactor(store: Store, s: SeriesId, from: Date, to: Date): (r: Result<real, Error>)
    ensures var base := ValueAtOrBefore(store, s, BaseCompetence(from));
            var final := ValueAtOrBefore(store, s, FinalCompetence(to));
            && (base.None? ==> r == Failure(IndexNotFound(BaseCompetence(from))))
            && (base.Some? && final.None? ==> r == Failure(IndexNotFound(FinalCompetence(to))))
            && (base.Some? && final.Some? && base.value == 0.0 ==> r == Failure(DivisionByZero))
            && (r.Success? <==> base.Some? && final.Some? && base.value != 0.0)
            && (r.Success? ==> r.value == Factor(base.value, final.value))
  {
    var base :- LookupIndex(store, s, BaseCompetence(from));
    var final :- LookupIndex(store, s, FinalCompetence(to));
    if base == 0.0 then Failure(DivisionByZero) else Success(Factor(base, final))
  }

  /** `CorrecaoMonetariaService.calcular` */
  function Calculate(store: Store, amount: real, from: Date, to: Date, s: SeriesId): (r: Result<real, Error>)
    ensures amount <= 0.0 ==> r == Success(0.0)
    ensures amount > 0.0 && IsBefore(to, from) ==> r == Failure(InvalidDateRange)
  {
    if amount <= 0.0 then Success(0.0)
    else if IsBefore(to, from) then Failure(InvalidDateRange)
    else
      var base :- LookupIndex(store, s, BaseCompetence(from));
      var final :- LookupIndex(store, s, FinalCompetence(to));
      CorrectWithIndices(amount, base, final)
  }

  /** Once the amount is positive and the dates are in order, correction
      succeeds exactly when both lookups find a point and the base index is
      not zero, and then the corrected value is the amount times the
      ten-decimal factor, to cents. A missing base point is reported before a
      missing final one. */
  lemma CalculateSpec(store: Store, amount: real, from: Date, to: Date, s: SeriesId)
    requires amount > 0.0 && !IsBefore(to, from)
    ensures var base := ValueAtOrBefore(store, s, BaseCompetence(from));
            var final := ValueAtOrBefore(store, s, FinalCompetence(to));
            var r := Calculate(store, amount, from, to, s);
            && (base.None? ==> r == Failure(IndexNotFound(BaseCompetence(from))))
            && (base.Some? && final.None? ==> r == Failure(IndexNotFound(FinalCompetence(to))))
            && (base.Some? && final.Some? && base.value == 0.0 ==> r == Failure(ZeroBaseIndex))
            && (r.Success? <==> base.Some? && final.Some? && base.value != 0.0)
            && (r.Success? ==> r.value == Apply(amount, Factor(base.value, final.value)))
  {
  }

  /** The corrected value is the amount times the factor `calcularFatorCorrecao`
      reports for the same dates and series, and one fails exactly when the
      other does. */
  lemma CalculateUsesCorrectionFactor(store: Store, amount: real, from: Date, to: Date, s: SeriesId)
    requires amount > 0.0 && !IsBefore(to, from)
    ensures Calculate(store, amount, from, to, s).Success? <==> CorrectionFactor(store, s, from, to).Success?
    ensures Calculate(store, amount, from, to, s).Success? ==>
      Calculate(store, amount, from, to, s).value == Apply(amount, CorrectionFactor(store, s, from, to).value)
  {
    CalculateSpec(store, amount, from, to, s);
  }

  /** An index that did not fall never lowers an amount given in cents. */
  lemma CorrectionNeverLowers(amount: real, base: real, final: real)
    requires amount > 0.0 && HasScale(amount, 2)
    requires 0.0 < base <= final
    ensures CorrectWithIndices(amount, base, final).value >= amount
  {
    FactorAtLeastOne(base, final);
    ApplyAtLeast(amount, Factor(base, final));
  }

  lemma FactorAtLeastOne(base: real, final: real)
    requires 0.0 < base <= final
    ensures Factor(base, final) >= 1.0
  {
    assert final / base >= 1.0;
    RoundMonotone(1.0, final / base, FactorDecimals);
    WholeHasScale(1, FactorDecimals);
    RoundExact(1.0, FactorDecimals);
  }

  lemma ApplyAtLeast(amount: real, f: real)
    requires amount > 0.0 && HasScale(amount, 2) && f >= 1.0
    ensures Apply(amount, f) >= amount
  {
    var x := amount * f;
    assert x >= amount by {
      assert amount * f - amount == amount * (f - 1.0);
    }
    RoundNotBelow(x, amount, 2);
  }

  /** `obterIndicesNoPeriodo`: both bounds move to their months; the points
      of the months in between, ascending. */
  function PointsInPeriod(store: Store, s: SeriesId, from: Date, to: Date): (r: seq<DatedValue>)
    ensures forall i | 0 <= i < |r| :: CompetenceOf(from) <= r[i].competence <= CompetenceOf(to)
    ensures forall i, j | 0 <= i < j < |r| :: r[i].competence < r[j].competence
    ensures forall m | CompetenceOf(from) <= m <= CompetenceOf(to) && PointKey(s, m) in store ::
      (exists i :: 0 <= i < |r| && r[i] == DatedValue(m, store[PointKey(s, m)].value))
  {
    var r := PointsInRange(store, s, CompetenceOf(from), CompetenceOf(to));
    assert forall m | CompetenceOf(from) <= m <= CompetenceOf(to) && PointKey(s, m) in store ::
        (exists i :: 0 <= i < |r| && r[i] == DatedValue(m, store[PointKey(s, m)].value)) by {
      forall m | CompetenceOf(from) <= m <= CompetenceOf(to) && PointKey(s, m) in store
        ensures exists i :: 0 <= i < |r| && r[i] == DatedValue(m, store[PointKey(s, m)].value)
      {
        var i :| 0 <= i < |r| && r[i].competence == m;
        assert r[i] == DatedValue(m, store[PointKey(s, m)].value);
      }
    }
    r
  }

  /** R$ 10,000.00 from 15 Jan 2020 to 15 Jan 2024, with index 100 for
      December 2019 and 125 for January 2024, becomes 12,500.00. */
  lemma CorrectionExample()
    ensures var store := map[PointKey(1, MonthIndex(2019, 12)) := IndexPoint(100.0, Manual),
                             PointKey(1, MonthIndex(2024, 1)) := IndexPoint(125.0, Manual)];
            Calculate(store, 10000.0, Ymd(2020, 1, 15), Ymd(2024, 1, 15), 1) == Success(12500.0)
  {
    var store := map[PointKey(1, MonthIndex(2019, 12)) := IndexPoint(100.0, Manual),
                     PointKey(1, MonthIndex(2024, 1)) := IndexPoint(125.0, Manual)];
    ExactPointIsLatest(store, 1, MonthIndex(2019, 12));
    ExactPointIsLatest(store, 1, MonthIndex(2024, 1));
    assert Scale(2) == 100.0 && Scale(10) == 10000000000.0;
    RoundHalfUpIs(125.0 / 100.0, FactorDecimals, 12500000000);
    RoundHalfUpIs(10000.0 * 1.25, 2, 1250000);
    assert Apply(10000.0, 1.25) == 12500.0;
  }

  /** Indices 4532.52 and 5678.25 turn R$ 1,000.00 into 1,252.78 (between
      1,252 and 1,253), and indices 100 and 150 give the factor 1.5. */
  lemma CorrectionFactorExamples()
    ensures CorrectWithIndices(1000.0, 4532.52, 5678.25) == Success(1252.78)
    ensures var store := map[PointKey(1, MonthIndex(2019, 12)) := IndexPoint(100.0, Manual),
                             PointKey(1, MonthIndex(2024, 1)) := IndexPoint(150.0, Manual)];
            CorrectionFactor(store, 1, Ymd(2020, 1, 1), Ymd(2024, 1, 1)) == Success(1.5)
  {
    assert Scale(2) == 100.0 && Scale(10) == 10000000000.0;
    RoundHalfUpIs(5678.25 / 4532.52, FactorDecimals, 12527799105);
    RoundHalfUpIs(1000.0 * 1.2527799105, 2, 125278);
    assert Apply(1000.0, 1.2527799105) == 1252.78;
    var store := map[PointKey(1, MonthIndex(2019, 12)) := IndexPoint(100.0, Manual),
                     PointKey(1, MonthIndex(2024, 1)) := IndexPoint(150.0, Manual)];
    ExactPointIsLatest(store, 1, MonthIndex(2019, 12));
    ExactPointIsLatest(store, 1, MonthIndex(2024, 1));
    RoundHalfUpIs(150.0 / 100.0, FactorDecimals, 15000000000);
  }
}
