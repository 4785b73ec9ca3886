/** The standard calculation (`CalculoService.executarCalculo`,
    `gerarDetalhamentoMensal`, `validarRequest`): each instalment is corrected
    by its index and charged interest, the results are summed, penalty and
    fee are added, and a month-by-month breakdown of the global index is
    produced. */
module Standard {
  import opened Wrappers
  import opened Decimal
  import opened Calendar
  import opened Errors
  import opened IndexStore
  import Interest
  import Correction
  import opened Calculation

  /** `validarRequest`: the start may not be after the end, nor any listed
      instalment fall due after the end. */
  function Validate(req: Request): (r: Result<(), Error>)
    ensures r.Failure? <==>
      IsBefore(req.end, req.start) ||
      exists i :: 0 <= i < |req.installments| && IsBefore(req.end, req.installments[i].dueDate)
    ensures IsBefore(req.end, req.start) ==> r == Failure(InvalidDateRange)
    ensures !IsBefore(req.end, req.start) && r.Failure? ==> r.error == InstallmentDueAfterEnd
  {
    if IsBefore(req.end, req.start) then Failure(InvalidDateRange)
    else if exists i :: 0 <= i < |req.installments| && IsBefore(req.end, req.installments[i].dueDate) then
      Failure(InstallmentDueAfterEnd)
    else Success(())
  }

  const PrincipalDescription: string := "Valor principal"

  /** The instalments to compute: those of the request, or with none a single
      one for the whole principal, due on the start date. */
  function InstallmentsOf(req: Request): (r: seq<Installment>)
    ensures |req.installments| > 0 ==> r == req.installments
    ensures |req.installments| == 0 ==> r == [Installment(PrincipalDescription, req.principal, req.start, None)]
  {
    if |req.installments| > 0 then req.installments
    else [Installment(PrincipalDescription, req.principal, req.start, None)]
  }

  /** The instalment's own index table if it has one, else the request's. */
  function EffectiveSeries(req: Request, inst: Installment): (r: Option<SeriesId>)
    ensures inst.seriesOverride.Some? ==> r == inst.seriesOverride
    ensures inst.seriesOverride.None? ==> r == req.series
  {
    if inst.seriesOverride.Some? then inst.seriesOverride else req.series
  }

  /** The display name of an index table, when the table exists. */
  function TableName(tables: seq<IndexTable>, series: Option<SeriesId>): Option<string> {
    match series
    case None => None
    case Some(id) =>
      match FindTableById(tables, id)
      case None => None
      case Some(t) => Some(t.name)
  }

  /** The corrected value of one instalment: unchanged without an index,
      otherwise the correction from the due date to the end date; the
      correction factor for the same dates is looked up too, and its failure
      aborts the calculation as well. */
  function CorrectInstallment(store: Store, req: Request, inst: Installment): (r: Result<real, Error>)
    ensures EffectiveSeries(req, inst).None? ==> r == Success(inst.amount)
    ensures EffectiveSeries(req, inst).Some? ==>
      var s := EffectiveSeries(req, inst).value;
      var corrected := Correction.Calculate(store, inst.amount, inst.dueDate, req.end, s);
      var factor := Correction.CorrectionFactor(store, s, inst.dueDate, req.end);
      && (r.Success? <==> corrected.Success? && factor.Success?)
      && (corrected.Failure? ==> r.error == corrected.error)
      && (corrected.Success? && factor.Failure? ==> r.error == factor.error)
      && (r.Success? ==> r.value == corrected.value)
  {
    match EffectiveSeries(req, inst)
    case None => Success(inst.amount)
    case Some(s) =>
      var corrected :- Correction.Calculate(store, inst.amount, inst.dueDate, req.end, s);
      var _ :- Correction.CorrectionFactor(store, s, inst.dueDate, req.end);
      Success(corrected)
  }

  /** For an instalment due by the end date, correction succeeds exactly
      when `calcularFatorCorrecao` does, and the corrected value is the
      amount times that factor, to cents; a non-positive amount stays 0 but
      still needs both index points. */
  lemma CorrectedByFactor(store: Store, req: Request, inst: Installment)
    requires EffectiveSeries(req, inst).Some? && !IsBefore(req.end, inst.dueDate)
    ensures var factor := Correction.CorrectionFactor(store, EffectiveSeries(req, inst).value, inst.dueDate, req.end);
      var r := CorrectInstallment(store, req, inst);
      && (r.Success? <==> factor.Success?)
      && (r.Success? && inst.amount > 0.0 ==> r.value == Correction.Apply(inst.amount, factor.value))
      && (r.Success? && inst.amount <= 0.0 ==> r.value == 0.0)
  {
    if inst.amount > 0.0 {
      Correction.CalculateUsesCorrectionFactor(store, inst.amount, inst.dueDate, req.end, EffectiveSeries(req, inst).value);
    }
  }

  /** Correction, interest and subtotal of one instalment. */
  function ComputeInstallment(store: Store, tables: seq<IndexTable>, req: Request, inst: Installment): (r: Result<InstallmentResult, Error>)
    ensures r.Success? <==> CorrectInstallment(store, req, inst).Success?
    ensures r.Success? ==>
      && r.value.corrected == CorrectInstallment(store, req, inst).value
      && r.value.subtotal == r.value.corrected + r.value.interest
      && r.value.original == inst.amount
      && r.value.dueDate == inst.dueDate
      && (req.ratePercent <= 0.0 ==> r.value.interest == 0.0 && r.value.interestMonths == 0)
      && (req.ratePercent > 0.0 ==>
            r.value.interestMonths == MonthsBetween(inst.dueDate, req.end) &&
            r.value.interest == Interest.Calculate(
              if req.interestOnCorrected then r.value.corrected else inst.amount,
              req.ratePercent, req.interestKind, inst.dueDate, req.end, req.periodicity))
  {
    var corrected :- CorrectInstallment(store, req, inst);
    var base := if req.interestOnCorrected then corrected else inst.amount;
    var interest := if req.ratePercent > 0.0 then
      Interest.Calculate(base, req.ratePercent, req.interestKind, inst.dueDate, req.end, req.periodicity)
      else 0.0;
    var months := if req.ratePercent > 0.0 then MonthsBetween(inst.dueDate, req.end) else 0;
    Success(InstallmentResult(inst.description, inst.amount, inst.dueDate, corrected, interest,
      corrected + interest, months, TableName(tables, EffectiveSeries(req, inst))))
  }

  /** Every instalment in order; the first failure aborts the whole run. */
  function ComputeAll(store: Store, tables: seq<IndexTable>, req: Request, insts: seq<Installment>): (r: Result<seq<InstallmentResult>, Error>)
    ensures r.Success? <==> forall i | 0 <= i < |insts| :: ComputeInstallment(store, tables, req, insts[i]).Success?
    ensures r.Success? ==> |r.value| == |insts|
    ensures r.Success? ==> forall i | 0 <= i < |insts| :: r.value[i] == ComputeInstallment(store, tables, req, insts[i]).value
    ensures r.Failure? ==>
      exists i :: (0 <= i < |insts| && ComputeInstallment(store, tables, req, insts[i]) == Failure(r.error) &&
        forall j | 0 <= j < i :: ComputeInstallment(store, tables, req, insts[j]).Success?)
  {
    Collect(Attempts(store, tables, req, insts))
  }

  /** The outcome of computing each instalment on its own. */
  function Attempts(store: Store, tables: seq<IndexTable>, req: Request, insts: seq<Installment>): (rs: seq<Result<InstallmentResult, Error>>)
    ensures |rs| == |insts| && forall i | 0 <= i < |insts| :: rs[i] == ComputeInstallment(store, tables, req, insts[i])
  {
    seq(|insts|, i requires 0 <= i < |insts| => ComputeInstallment(store, tables, req, insts[i]))
  }

  function SumCorrected(rs: seq<InstallmentResult>): real {
    if |rs| == 0 then 0.0 else rs[0].corrected + SumCorrected(rs[1..])
  }

  function SumInterest(rs: seq<InstallmentResult>): real {
    if |rs| == 0 then 0.0 else rs[0].interest + SumInterest(rs[1..])
  }

  /** The index relative to the base index, to six decimals. */
  function CumulativeFactor(base: real, value: real): real
    requires base != 0.0
  {
    RoundHalfUp(value / base, 6)
  }

  /** Whole months of interest up to a breakdown row: from the start date to
      the first day of the month after the row's month. */
  function RowMonths(req: Request, c: Competence): int {
    MonthsBetween(req.start, FirstDay(c + 1))
  }

  /** The interest of a breakdown row: `calcularJurosSimples` over monthly
      periods from the start to the end of the row's month, on the principal
      or on the row's corrected value; none under the compound rule, for a
      rate that is not positive, or before a whole month has passed. */
  function RowInterest(req: Request, corrected: real, c: Competence): real {
    if req.interestKind == Interest.Simple && req.ratePercent > 0.0 && RowMonths(req, c) > 0 then
      Interest.SimpleInterest(if req.interestOnCorrected then corrected else req.principal,
        req.ratePercent, req.start, FirstDay(c + 1), Interest.Monthly)
    else 0.0
  }

  /** One breakdown row for an index point: the cumulative factor against the
      first point, the principal corrected by it, the change from the
      previous point, and simple interest for the months from the start up
      to the end of this point's month. */
  function BreakdownEntry(req: Request, name: Option<string>, base: real, previous: Option<real>, p: DatedValue): (e: MonthlyEntry)
    requires base != 0.0
    ensures e.competence == p.competence && e.index == Some(p.value) && e.indexName == name
    ensures e.variation == if previous.Some? && previous.value > 0.0 then Some(PercentChange(previous.value, p.value)) else None
    ensures e.cumulativeFactor == CumulativeFactor(base, p.value)
    ensures e.corrected == Correction.Apply(req.principal, e.cumulativeFactor)
    ensures e.interest == RowInterest(req, e.corrected, p.competence)
    ensures e.subtotal == e.corrected + e.interest
  {
    var factor := CumulativeFactor(base, p.value);
    var corrected := Correction.Apply(req.principal, factor);
    var variation := if previous.Some? && previous.value > 0.0 then Some(PercentChange(previous.value, p.value)) else None;
    var months := MonthsBetween(req.start, FirstDay(p.competence + 1));
    var interestBase := if req.interestOnCorrected then corrected else req.principal;
    var interest :=
      if req.ratePercent > 0.0 && months > 0 && req.interestKind == Interest.Simple then
        Interest.SimpleFormula(interestBase, Interest.Fraction(req.ratePercent), months)
      else 0.0;
    MonthlyEntry(p.competence, name, Some(p.value), variation, factor, corrected, interest, corrected + interest)
  }

  /** Row i of the breakdown over the points pts of the period. */
  predicate IsRow(req: Request, name: Option<string>, pts: seq<DatedValue>, i: int, e: MonthlyEntry)
    requires 0 <= i < |pts| && pts[0].value != 0.0
  {
    && e.competence == pts[i].competence
    && e.indexName == name
    && e.index == Some(pts[i].value)
    && e.variation == (if i > 0 && pts[i - 1].value > 0.0 then Some(PercentChange(pts[i - 1].value, pts[i].value)) else None)
    && e.cumulativeFactor == CumulativeFactor(pts[0].value, pts[i].value)
    && e.corrected == Correction.Apply(req.principal, e.cumulativeFactor)
    && e.interest == RowInterest(req, e.corrected, pts[i].competence)
    && e.subtotal == e.corrected + e.interest
  }

  /** The rows for a run of index points, each against the first one. */
  function Rows(req: Request, name: Option<string>, pts: seq<DatedValue>): (rows: seq<MonthlyEntry>)
    requires |pts| > 0 && pts[0].value != 0.0
    ensures |rows| == |pts|
    ensures forall i | 0 <= i < |pts| ::
      rows[i] == BreakdownEntry(req, name, pts[0].value, if i == 0 then None else Some(pts[i - 1].value), pts[i])
  {
    seq(|pts|, i requires 0 <= i < |pts| =>
      BreakdownEntry(req, name, pts[0].value, if i == 0 then None else Some(pts[i - 1].value), pts[i]))
  }

  /** `gerarDetalhamentoMensal`: one row per point of the global index in the
      months of the calculation; none without a global index or points. A
      first point of zero makes the cumulative division fail. */
  function Breakdown(store: Store, tables: seq<IndexTable>, req: Request): (r: Result<seq<MonthlyEntry>, Error>)
    ensures req.series.None? ==> r == Success([])
    ensures req.series.Some? ==>
      var pts := Correction.PointsInPeriod(store, req.series.value, req.start, req.end);
      && (r.Failure? <==> |pts| > 0 && pts[0].value == 0.0)
      && (r.Failure? ==> r.error == DivisionByZero)
      && (r.Success? ==> |r.value| == |pts|)
      && (r.Success? ==> forall i | 0 <= i < |pts| :: IsRow(req, TableName(tables, req.series), pts, i, r.value[i]))
  {
    match req.series
    case None => Success([])
    case Some(s) =>
      var pts := Correction.PointsInPeriod(store, s, req.start, req.end);
      if |pts| == 0 then Success([])
      else if pts[0].value == 0.0 then Failure(DivisionByZero)
      else
        RowsFacts(req, TableName(tables, req.series), pts);
        Success(Rows(req, TableName(tables, req.series), pts))
  }

  /** Every row is the row its point calls for. */
  lemma RowsFacts(req: Request, name: Option<string>, pts: seq<DatedValue>)
    requires |pts| > 0 && pts[0].value != 0.0
    ensures var rows := Rows(req, name, pts);
      forall i | 0 <= i < |pts| :: IsRow(req, name, pts, i, rows[i])
  {
    var rows := Rows(req, name, pts);
    forall i | 0 <= i < |pts|
      ensures IsRow(req, name, pts, i, rows[i])
    {
      var previous := if i == 0 then None else Some(pts[i - 1].value);
      assert rows[i] == BreakdownEntry(req, name, pts[0].value, previous, pts[i]);
    }
  }

  /** The base index against itself is a factor of exactly 1. */
  lemma FactorOfBaseIsOne(v: real)
    requires v != 0.0
    ensures CumulativeFactor(v, v) == 1.0
  {
    assert v / v == 1.0;
    WholeHasScale(1, 6);
    RoundExact(1.0, 6);
  }

  /** A factor of 1 leaves an amount in cents unchanged. */
  lemma UnitFactorKeepsAmount(amount: real)
    requires HasScale(amount, 2)
    ensures Correction.Apply(amount, 1.0) == amount
  {
    var one := 1.0;
    assert amount * one == amount;
    RoundExact(amount, 2);
  }

  /** The first breakdown row has factor 1, the principal (in cents) as its
      corrected value, and no variation. */
  lemma BreakdownStartsAtPrincipal(store: Store, tables: seq<IndexTable>, req: Request)
    requires HasScale(req.principal, 2)
    requires Breakdown(store, tables, req).Success? && |Breakdown(store, tables, req).value| > 0
    ensures var e := Breakdown(store, tables, req).value[0];
      e.cumulativeFactor == 1.0 && e.corrected == req.principal && e.variation.None?
  {
    var pts := Correction.PointsInPeriod(store, req.series.value, req.start, req.end);
    FactorOfBaseIsOne(pts[0].value);
    UnitFactorKeepsAmount(req.principal);
  }

  /** Change of the index over the breakdown, from its first to its last row,
      when the first index is positive. */
  function PeriodVariation(entries: seq<MonthlyEntry>): (r: Option<real>)
    ensures r.Some? <==>
      && |entries| > 0
      && entries[0].index.Some? && entries[|entries| - 1].index.Some?
      && entries[0].index.value > 0.0
    ensures r.Some? ==>
      r.value == PercentChange(entries[0].index.value, entries[|entries| - 1].index.value)
  {
    if |entries| == 0 then None
    else
      var first := entries[0].index;
      var last := entries[|entries| - 1].index;
      if first.Some? && last.Some? && first.value > 0.0 then Some(PercentChange(first.value, last.value))
      else None
  }

  /** `executarCalculo`: the instalments first, whose first failure aborts the
      run with its error, then the monthly breakdown, which can only fail on a
      zero first index. */
  function Execute(store: Store, tables: seq<IndexTable>, req: Request): (r: Result<CalculationResult, Error>)
    ensures r.Success? <==>
      ComputeAll(store, tables, req, InstallmentsOf(req)).Success? && Breakdown(store, tables, req).Success?
    ensures r.Failure? ==>
      var all := ComputeAll(store, tables, req, InstallmentsOf(req));
      r.error == if all.Failure? then all.error else DivisionByZero
    ensures r.Success? ==>
      var rs := ComputeAll(store, tables, req, InstallmentsOf(req)).value;
      && r.value.installments == rs
      && r.value.corrected == SumCorrected(rs)
      && r.value.interest == SumInterest(rs)
      && Charges(r.value.penalty, r.value.fee, r.value.total)
         == ApplyCharges(r.value.corrected + r.value.interest, req.penaltyPercent, req.feePercent)
      && r.value.total == r.value.corrected + r.value.interest + r.value.penalty + r.value.fee
      && r.value.original == req.principal
      && r.value.breakdown == Breakdown(store, tables, req).value
      && r.value.periodVariation == PeriodVariation(r.value.breakdown)
      && (req.series.None? || req.principal <= 0.0 ==> r.value.factor == 1.0)
      && (req.series.Some? && req.principal > 0.0 ==>
            r.value.factor == RoundHalfUp(r.value.corrected / req.principal, 6))
  {
    var rs :- ComputeAll(store, tables, req, InstallmentsOf(req));
    var corrected := SumCorrected(rs);
    var interest := SumInterest(rs);
    var charges := ApplyCharges(corrected + interest, req.penaltyPercent, req.feePercent);
    var factor := if req.series.Some? && req.principal > 0.0 then RoundHalfUp(corrected / req.principal, 6) else 1.0;
    var breakdown :- Breakdown(store, tables, req);
    Success(CalculationResult(req.principal, corrected, interest, charges.penalty, charges.fee, charges.total,
      factor, PeriodVariation(breakdown), rs, breakdown))
  }

  /** An instalment with no index table is not corrected, and one that has
      no interest rate is charged none. */
  lemma InstallmentWithoutIndexOrRate(store: Store, tables: seq<IndexTable>, req: Request, inst: Installment)
    requires EffectiveSeries(req, inst).None?
    ensures ComputeInstallment(store, tables, req, inst).Success?
    ensures ComputeInstallment(store, tables, req, inst).value.corrected == inst.amount
    ensures req.ratePercent <= 0.0 ==> ComputeInstallment(store, tables, req, inst).value.subtotal == inst.amount
  {
  }

  /** The grand totals add up the instalments: the corrected total is the sum
      of the instalments' corrected values and likewise for interest, so the
      total is the sum of their subtotals plus penalty and fee. */
  lemma {:induction false} SubtotalsAddUp(rs: seq<InstallmentResult>)
    requires forall i | 0 <= i < |rs| :: rs[i].subtotal == rs[i].corrected + rs[i].interest
    ensures SumCorrected(rs) + SumInterest(rs) == SumSubtotal(rs)
  {
    if |rs| > 0 {
      SubtotalsAddUp(rs[1..]);
    }
  }

  function SumSubtotal(rs: seq<InstallmentResult>): real {
    if |rs| == 0 then 0.0 else rs[0].subtotal + SumSubtotal(rs[1..])
  }

  /** A successful run charges penalty and fee on the sum of the
      instalments' subtotals, and its total is that sum plus both. */
  lemma ExecuteTotalIsSubtotalsPlusCharges(store: Store, tables: seq<IndexTable>, req: Request)
    requires Execute(store, tables, req).Success?
    ensures var r := Execute(store, tables, req).value;
      && Charges(r.penalty, r.fee, r.total) == ApplyCharges(SumSubtotal(r.installments), req.penaltyPercent, req.feePercent)
      && r.total == SumSubtotal(r.installments) + r.penalty + r.fee
  {
    var rs := ComputeAll(store, tables, req, InstallmentsOf(req)).value;
    SubtotalsAddUp(rs);
  }

  /** The period variation of a run is the change of the index from the first
      to the last point of the period, present exactly when there is a first
      point and it is positive. */
  lemma ExecutePeriodVariation(store: Store, tables: seq<IndexTable>, req: Request)
    requires Execute(store, tables, req).Success?
    ensures req.series.None? ==> Execute(store, tables, req).value.periodVariation.None?
    ensures req.series.Some? ==>
      var pts := Correction.PointsInPeriod(store, req.series.value, req.start, req.end);
      var v := Execute(store, tables, req).value.periodVariation;
      && (v.Some? <==> |pts| > 0 && pts[0].value > 0.0)
      && (v.Some? ==> v.value == PercentChange(pts[0].value, pts[|pts| - 1].value))
  {
    if req.series.Some? {
      var pts := Correction.PointsInPeriod(store, req.series.value, req.start, req.end);
      var rows := Breakdown(store, tables, req).value;
      if |pts| > 0 {
        var name := TableName(tables, req.series);
        assert IsRow(req, name, pts, 0, rows[0]);
        assert IsRow(req, name, pts, |pts| - 1, rows[|pts| - 1]);
      }
    }
  }
}
