/** Judgments against the federal public treasury
    (`FazendaPublicaCalculoService`): a month-by-month fold from the start
    month to the end month in which the legislation in force for each month
    picks the correction index and the interest rule. */
module Treasury {
  import opened Wrappers
  import opened Decimal
  import opened Calendar
  import opened Errors
  import opened IndexStore
  import Correction
  import opened Calculation
  import Loops

  /** The legal regime of a month. */
  datatype Regime =
    | Inpc       // before 01/1992: INPC plus simple interest
    | IpcaE      // 01/1992 to 11/2021: IPCA-E plus simple interest
    | Selic      // 12/2021 (EC 113/2021) to 09/2025: SELIC covers both
    | IpcaCapped // from 10/2025 (EC 136/2025): IPCA plus 2% a year, capped by SELIC

  /** The first months of the regimes after INPC; EC 113/2021 took effect on
      9 December 2021, which the month loop compares as December 2021. */
  const IpcaEFrom: Competence := MonthIndex(1992, 1)
  const SelicFrom: Competence := MonthIndex(2021, 12)
  const IpcaCappedFrom: Competence := MonthIndex(2025, 10)

  /** Interest falls from 1% to 0.5% a month from July 2009 (Lei 11.960/2009). */
  const SavingsRateFrom: Competence := MonthIndex(2009, 7)

  const FullRatePercent: real := 1.0
  const SavingsRatePercent: real := 0.5
  const AnnualRatePercent: real := 2.0

  const InpcTable: string := "INPC"
  const IpcaETable: string := "IPCA_E"
  const SelicTable: string := "SELIC"

  /** The regime of a month: the cascade of threshold tests in the loop. */
  function RegimeFor(c: Competence): Regime {
    if c >= IpcaCappedFrom then IpcaCapped
    else if c >= SelicFrom then Selic
    else if c >= IpcaEFrom then IpcaE
    else Inpc
  }

  /** The thresholds in ascending order, each with the regime it opens. */
  const Thresholds: seq<(Competence, Regime)> :=
    [(IpcaEFrom, IpcaE), (SelicFrom, Selic), (IpcaCappedFrom, IpcaCapped)]

  /** The regime opened by the last threshold in `ts` that c has reached,
      or `current` when it reaches none of them. */
  function LatestReached(ts: seq<(Competence, Regime)>, c: Competence, current: Regime): Regime {
    if |ts| == 0 || c < ts[0].0 then current
    else LatestReached(ts[1..], c, ts[0].1)
  }

  /** The cascade picks the regime of the most recent threshold reached. */
  lemma RegimeIsLatestThresholdReached(c: Competence)
    ensures RegimeFor(c) == LatestReached(Thresholds, c, Inpc)
  {
    var t1 := [(SelicFrom, Selic), (IpcaCappedFrom, IpcaCapped)];
    var t2 := [(IpcaCappedFrom, IpcaCapped)];
    assert Thresholds[1..] == t1 && t1[1..] == t2 && t2[1..] == [];
    if c >= IpcaEFrom {
      assert LatestReached(Thresholds, c, Inpc) == LatestReached(t1, c, IpcaE);
      if c >= SelicFrom {
        assert LatestReached(t1, c, IpcaE) == LatestReached(t2, c, Selic);
        if c >= IpcaCappedFrom {
          assert LatestReached(t2, c, Selic) == LatestReached([], c, IpcaCapped);
        }
      }
    }
  }

  function RegimeOrder(r: Regime): int {
    match r
    case Inpc => 0
    case IpcaE => 1
    case Selic => 2
    case IpcaCapped => 3
  }

  /** Regimes only move forward in time. */
  lemma RegimeNeverGoesBack(c: Competence, d: Competence)
    requires c <= d
    ensures RegimeOrder(RegimeFor(c)) <= RegimeOrder(RegimeFor(d))
  {
  }

  /** The three series the loop reads, resolved by table name. */
  datatype SeriesIds = SeriesIds(inpc: SeriesId, ipcaE: SeriesId, selic: SeriesId)

  /** `buscarIdIndice`: the id of the table with that name, or an error. */
  function ResolveTable(tables: seq<IndexTable>, name: string): (r: Result<SeriesId, Error>)
    ensures r.Failure? <==> forall t | t in tables :: t.name != name
    ensures r.Failure? ==> r.error == SeriesNotFound(name)
    ensures r.Success? ==> exists t :: t in tables && t.name == name && t.id == r.value
  {
    match FindTableByName(tables, name)
    case None => Failure(SeriesNotFound(name))
    case Some(t) => Success(t.id)
  }

  /** INPC, IPCA_E and SELIC, looked up in that order. */
  function ResolveAll(tables: seq<IndexTable>): (r: Result<SeriesIds, Error>)
    ensures r.Success? <==>
      ResolveTable(tables, InpcTable).Success? && ResolveTable(tables, IpcaETable).Success? &&
      ResolveTable(tables, SelicTable).Success?
    ensures r.Failure? ==>
      r.error == (if ResolveTable(tables, InpcTable).Failure? then SeriesNotFound(InpcTable)
                  else if ResolveTable(tables, IpcaETable).Failure? then SeriesNotFound(IpcaETable)
                  else SeriesNotFound(SelicTable))
  {
    var inpc :- ResolveTable(tables, InpcTable);
    var ipcaE :- ResolveTable(tables, IpcaETable);
    var selic :- ResolveTable(tables, SelicTable);
    Success(SeriesIds(inpc, ipcaE, selic))
  }

  /** The value of a series in exactly month c, as the one-month range query
      returns it. */
  function PointOfMonth(store: Store, s: SeriesId, c: Competence): (r: Option<real>)
    ensures r == if PointKey(s, c) in store then Some(store[PointKey(s, c)].value) else None
  {
    var pts := PointsInRange(store, s, c, c);
    SingleMonthRange(store, s, c);
    if |pts| > 0 then Some(pts[0].value) else None
  }

  /** What the loop carries from month to month: the corrected value (not
      rounded again) and the last value seen of each series. */
  datatype FoldState = FoldState(carried: real, lastInpc: Option<real>, lastIpcaE: Option<real>, lastSelic: Option<real>)

  /** A month's correction by one series, before interest. */
  datatype Chained = Chained(corrected: real, variation: Option<real>)

  /** The month-over-month change implied by a ratio, in percent to four decimals. */
  function RatioChange(ratio: real): real {
    RoundHalfUp((ratio - 1.0) * 100.0, 4)
  }

  /** `calcularMesIndice`: with this month's point and a positive last value
      of the series, the carried value times their ten-decimal ratio, to
      cents; otherwise the carried value, with no variation. */
  function ChainMonth(carried: real, current: Option<real>, last: Option<real>): (r: Chained)
    ensures current.None? || last.None? || last.value <= 0.0 ==> r == Chained(carried, None)
    ensures current.Some? && last.Some? && last.value > 0.0 ==>
      var ratio := Correction.Factor(last.value, current.value);
      r == Chained(Correction.Apply(carried, ratio), Some(RatioChange(ratio)))
  {
    if current.Some? && last.Some? && last.value > 0.0 then
      var ratio := Correction.Factor(last.value, current.value);
      Chained(Correction.Apply(carried, ratio), Some(RatioChange(ratio)))
    else Chained(carried, None)
  }

  /** The months counted for interest: MONTHS from the start month to this
      month, plus one. */
  function MonthsCounted(start: Date, c: Competence): int {
    MonthsBetween(FirstDay(CompetenceOf(start)), FirstDay(c)) + 1
  }

  /** Counting from the start month, this month is the n-th. */
  lemma MonthsCountedIsOrdinal(start: Date, c: Competence)
    requires c >= CompetenceOf(start)
    ensures MonthsCounted(start, c) == c - CompetenceOf(start) + 1
  {
    MonthsBetweenCountsWholeMonths(FirstDay(CompetenceOf(start)), FirstDay(c));
  }

  /** The monthly rate for the INPC and IPCA-E regimes. */
  function InterestRateFor(c: Competence): real {
    if c < SavingsRateFrom then FullRatePercent else SavingsRatePercent
  }

  /** `calcularJurosSimplificado`: the monthly interest round10(corrected ×
      rate / 100) times the months counted, to cents; none for no months. */
  function SimplifiedInterest(corrected: real, ratePercent: real, months: int): (r: real)
    ensures months <= 0 ==> r == 0.0
    ensures months > 0 && corrected >= 0.0 && ratePercent >= 0.0 ==> r >= 0.0
  {
    if months <= 0 then 0.0
    else
      var monthly := MonthlyInterest(corrected, ratePercent);
      assert corrected >= 0.0 && ratePercent >= 0.0 ==> corrected * ratePercent / 100.0 >= 0.0;
      assert monthly >= 0.0 ==> Times(monthly, months) >= 0.0;
      RoundHalfUp(Times(monthly, months), 2)
  }

  /** One month's interest at a percentage, to ten decimals. */
  function MonthlyInterest(corrected: real, ratePercent: real): real {
    RoundHalfUp(corrected * ratePercent / 100.0, 10)
  }

  /** An amount times a count of months. */
  function Times(a: real, months: int): real {
    a * (months as real)
  }

  /** The EC 136/2025 interest: 2% a year on the principal, simple, over the
      months counted, to cents. */
  function AnnualInterest(principal: real, months: int): (r: real)
    ensures principal >= 0.0 && months >= 0 ==> r >= 0.0
  {
    var yearly := MonthlyInterest(principal, AnnualRatePercent);
    assert principal >= 0.0 ==> principal * AnnualRatePercent / 100.0 >= 0.0;
    assert yearly >= 0.0 && months >= 0 ==> Times(yearly, months) / 12.0 >= 0.0;
    RoundHalfUp(Times(yearly, months) / 12.0, 2)
  }

  /** Counting more months never gives less interest, under either rule. */
  lemma InterestGrowsWithMonths(corrected: real, ratePercent: real, principal: real, n1: int, n2: int)
    requires corrected >= 0.0 && ratePercent >= 0.0 && principal >= 0.0 && 0 < n1 <= n2
    ensures SimplifiedInterest(corrected, ratePercent, n1) <= SimplifiedInterest(corrected, ratePercent, n2)
    ensures AnnualInterest(principal, n1) <= AnnualInterest(principal, n2)
  {
    SimplifiedGrows(corrected, ratePercent, n1, n2);
    AnnualGrows(principal, n1, n2);
  }

  lemma SimplifiedGrows(corrected: real, ratePercent: real, n1: int, n2: int)
    requires corrected >= 0.0 && ratePercent >= 0.0 && 0 < n1 <= n2
    ensures SimplifiedInterest(corrected, ratePercent, n1) <= SimplifiedInterest(corrected, ratePercent, n2)
  {
    assert corrected * ratePercent / 100.0 >= 0.0;
    var monthly := MonthlyInterest(corrected, ratePercent);
    TimesGrows(monthly, n1, n2);
    RoundMonotone(Times(monthly, n1), Times(monthly, n2), 2);
  }

  lemma AnnualGrows(principal: real, n1: int, n2: int)
    requires principal >= 0.0 && 0 < n1 <= n2
    ensures AnnualInterest(principal, n1) <= AnnualInterest(principal, n2)
  {
    assert principal * AnnualRatePercent / 100.0 >= 0.0;
    var yearly := MonthlyInterest(principal, AnnualRatePercent);
    TimesGrows(yearly, n1, n2);
    DivMonotone(Times(yearly, n1), Times(yearly, n2), 12.0);
    RoundMonotone(Times(yearly, n1) / 12.0, Times(yearly, n2) / 12.0, 2);
  }

  lemma TimesGrows(a: real, n1: int, n2: int)
    requires a >= 0.0 && n1 <= n2
    ensures Times(a, n1) <= Times(a, n2)
  {
    assert Times(a, n2) - Times(a, n1) == a * ((n2 - n1) as real);
  }

  /** R$ 10,000.00 over twelve months: 1% a month gives 1,200.00, the
      savings rate of 0.5% gives 600.00, and 2% a year gives 200.00. */
  lemma InterestRulesExample()
    ensures SimplifiedInterest(10000.0, FullRatePercent, 12) == 1200.0
    ensures SimplifiedInterest(10000.0, SavingsRatePercent, 12) == 600.0
    ensures AnnualInterest(10000.0, 12) == 200.0
  {
    RoundHalfUpIs(10000.0 * FullRatePercent / 100.0, 10, 1000000000000);
    RoundHalfUpIs(100.0 * 12.0, 2, 120000);
    RoundHalfUpIs(10000.0 * SavingsRatePercent / 100.0, 10, 500000000000);
    RoundHalfUpIs(50.0 * 12.0, 2, 60000);
    RoundHalfUpIs(10000.0 * AnnualRatePercent / 100.0, 10, 2000000000000);
    RoundHalfUpIs(200.0 * 12.0 / 12.0, 2, 20000);
  }

  /** `calcularValorSelic`: the principal corrected by SELIC from the start
      date to the last day of the month; a failed correction gives none. */
  function SelicValue(store: Store, ids: SeriesIds, principal: real, start: Date, c: Competence): (r: Option<real>)
    ensures r.Some? <==> Correction.Calculate(store, principal, start, LastDay(c), ids.selic).Success?
    ensures r.Some? ==> r.value == Correction.Calculate(store, principal, start, LastDay(c), ids.selic).value
  {
    Correction.Calculate(store, principal, start, LastDay(c), ids.selic).ToOption()
  }

  /** The unrounded figures of one month and the state for the next. */
  datatype Month = Month(
    indexName: string,
    index: Option<real>,
    variation: Option<real>,
    corrected: real,
    interest: real,
    next: FoldState)

  /** INPC or IPCA-E month: chained correction by the series, then simple
      interest on this month's corrected value; the series' tracker becomes
      this month's point, even when there is none. */
  function IndexMonth(store: Store, ids: SeriesIds, byInpc: bool, start: Date, st: FoldState, c: Competence): (m: Month)
    ensures var s := if byInpc then ids.inpc else ids.ipcaE;
      m.index == PointOfMonth(store, s, c)
    ensures var last := if byInpc then st.lastInpc else st.lastIpcaE;
      && m.corrected == ChainMonth(st.carried, m.index, last).corrected
      && m.variation == ChainMonth(st.carried, m.index, last).variation
    ensures m.interest == SimplifiedInterest(m.corrected, InterestRateFor(c), MonthsCounted(start, c))
    ensures m.indexName == if byInpc then "INPC" else "IPCA-E"
    ensures m.next == if byInpc then st.(carried := m.corrected, lastInpc := m.index)
                      else st.(carried := m.corrected, lastIpcaE := m.index)
  {
    var current := PointOfMonth(store, if byInpc then ids.inpc else ids.ipcaE, c);
    var chained := ChainMonth(st.carried, current, if byInpc then st.lastInpc else st.lastIpcaE);
    var interest := SimplifiedInterest(chained.corrected, InterestRateFor(c), MonthsCounted(start, c));
    var next := if byInpc then st.(carried := chained.corrected, lastInpc := current)
                else st.(carried := chained.corrected, lastIpcaE := current);
    Month(if byInpc then "INPC" else "IPCA-E", current, chained.variation, chained.corrected, interest, next)
  }

  /** SELIC month: the principal corrected by SELIC up to the month's end (or
      the carried value if that fails), no separate interest; the SELIC point
      of the month only feeds the variation figure. */
  function SelicMonth(store: Store, ids: SeriesIds, principal: real, start: Date, st: FoldState, c: Competence): (m: Month)
    ensures m.interest == 0.0 && m.indexName == "SELIC"
    ensures m.corrected == SelicValue(store, ids, principal, start, c).GetOr(st.carried)
    ensures m.index == PointOfMonth(store, ids.selic, c)
    ensures m.next.lastIpcaE == st.lastIpcaE && m.next.lastInpc == st.lastInpc
    ensures m.next.lastSelic == if m.index.Some? then m.index else st.lastSelic
    ensures m.next.carried == m.corrected
  {
    var corrected := SelicValue(store, ids, principal, start, c).GetOr(st.carried);
    var current := PointOfMonth(store, ids.selic, c);
    var variation :=
      if current.Some? && st.lastSelic.Some? && st.lastSelic.value > 0.0 then
        Some(PercentChange(st.lastSelic.value, current.value))
      else None;
    var lastSelic := if current.Some? then current else st.lastSelic;
    Month("SELIC", current, variation, corrected, 0.0, st.(carried := corrected, lastSelic := lastSelic))
  }

  /** IPCA month under EC 136/2025: chained correction by the IPCA-E series
      plus 2% a year; when the SELIC correction exists and is lower than
      both together, it replaces them ("SELIC (Teto)"). */
  function CappedMonth(store: Store, ids: SeriesIds, principal: real, start: Date, st: FoldState, c: Competence): (m: Month)
    ensures var ipca := IndexMonthCapped(store, ids, principal, start, st, c);
      var selic := SelicValue(store, ids, principal, start, c);
      && (selic.Some? && ipca.corrected + ipca.interest > selic.value ==>
            m.corrected == selic.value && m.interest == 0.0 && m.indexName == "SELIC (Teto)")
      && (selic.None? || ipca.corrected + ipca.interest <= selic.value ==>
            m.corrected == ipca.corrected && m.interest == ipca.interest && m.indexName == "IPCA")
    ensures m.index == PointOfMonth(store, ids.ipcaE, c)
    ensures m.next.lastIpcaE == m.index && m.next.lastInpc == st.lastInpc && m.next.lastSelic == st.lastSelic
    ensures m.next.carried == m.corrected
  {
    var ipca := IndexMonthCapped(store, ids, principal, start, st, c);
    var selic := SelicValue(store, ids, principal, start, c);
    var capped := selic.Some? && ipca.corrected + ipca.interest > selic.value;
    var corrected := if capped then selic.value else ipca.corrected;
    Month(if capped then "SELIC (Teto)" else "IPCA", ipca.index, ipca.variation, corrected,
      if capped then 0.0 else ipca.interest,
      st.(carried := corrected, lastIpcaE := ipca.index))
  }

  /** The uncapped part of an EC 136/2025 month. */
  function IndexMonthCapped(store: Store, ids: SeriesIds, principal: real, start: Date, st: FoldState, c: Competence): (m: Month)
    ensures m.index == PointOfMonth(store, ids.ipcaE, c)
    ensures m.corrected == ChainMonth(st.carried, m.index, st.lastIpcaE).corrected
    ensures m.variation == ChainMonth(st.carried, m.index, st.lastIpcaE).variation
    ensures m.interest == AnnualInterest(principal, MonthsCounted(start, c))
  {
    var current := PointOfMonth(store, ids.ipcaE, c);
    var chained := ChainMonth(st.carried, current, st.lastIpcaE);
    Month("IPCA", current, chained.variation, chained.corrected, AnnualInterest(principal, MonthsCounted(start, c)),
      st.(carried := chained.corrected, lastIpcaE := current))
  }

  /** One month of the loop under the regime in force. The tracker of the
      series read is overwritten with this month's point even when there is
      none; SELIC months leave the INPC and IPCA-E trackers untouched. */
  function Step(store: Store, ids: SeriesIds, principal: real, start: Date, st: FoldState, c: Competence): (m: Month)
    ensures m.next.carried == m.corrected
    ensures RegimeFor(c) == Selic ==> m.interest == 0.0 && m.next.lastIpcaE == st.lastIpcaE && m.next.lastInpc == st.lastInpc
    ensures RegimeFor(c) == IpcaE ==> m.next.lastIpcaE == m.index && m.index == PointOfMonth(store, ids.ipcaE, c)
    ensures RegimeFor(c) == Inpc ==> m.next.lastInpc == m.index && m.index == PointOfMonth(store, ids.inpc, c)
  {
    match RegimeFor(c)
    case Inpc => IndexMonth(store, ids, true, start, st, c)
    case IpcaE => IndexMonth(store, ids, false, start, st, c)
    case Selic => SelicMonth(store, ids, principal, start, st, c)
    case IpcaCapped => CappedMonth(store, ids, principal, start, st, c)
  }

  /** The factor of a corrected value over the principal, to six decimals;
      1 for a principal that is not positive. */
  function FactorOver(corrected: real, principal: real): real {
    if principal > 0.0 then RoundHalfUp(corrected / principal, 6) else 1.0
  }

  /** The breakdown row of a month: the figures rounded to cents. */
  function Entry(principal: real, c: Competence, m: Month): (e: MonthlyEntry)
    ensures e.competence == c && e.indexName == Some(m.indexName) && e.index == m.index && e.variation == m.variation
    ensures e.corrected == RoundHalfUp(m.corrected, 2) && e.interest == RoundHalfUp(m.interest, 2)
    ensures e.subtotal == RoundHalfUp(m.corrected + m.interest, 2)
  {
    MonthlyEntry(c, Some(m.indexName), m.index, m.variation, FactorOver(m.corrected, principal),
      RoundHalfUp(m.corrected, 2), RoundHalfUp(m.interest, 2), RoundHalfUp(m.corrected + m.interest, 2))
  }

  /** The loop body: the month under its regime and its breakdown row. */
  function MonthStep(store: Store, ids: SeriesIds, principal: real, start: Date): (f: (FoldState, int) -> (FoldState, MonthlyEntry))
  {
    (st: FoldState, c: int) =>
      var m := Step(store, ids, principal, start, st, c);
      (m.next, Entry(principal, c, m))
  }

  /** The state the loop starts from: the principal, no series seen yet. */
  function InitialState(principal: real): FoldState {
    FoldState(principal, None, None, None)
  }

  /** `gerarDetalhamentoMensal` of the treasury flow: one row per month from
      the start month to the end month. */
  function Breakdown(store: Store, ids: SeriesIds, principal: real, start: Date, end: Date): (r: seq<MonthlyEntry>)
    ensures |r| == if CompetenceOf(start) <= CompetenceOf(end) then CompetenceOf(end) - CompetenceOf(start) + 1 else 0
    ensures forall i | 0 <= i < |r| :: r[i].competence == CompetenceOf(start) + i
  {
    var step := MonthStep(store, ids, principal, start);
    var r := Loops.MonthLoop(step, InitialState(principal), CompetenceOf(start), CompetenceOf(end)).items;
    forall i | 0 <= i < |r|
      ensures r[i].competence == CompetenceOf(start) + i
    {
      Loops.ItemIsStepFromState(step, InitialState(principal), CompetenceOf(start), CompetenceOf(end), i);
    }
    r
  }

  /** Row k of the breakdown is what the loop body emits for month start + k
      from the state the earlier months left: the corrected value and series
      values carried from the month before, and nothing else. */
  lemma RowIsStepFromCarriedState(store: Store, ids: SeriesIds, principal: real, start: Date, end: Date, k: nat)
    requires CompetenceOf(start) + k <= CompetenceOf(end)
    ensures Breakdown(store, ids, principal, start, end)[k] ==
      MonthStep(store, ids, principal, start)(StateBefore(store, ids, principal, start, k), CompetenceOf(start) + k).1
  {
    var step := MonthStep(store, ids, principal, start);
    Loops.ItemIsStepFromState(step, InitialState(principal), CompetenceOf(start), CompetenceOf(end), k);
    assert StateBefore(store, ids, principal, start, k) == Loops.StateAt(step, InitialState(principal), CompetenceOf(start), k);
    assert Breakdown(store, ids, principal, start, end) ==
      Loops.MonthLoop(step, InitialState(principal), CompetenceOf(start), CompetenceOf(end)).items;
  }

  /** The state the loop enters month start + k with. */
  function StateBefore(store: Store, ids: SeriesIds, principal: real, start: Date, k: nat): FoldState {
    Loops.StateAt(MonthStep(store, ids, principal, start), InitialState(principal), CompetenceOf(start), k)
  }

  /** One application of the loop body emits the month's row and hands on the month's state. */
  lemma MonthStepEmitsEntry(store: Store, ids: SeriesIds, principal: real, start: Date, st: FoldState, c: int)
    ensures var m := Step(store, ids, principal, start, st, c);
      MonthStep(store, ids, principal, start)(st, c) == (m.next, Entry(principal, c, m))
  {
  }

  /** Each month after the first is entered with the previous month's
      unrounded corrected value. */
  lemma CarriedIsPreviousCorrected(store: Store, ids: SeriesIds, principal: real, start: Date, k: nat)
    ensures StateBefore(store, ids, principal, start, k + 1).carried ==
      Step(store, ids, principal, start, StateBefore(store, ids, principal, start, k), CompetenceOf(start) + k).corrected
  {
    var step := MonthStep(store, ids, principal, start);
    var c := CompetenceOf(start) + k;
    var before := StateBefore(store, ids, principal, start, k);
    Loops.StateAtStep(step, InitialState(principal), CompetenceOf(start), k);
    assert StateBefore(store, ids, principal, start, k + 1) == step(before, c).0;
    MonthStepHandsOn(store, ids, principal, start, before, c);
    var m := Step(store, ids, principal, start, before, c);
    assert StateBefore(store, ids, principal, start, k + 1) == m.next;
    assert m.next.carried == m.corrected;
  }

  /** The loop body hands the month's state on to the next month. */
  lemma MonthStepHandsOn(store: Store, ids: SeriesIds, principal: real, start: Date, st: FoldState, c: int)
    ensures MonthStep(store, ids, principal, start)(st, c).0 == Step(store, ids, principal, start, st, c).next
  {
  }

  /** The overall change of a factor above 1, in percent to four decimals
      (half up), so a positive number within half a unit of the fourth
      decimal of the exact change. */
  function FactorChange(factor: real): (r: Option<real>)
    ensures r.Some? <==> factor > 1.0
    ensures r.Some? ==> r.value == RoundHalfUp((factor - 1.0) * 100.0, 4)
    ensures r.Some? ==>
      && HasScale(r.value, 4) && r.value >= 0.0
      && (factor - 1.0) * 100.0 - 0.5 / Scale(4) <= r.value <= (factor - 1.0) * 100.0 + 0.5 / Scale(4)
  {
    if factor > 1.0 then
      RoundHalfUpFacts((factor - 1.0) * 100.0, 4);
      Some(RoundHalfUp((factor - 1.0) * 100.0, 4))
    else None
  }

  /** `FazendaPublicaCalculoService.calcular`: totals from the last row (the
      principal and no interest when there is none), then the standard
      penalty, fee and total; there are never instalment rows. */
  function Calculate(store: Store, tables: seq<IndexTable>, req: Request): (r: Result<CalculationResult, Error>)
    ensures r.Failure? <==> ResolveAll(tables).Failure?
    ensures r.Failure? ==> r.error == ResolveAll(tables).error
    ensures r.Success? ==>
      r.value == Totals(req, Breakdown(store, ResolveAll(tables).value, req.principal, req.start, req.end))
  {
    var ids :- ResolveAll(tables);
    Success(Totals(req, Breakdown(store, ids, req.principal, req.start, req.end)))
  }

  /** The result of a run over its breakdown rows: corrected value and
      interest from the last row (the principal and no interest when there is
      none), penalty and fee charged on their sum, the factor of the
      corrected value over the principal and its change in percent. */
  function Totals(req: Request, rows: seq<MonthlyEntry>): (r: CalculationResult)
    ensures r.breakdown == rows && r.installments == [] && r.original == req.principal
    ensures |rows| == 0 ==> r.corrected == req.principal && r.interest == 0.0
    ensures |rows| > 0 ==> r.corrected == rows[|rows| - 1].corrected && r.interest == rows[|rows| - 1].interest
    ensures Charges(r.penalty, r.fee, r.total) == ApplyCharges(r.corrected + r.interest, req.penaltyPercent, req.feePercent)
    ensures r.total == r.corrected + r.interest + r.penalty + r.fee
    ensures r.factor == FactorOver(r.corrected, req.principal)
    ensures r.periodVariation == FactorChange(r.factor)
    ensures r.periodVariation.Some? <==> r.factor > 1.0
  {
    var corrected := if |rows| > 0 then rows[|rows| - 1].corrected else req.principal;
    var interest := if |rows| > 0 then rows[|rows| - 1].interest else 0.0;
    var charges := ApplyCharges(corrected + interest, req.penaltyPercent, req.feePercent);
    var factor := FactorOver(corrected, req.principal);
    CalculationResult(req.principal, corrected, interest, charges.penalty, charges.fee, charges.total,
      factor, FactorChange(factor), [], rows)
  }

  /** Under EC 136/2025 the month's corrected value plus interest is the
      smaller of IPCA plus interest and the SELIC correction, when there is one. */
  lemma CeilingIsMinimum(store: Store, ids: SeriesIds, principal: real, start: Date, st: FoldState, c: Competence)
    requires RegimeFor(c) == IpcaCapped
    ensures var m := Step(store, ids, principal, start, st, c);
      var ipca := IndexMonthCapped(store, ids, principal, start, st, c);
      var selic := SelicValue(store, ids, principal, start, c);
      && (selic.None? ==> m.corrected + m.interest == ipca.corrected + ipca.interest)
      && (selic.Some? ==> m.corrected + m.interest == Min(ipca.corrected + ipca.interest, selic.value))
      && (selic.Some? ==> m.corrected + m.interest <= selic.value)
  {
  }

  function Min(a: real, b: real): real {
    if a <= b then a else b
  }

  /** A month without its own point, or after a month without one, is not
      corrected: it keeps the carried value and reports no variation. */
  lemma MissingPointKeepsCarried(store: Store, ids: SeriesIds, principal: real, start: Date, st: FoldState, c: Competence)
    requires RegimeFor(c) == IpcaE
    requires PointKey(ids.ipcaE, c) !in store || st.lastIpcaE.None?
    ensures Step(store, ids, principal, start, st, c).corrected == st.carried
    ensures Step(store, ids, principal, start, st, c).variation.None?
    ensures PointKey(ids.ipcaE, c) !in store ==> Step(store, ids, principal, start, st, c).next.lastIpcaE.None?
  {
  }

  /** A series that did not fall never lowers the carried value of an
      IPCA-E month when that value is in cents. */
  lemma ChainedCorrectionNeverLowers(carried: real, current: real, last: real)
    requires carried > 0.0 && HasScale(carried, 2) && 0.0 < last <= current
    ensures ChainMonth(carried, Some(current), Some(last)).corrected >= carried
  {
    Correction.FactorAtLeastOne(last, current);
    Correction.ApplyAtLeast(carried, Correction.Factor(last, current));
  }
}
