/** The request and result records shared by both calculation flows
    (`CalculoRequest`, `ResultadoCalculoResponse`,
    `ResultadoParcelaResponse`, `DetalhamentoMensalResponse`) and the
    penalty, fee and total arithmetic both flows apply to a subtotal. */
module Calculation {
  import opened Wrappers
  import opened Decimal
  import opened Calendar
  import opened IndexStore
  import opened Interest

  /** `TipoCalculo` */
  datatype CalculationKind = Standard | PublicTreasury

  /** One instalment of the debt (`ParcelaRequest`); `seriesOverride` replaces
      the request's index table for this instalment. */
  datatype Installment = Installment(
    description: string,
    amount: real,
    dueDate: Date,
    seriesOverride: Option<SeriesId>)

  /** `CalculoRequest`. Rates and percentages are in percent; an absent one
      is 0, since every use of them first asks whether it is positive. */
  datatype Request = Request(
    kind: CalculationKind,
    principal: real,
    start: Date,
    end: Date,
    series: Option<SeriesId>,
    interestKind: InterestKind,
    ratePercent: real,
    periodicity: Periodicity,
    penaltyPercent: real,
    feePercent: real,
    interestOnCorrected: bool,
    installments: seq<Installment>)

  /** `ResultadoParcelaResponse` */
  datatype InstallmentResult = InstallmentResult(
    description: string,
    original: real,
    dueDate: Date,
    corrected: real,
    interest: real,
    subtotal: real,
    interestMonths: int,
    indexName: Option<string>)

  /** `DetalhamentoMensalResponse`: one month of the breakdown. */
  datatype MonthlyEntry = MonthlyEntry(
    competence: Competence,
    indexName: Option<string>,
    index: Option<real>,
    variation: Option<real>,
    cumulativeFactor: real,
    corrected: real,
    interest: real,
    subtotal: real)

  /** `ResultadoCalculoResponse` without its wall-clock timestamp. */
  datatype CalculationResult = CalculationResult(
    original: real,
    corrected: real,
    interest: real,
    penalty: real,
    fee: real,
    total: real,
    factor: real,
    periodVariation: Option<real>,
    installments: seq<InstallmentResult>,
    breakdown: seq<MonthlyEntry>)

  /** Month-over-month change of an index in percent: the relative change to
      six decimals, times 100, to four decimals. */
  function PercentChange(previous: real, current: real): real
    requires previous != 0.0
  {
    RoundHalfUp(RoundHalfUp((current - previous) / previous, 6) * 100.0, 4)
  }

  /** `pct`% of a base, to cents, when the percentage is positive; else 0. */
  function Percentage(base: real, pct: real): real {
    if pct > 0.0 then RoundHalfUp(base * pct / 100.0, 2) else 0.0
  }

  datatype Charges = Charges(penalty: real, fee: real, total: real)

  /** Penalty on the subtotal, fee on subtotal plus penalty, and the total of
      the three. */
  function ApplyCharges(subtotal: real, penaltyPercent: real, feePercent: real): (c: Charges)
    ensures c.total == subtotal + c.penalty + c.fee
    ensures penaltyPercent <= 0.0 ==> c.penalty == 0.0
    ensures feePercent <= 0.0 ==> c.fee == 0.0
    ensures subtotal >= 0.0 && penaltyPercent >= 0.0 && feePercent >= 0.0 ==>
      c.penalty >= 0.0 && c.fee >= 0.0 && c.total >= subtotal
  {
    var penalty := Percentage(subtotal, penaltyPercent);
    var fee := Percentage(subtotal + penalty, feePercent);
    assert subtotal >= 0.0 && penaltyPercent > 0.0 ==> subtotal * penaltyPercent / 100.0 >= 0.0;
    assert subtotal + penalty >= 0.0 && feePercent > 0.0 ==> (subtotal + penalty) * feePercent / 100.0 >= 0.0;
    Charges(penalty, fee, subtotal + penalty + fee)
  }

  /** The penalty is the percentage of the subtotal and the fee that of
      subtotal plus penalty, each within half a cent. */
  lemma ChargesWithinHalfCent(subtotal: real, penaltyPercent: real, feePercent: real)
    requires penaltyPercent > 0.0 && feePercent > 0.0
    ensures var c := ApplyCharges(subtotal, penaltyPercent, feePercent);
      && Share(subtotal, penaltyPercent) - 0.005 <= c.penalty <= Share(subtotal, penaltyPercent) + 0.005
      && Share(subtotal + c.penalty, feePercent) - 0.005 <= c.fee <= Share(subtotal + c.penalty, feePercent) + 0.005
  {
    var c := ApplyCharges(subtotal, penaltyPercent, feePercent);
    var penalty := Percentage(subtotal, penaltyPercent);
    assert c.penalty == penalty;
    PercentageWithinHalfCent(subtotal, penaltyPercent);
    assert c.fee == Percentage(subtotal + penalty, feePercent);
    PercentageWithinHalfCent(subtotal + penalty, feePercent);
  }

  /** A positive percentage, to cents, is within half a cent of the exact share. */
  lemma PercentageWithinHalfCent(base: real, pct: real)
    requires pct > 0.0
    ensures Share(base, pct) - 0.005 <= Percentage(base, pct) <= Share(base, pct) + 0.005
  {
    CentWithinHalfCent(base * pct / 100.0);
  }

  /** The exact `pct`% of a base. */
  function Share(base: real, pct: real): real {
    base * pct / 100.0
  }

  /** Rounding to cents moves a value by at most half a cent. */
  lemma CentWithinHalfCent(x: real)
    ensures x - 0.005 <= RoundHalfUp(x, 2) <= x + 0.005
  {
    assert Scale(2) == 100.0;
    RoundHalfUpFacts(x, 2);
  }
}
