/** `CalculoService.preview`: validate the request, then run the
    public-treasury flow for FAZENDA_PUBLICA requests and the standard flow
    for the rest. */
module Preview {
  import opened Wrappers
  import opened Calendar
  import opened Errors
  import opened IndexStore
  import opened Calculation
  import Standard
  import Treasury

  function Run(store: Store, tables: seq<IndexTable>, req: Request): (r: Result<CalculationResult, Error>)
    ensures Standard.Validate(req).Failure? ==> r == Failure(Standard.Validate(req).error)
    ensures Standard.Validate(req).Success? && req.kind == PublicTreasury ==> r == Treasury.Calculate(store, tables, req)
    ensures Standard.Validate(req).Success? && req.kind != PublicTreasury ==> r == Standard.Execute(store, tables, req)
  {
    var _ :- Standard.Validate(req);
    if req.kind == PublicTreasury then Treasury.Calculate(store, tables, req)
    else Standard.Execute(store, tables, req)
  }

  /** A start date after the end date is refused whatever the kind of
      calculation, before any index is read. */
  lemma ReversedPeriodIsRefused(store: Store, tables: seq<IndexTable>, req: Request)
    requires IsBefore(req.end, req.start)
    ensures Run(store, tables, req) == Failure(InvalidDateRange)
  {
  }

  /** A public-treasury preview that succeeds has one breakdown row for every
      month from the start month to the end month, so at least one. */
  lemma TreasuryPreviewCoversEveryMonth(store: Store, tables: seq<IndexTable>, req: Request)
    requires req.kind == PublicTreasury && Run(store, tables, req).Success?
    ensures var rows := Run(store, tables, req).value.breakdown;
      && |rows| == CompetenceOf(req.end) - CompetenceOf(req.start) + 1
      && forall i | 0 <= i < |rows| :: rows[i].competence == CompetenceOf(req.start) + i
  {
  }
}
