/** Synchronisation of cumulative index series from the central bank's
    time-series service (`IndicesSyncService`). The service answers monthly
    percentage variations; the sync turns them into a cumulative index
    (starting from the last stored value, or 1000) and upserts one point per
    month. The download itself is a parameter: `fetch` maps a series code to
    the points it returns or to the reason it failed. */
module Sync {
  import opened Wrappers
  import opened Decimal
  import opened Calendar
  import opened Errors
  import opened IndexStore

  /** The central bank series code of each table name that can be synced. */
  const SeriesCodes: map<string, string> :=
    map["IPCA_E" := "10764", "INPC" := "188", "IGPM" := "189", "TR" := "226", "SELIC" := "4390"]

  /** The cumulative index a series starts from when nothing is stored
      before the period. */
  const BaseIndex: real := 1000.0

  /** One month of the downloaded series: its competence and the monthly
      variation in percent. */
  datatype DataPoint = DataPoint(competence: Competence, variation: real)

  /** The messages a sync reports. */
  datatype Message =
    | NoData                        // "Nenhum dado retornado pela API do BCB"
    | PointFailed(competence: Competence) // "Erro ao processar ponto: …"
    | TableFailed(error: Error)     // "Erro: …" from the sync of all tables

  /** `SyncResult`: points inserted, points updated, messages. */
  datatype SyncResult = SyncResult(imported: nat, updated: nat, errors: seq<Message>)

  /** A result together with the store the sync leaves. */
  datatype Synced = Synced(result: SyncResult, store: Store)

  /** The downloader: a series code to its points, or why it failed. */
  type Fetch = string -> Result<seq<DataPoint>, string>

  /** The competence of the day before the period starts; stored
      competences are first days, so "at or before that day" is "at or
      before that competence". */
  function StartBound(start: Date): Competence {
    CompetenceOf(PreviousDay(start))
  }

  /** A month's first day is at or before the day before `start` exactly
      when the month is at or before `StartBound(start)`. */
  lemma StartBoundIsDayBefore(start: Date, c: Competence)
    ensures c <= StartBound(start) <==> !IsBefore(PreviousDay(start), FirstDay(c))
  {
    var d := PreviousDay(start);
    assert FirstDay(c).day == 1 && d.day >= 1;
  }

  /** `obterUltimoIndiceAcumulado`: the value of the latest point of the
      series at or before the day before `start`, else 1000. */
  function StartingIndex(store: Store, s: SeriesId, start: Date): (r: real)
    ensures (forall m :: PointKey(s, m) in store ==> m > StartBound(start)) ==> r == BaseIndex
    ensures forall m | PointKey(s, m) in store && m <= StartBound(start)
              && (forall m' :: PointKey(s, m') in store && m' <= StartBound(start) ==> m' <= m)
              :: r == store[PointKey(s, m)].value
  {
    ValueAtOrBefore(store, s, StartBound(start)).GetOr(BaseIndex)
  }

  /** The monthly rate: the variation divided by 100 to 8 decimals. */
  function Rate(variation: real): real {
    RoundHalfUp(variation / 100.0, 8)
  }

  /** One month of accumulation: the index times (1 + rate), to 8 decimals. */
  function Next(index: real, variation: real): (r: real)
    ensures index >= 0.0 && variation >= 0.0 ==> r >= 0.0
  {
    GrowthFactor(index, Rate(variation));
    RoundHalfUp(Grow(index, Rate(variation)), 8)
  }

  function Grow(index: real, rate: real): real {
    index * (1.0 + rate)
  }

  lemma GrowthFactor(index: real, rate: real)
    ensures index >= 0.0 && rate >= 0.0 ==> Grow(index, rate) >= index
  {
  }

  /** A non-negative variation never lowers an index of 8 decimals, and an
      accumulated index always has 8 decimals. */
  lemma NextNeverFalls(index: real, variation: real)
    requires index >= 0.0 && variation >= 0.0 && HasScale(index, 8)
    ensures Next(index, variation) >= index
    ensures HasScale(Next(index, variation), 8)
  {
    var rate := Rate(variation);
    assert rate >= 0.0;
    GrowthFactor(index, rate);
    RoundNotBelow(Grow(index, rate), index, 8);
    RoundHalfUpFacts(Grow(index, rate), 8);
  }

  /** The index after each downloaded month, starting from `index`: each
      value is the previous one (or the starting index) advanced by that
      month's variation. */
  function Cumulative(index: real, points: seq<DataPoint>): (r: seq<real>)
    ensures |r| == |points|
    ensures |r| > 0 ==> r[0] == Next(index, points[0].variation)
    ensures forall k | 0 < k < |r| :: r[k] == Next(r[k - 1], points[k].variation)
    decreases |points|
  {
    if |points| == 0 then []
    else
      var first := Next(index, points[0].variation);
      var rest := Cumulative(first, points[1..]);
      var r := [first] + rest;
      assert forall k | 1 < k < |r| :: r[k] == Next(r[k - 1], points[k].variation) by {
        forall k | 1 < k < |r|
          ensures r[k] == Next(r[k - 1], points[k].variation)
        {
          assert r[k] == rest[k - 1] && r[k - 1] == rest[k - 2];
          assert points[k] == points[1..][k - 1];
        }
      }
      r
  }

  predicate NoFall(points: seq<DataPoint>) {
    forall k | 0 <= k < |points| :: points[k].variation >= 0.0
  }

  /** With non-negative variations the cumulative index never falls. */
  lemma {:induction false} CumulativeNeverFalls(index: real, points: seq<DataPoint>)
    requires index >= 0.0 && HasScale(index, 8) && NoFall(points)
    ensures forall k | 0 <= k < |points| :: Cumulative(index, points)[k] >= index
    decreases |points|
  {
    if |points| > 0 {
      var first := Next(index, points[0].variation);
      NextNeverFalls(index, points[0].variation);
      assert NoFall(points[1..]) by {
        forall k | 0 <= k < |points| - 1
          ensures points[1..][k].variation >= 0.0
        {
          assert points[1..][k] == points[k + 1];
        }
      }
      CumulativeNeverFalls(first, points[1..]);
      var r, rest := Cumulative(index, points), Cumulative(first, points[1..]);
      assert r == [first] + rest;
      forall k | 0 < k < |points|
        ensures r[k] >= index
      {
        assert r[k] == rest[k - 1];
      }
    }
  }

  /** With non-negative variations each month's index is at least the
      previous month's. */
  lemma CumulativeIsMonotone(index: real, points: seq<DataPoint>, k: nat)
    requires index >= 0.0 && HasScale(index, 8) && NoFall(points)
    requires 0 < k < |points|
    ensures Cumulative(index, points)[k] >= Cumulative(index, points)[k - 1]
  {
    var r := Cumulative(index, points);
    CumulativeNeverFalls(index, points);
    var before := if k == 1 then index else r[k - 2];
    RoundHalfUpFacts(Grow(before, Rate(points[k - 1].variation)), 8);
    NextNeverFalls(r[k - 1], points[k].variation);
  }

  /** From the base 1000, a month of 0.5% and then one of 0.42% give
      1005 and 1009.221. */
  lemma AccumulationExample(c: Competence)
    ensures Cumulative(BaseIndex, [DataPoint(c, 0.5), DataPoint(c + 1, 0.42)]) == [1005.0, 1009.221]
  {
    var s := Scale(8);
    assert s == 100000000.0 by {
      assert Scale(8) == 10.0 * Scale(7) == 100.0 * Scale(6) == 1000.0 * Scale(5) == 10000.0 * Scale(4);
      assert Scale(4) == 10.0 * Scale(3) == 100.0 * Scale(2) == 1000.0 * Scale(1) == 10000.0 * Scale(0);
    }
    RoundHalfUpIs(0.5 / 100.0, 8, 500000);
    RoundHalfUpIs(0.42 / 100.0, 8, 420000);
    assert Rate(0.5) == 0.005 && Rate(0.42) == 0.0042;
    RoundHalfUpIs(Grow(1000.0, 0.005), 8, 100500000000);
    RoundHalfUpIs(Grow(1005.0, 0.0042), 8, 100922100000);
    assert Next(1000.0, 0.5) == 1005.0;
    assert Next(1005.0, 0.42) == 1009.221;
  }

  /** The loop over the downloaded points: each is upserted into series s
      with its cumulative value and the API_BCB source, counted as updated
      when the point existed and as imported otherwise. A point whose save
      fails (its key is in `rejected`) is reported and left out; the index
      has already advanced past it. */
  function StorePoints(store: Store, s: SeriesId, points: seq<DataPoint>, values: seq<real>, rejected: set<PointKey>): (r: Synced)
    requires |values| == |points|
    ensures r.result.imported + r.result.updated + |r.result.errors| == |points|
    ensures store.Keys <= r.store.Keys
    ensures |r.store.Keys| == |store.Keys| + r.result.imported
    decreases |points|
  {
    if |points| == 0 then Synced(SyncResult(0, 0, []), store)
    else
      var key := PointKey(s, points[0].competence);
      if key in rejected then
        var rest := StorePoints(store, s, points[1..], values[1..], rejected);
        rest.(result := rest.result.(errors := [PointFailed(points[0].competence)] + rest.result.errors))
      else
        var up := Upsert(store, key, values[0], ApiBcb);
        var rest := StorePoints(up.store, s, points[1..], values[1..], rejected);
        if up.existed then
          assert up.store.Keys == store.Keys;
          rest.(result := rest.result.(updated := rest.result.updated + 1))
        else
          assert |up.store.Keys| == |store.Keys| + 1 by {
            assert up.store.Keys == store.Keys + {key} && key !in store.Keys;
          }
          rest.(result := rest.result.(imported := rest.result.imported + 1))
  }

  /** Points of other series are neither added nor changed, and every point
      that changed now carries the API_BCB source. */
  lemma {:induction false} StoreTouchesOnlyItsSeries(store: Store, s: SeriesId, points: seq<DataPoint>, values: seq<real>, rejected: set<PointKey>)
    requires |values| == |points|
    ensures var r := StorePoints(store, s, points, values, rejected).store;
      KeepsOtherSeries(store, r, s) && ChangesCarry(store, r, ApiBcb)
    decreases |points|
  {
    if |points| > 0 {
      var next := StorePoints(store, s, points, values, rejected).store;
      var key := PointKey(s, points[0].competence);
      if key in rejected {
        StoreTouchesOnlyItsSeries(store, s, points[1..], values[1..], rejected);
        assert next == StorePoints(store, s, points[1..], values[1..], rejected).store;
      } else {
        var up := Upsert(store, key, values[0], ApiBcb);
        StoreTouchesOnlyItsSeries(up.store, s, points[1..], values[1..], rejected);
        assert next == StorePoints(up.store, s, points[1..], values[1..], rejected).store;
        UpsertTouchesOnlyItsKey(store, key, values[0], ApiBcb);
        ChangesCompose(store, up.store, next, s, ApiBcb);
      }
    }
  }

  /** The value the last accepted point for competence c carries, if any. */
  function LastAccepted(s: SeriesId, points: seq<DataPoint>, values: seq<real>, rejected: set<PointKey>, c: Competence): Option<real>
    requires |values| == |points|
    decreases |points|
  {
    if |points| == 0 then None
    else if LastAccepted(s, points[1..], values[1..], rejected, c).Some? then LastAccepted(s, points[1..], values[1..], rejected, c)
    else if points[0].competence == c && PointKey(s, c) !in rejected then Some(values[0])
    else None
  }

  /** After the loop the series' point for c holds the value of the last
      accepted point for c; a month no accepted point mentions keeps what the
      store had. */
  lemma {:induction false} LastPointWins(store: Store, s: SeriesId, points: seq<DataPoint>, values: seq<real>, rejected: set<PointKey>, c: Competence)
    requires |values| == |points|
    ensures var r := StorePoints(store, s, points, values, rejected).store;
      var k := PointKey(s, c);
      var last := LastAccepted(s, points, values, rejected, c);
      && (last.Some? ==> k in r && r[k] == IndexPoint(last.value, ApiBcb))
      && (last.None? ==> (k in r <==> k in store) && (k in store ==> r[k] == store[k]))
    decreases |points|
  {
    if |points| > 0 {
      var key := PointKey(s, points[0].competence);
      if key in rejected {
        LastPointWins(store, s, points[1..], values[1..], rejected, c);
      } else {
        var up := Upsert(store, key, values[0], ApiBcb);
        LastPointWins(up.store, s, points[1..], values[1..], rejected, c);
      }
    }
  }

  /** The messages of the rejected points, in download order. */
  function RejectedOf(s: SeriesId, points: seq<DataPoint>, rejected: set<PointKey>): (r: seq<Message>)
    ensures forall i | 0 <= i < |r| :: r[i].PointFailed? && PointKey(s, r[i].competence) in rejected
  {
    if |points| == 0 then []
    else if PointKey(s, points[0].competence) in rejected then [PointFailed(points[0].competence)] + RejectedOf(s, points[1..], rejected)
    else RejectedOf(s, points[1..], rejected)
  }

  /** The loop reports exactly the rejected points, whatever the store holds. */
  lemma {:induction false} StoreReportsRejected(store: Store, s: SeriesId, points: seq<DataPoint>, values: seq<real>, rejected: set<PointKey>)
    requires |values| == |points|
    ensures StorePoints(store, s, points, values, rejected).result.errors == RejectedOf(s, points, rejected)
    decreases |points|
  {
    if |points| > 0 {
      var key := PointKey(s, points[0].competence);
      if key in rejected {
        StoreReportsRejected(store, s, points[1..], values[1..], rejected);
      } else {
        var up := Upsert(store, key, values[0], ApiBcb);
        StoreReportsRejected(up.store, s, points[1..], values[1..], rejected);
      }
    }
  }

  /** `sincronizar`: the table must exist and have a series code; the
      download must succeed; an empty download is reported and stores
      nothing; otherwise the cumulative index of the points, started from
      the last value before the period, is stored. */
  function SyncTable(store: Store, tables: seq<IndexTable>, id: SeriesId, start: Date, fetch: Fetch, rejected: set<PointKey>): (r: Result<Synced, Error>)
    ensures FindTableById(tables, id).None? ==> r == Failure(TableNotFound(id))
    ensures (FindTableById(tables, id).Some? && FindTableById(tables, id).value.name !in SeriesCodes)
              ==> r == Failure(SeriesNotMapped(FindTableById(tables, id).value.name))
    ensures r.Success? ==> FindTableById(tables, id).Some? && FindTableById(tables, id).value.name in SeriesCodes
    ensures r.Success? ==> fetch(SeriesCodes[FindTableById(tables, id).value.name]).Success?
    ensures (r.Failure? && FindTableById(tables, id).Some? && FindTableById(tables, id).value.name in SeriesCodes)
              ==> (var f := fetch(SeriesCodes[FindTableById(tables, id).value.name]);
                   f.Failure? && r.error == FetchFailed(f.error))
    ensures r.Success? ==> var points := fetch(SeriesCodes[FindTableById(tables, id).value.name]).value;
      && (|points| == 0 ==> r.value == Synced(SyncResult(0, 0, [NoData]), store))
      && (|points| > 0 ==> r.value == StorePoints(store, id, points, Cumulative(StartingIndex(store, id, start), points), rejected))
  {
    if FindTableById(tables, id).None? then Failure(TableNotFound(id))
    else
    var table := FindTableById(tables, id).value;
    if table.name !in SeriesCodes then Failure(SeriesNotMapped(table.name))
    else
      match fetch(SeriesCodes[table.name])
      case Failure(reason) => Failure(FetchFailed(reason))
      case Success(points) =>
        if |points| == 0 then Success(Synced(SyncResult(0, 0, [NoData]), store))
        else
          var values := Cumulative(StartingIndex(store, id, start), points);
          Success(StorePoints(store, id, points, values, rejected))
  }

  /** A table without a series code fails the same way whatever the
      download would have answered: nothing is fetched. */
  lemma UnmappedNeverFetches(store: Store, tables: seq<IndexTable>, id: SeriesId, start: Date, f: Fetch, g: Fetch, rejected: set<PointKey>)
    requires FindTableById(tables, id).Some? && FindTableById(tables, id).value.name !in SeriesCodes
    ensures SyncTable(store, tables, id, start, f, rejected) == SyncTable(store, tables, id, start, g, rejected)
  {
  }

  /** One entry of the result of syncing all tables. */
  datatype TableSync = TableSync(name: string, result: SyncResult)

  /** The tables that have a series code, in catalogue order. */
  function Mapped(tables: seq<IndexTable>): (r: seq<IndexTable>)
    ensures forall t | t in r :: t in tables && t.name in SeriesCodes
    ensures forall t | t in tables && t.name in SeriesCodes :: t in r
  {
    if |tables| == 0 then []
    else if tables[0].name in SeriesCodes then [tables[0]] + Mapped(tables[1..])
    else Mapped(tables[1..])
  }

  /** All the syncs and the final store. */
  datatype SyncAllOutcome = SyncAllOutcome(entries: seq<TableSync>, store: Store)

  /** The sync of one table inside `sincronizarTodos`: its entry, and the
      store after it (unchanged when the sync failed). */
  function SyncOne(store: Store, tables: seq<IndexTable>, t: IndexTable, start: Date, fetch: Fetch, rejected: set<PointKey>): (r: SyncAllOutcome)
    ensures |r.entries| == 1 && r.entries[0].name == t.name
    ensures SyncTable(store, tables, t.id, start, fetch, rejected).Failure? ==>
      r == SyncAllOutcome([TableSync(t.name, SyncResult(0, 0, [TableFailed(SyncTable(store, tables, t.id, start, fetch, rejected).error)]))], store)
    ensures SyncTable(store, tables, t.id, start, fetch, rejected).Success? ==>
      var done := SyncTable(store, tables, t.id, start, fetch, rejected).value;
      r == SyncAllOutcome([TableSync(t.name, done.result)], done.store)
  {
    match SyncTable(store, tables, t.id, start, fetch, rejected)
    case Success(done) => SyncAllOutcome([TableSync(t.name, done.result)], done.store)
    case Failure(e) => SyncAllOutcome([TableSync(t.name, SyncResult(0, 0, [TableFailed(e)]))], store)
  }

  /** `sincronizarTodos` over `visit`, a suffix of the catalogue `tables`:
      each table with a series code is synced in turn on the store the
      previous ones left; a failing table is reported as (0, 0, "Erro: …")
      and the next table is still synced. */
  function SyncEach(store: Store, tables: seq<IndexTable>, visit: seq<IndexTable>, start: Date, fetch: Fetch, rejected: set<PointKey>): (r: SyncAllOutcome)
    ensures |r.entries| == |Mapped(visit)|
    ensures forall i | 0 <= i < |r.entries| :: r.entries[i].name == Mapped(visit)[i].name
    decreases |visit|
  {
    if |visit| == 0 then SyncAllOutcome([], store)
    else
      var t := visit[0];
      if t.name !in SeriesCodes then
        assert Mapped(visit) == Mapped(visit[1..]);
        SyncEach(store, tables, visit[1..], start, fetch, rejected)
      else
        var one := SyncOne(store, tables, t, start, fetch, rejected);
        var rest := SyncEach(one.store, tables, visit[1..], start, fetch, rejected);
        assert Mapped(visit) == [t] + Mapped(visit[1..]);
        var entries := [one.entries[0]] + rest.entries;
        assert forall i | 0 < i < |entries| :: entries[i] == rest.entries[i - 1];
        SyncAllOutcome(entries, rest.store)
  }

  /** `sincronizarTodos`: every table of the catalogue with a series code. */
  function SyncAll(store: Store, tables: seq<IndexTable>, start: Date, fetch: Fetch, rejected: set<PointKey>): (r: SyncAllOutcome)
    ensures |r.entries| == |Mapped(tables)|
    ensures forall i | 0 <= i < |r.entries| :: r.entries[i].name == Mapped(tables)[i].name
  {
    SyncEach(store, tables, tables, start, fetch, rejected)
  }

  /** A table whose download fails is reported with the download's reason,
      with nothing counted, and the store it hands to the next table is the
      one it received. */
  lemma FailedDownloadIsReported(store: Store, tables: seq<IndexTable>, visit: seq<IndexTable>, start: Date, fetch: Fetch, rejected: set<PointKey>)
    requires |visit| > 0 && visit[0] in tables && visit[0].name in SeriesCodes
    requires forall t | t in tables && t.id == visit[0].id :: t == visit[0]
    requires fetch(SeriesCodes[visit[0].name]).Failure?
    ensures var r := SyncEach(store, tables, visit, start, fetch, rejected);
      && r.entries[0] == TableSync(visit[0].name, SyncResult(0, 0, [TableFailed(FetchFailed(fetch(SeriesCodes[visit[0].name]).error))]))
      && r == SyncAllOutcome([r.entries[0]] + SyncEach(store, tables, visit[1..], start, fetch, rejected).entries,
                             SyncEach(store, tables, visit[1..], start, fetch, rejected).store)
  {
    var t := visit[0];
    assert FindTableById(tables, t.id) == Some(t);
  }

  /** The loop of `sincronizarTodos` at one table: a mapped table's entry is
      its own sync's, and the tables after it are synced on the store that
      sync left; a table without a series code adds nothing. */
  lemma SyncEachStep(store: Store, tables: seq<IndexTable>, visit: seq<IndexTable>, start: Date, fetch: Fetch, rejected: set<PointKey>)
    requires |visit| > 0
    ensures visit[0].name in SeriesCodes ==>
      var r := SyncEach(store, tables, visit, start, fetch, rejected);
      var one := SyncOne(store, tables, visit[0], start, fetch, rejected);
      var rest := SyncEach(one.store, tables, visit[1..], start, fetch, rejected);
      r.entries == one.entries + rest.entries && r.store == rest.store
    ensures visit[0].name !in SeriesCodes ==>
      SyncEach(store, tables, visit, start, fetch, rejected) == SyncEach(store, tables, visit[1..], start, fetch, rejected)
  {
  }

  /** A table whose download succeeds is reported with the counts of its
      sync, and the next table is synced on the store it left: an empty
      download is reported as "no data" and leaves the store as it was;
      otherwise the cumulative index of the points is stored. */
  lemma DownloadedTableIsStored(store: Store, tables: seq<IndexTable>, visit: seq<IndexTable>, start: Date, fetch: Fetch, rejected: set<PointKey>)
    requires |visit| > 0 && visit[0] in tables && visit[0].name in SeriesCodes
    requires forall t | t in tables && t.id == visit[0].id :: t == visit[0]
    requires fetch(SeriesCodes[visit[0].name]).Success?
    ensures var t := visit[0];
      var points := fetch(SeriesCodes[t.name]).value;
      var done := if |points| == 0 then Synced(SyncResult(0, 0, [NoData]), store)
                  else StorePoints(store, t.id, points, Cumulative(StartingIndex(store, t.id, start), points), rejected);
      var r := SyncEach(store, tables, visit, start, fetch, rejected);
      && r.entries[0] == TableSync(t.name, done.result)
      && r == SyncAllOutcome([r.entries[0]] + SyncEach(done.store, tables, visit[1..], start, fetch, rejected).entries,
                             SyncEach(done.store, tables, visit[1..], start, fetch, rejected).store)
  {
    var t := visit[0];
    assert FindTableById(tables, t.id) == Some(t);
  }

  /** Every point of series s is still there, with the value and source it
      had, and no point of s was added. */
  predicate SeriesKept(before: Store, after: Store, s: SeriesId) {
    && (forall k | k in before && k.series == s :: k in after && after[k] == before[k])
    && (forall k | k in after && k.series == s :: k in before)
  }

  /** Two steps that each keep series s and write only points of the given
      source, taken one after the other, do the same. */
  lemma KeptCompose(a: Store, b: Store, c: Store, s: SeriesId, source: Source)
    requires SeriesKept(a, b, s) && SeriesKept(b, c, s)
    requires ChangesCarry(a, b, source) && ChangesCarry(b, c, source)
    ensures SeriesKept(a, c, s) && ChangesCarry(a, c, source)
  {
    forall k | k in c && !(k in a && c[k] == a[k])
      ensures c[k].source == source
    {
      if k in b && c[k] == b[k] {
        assert !(k in a && b[k] == a[k]);
      }
    }
  }

  /** The sync of one table writes only the points of its own series, each
      with the API_BCB source. */
  lemma SyncOneKeepsOtherSeries(store: Store, tables: seq<IndexTable>, t: IndexTable, start: Date, fetch: Fetch, rejected: set<PointKey>, s: SeriesId)
    requires t.id != s
    ensures var after := SyncOne(store, tables, t, start, fetch, rejected).store;
      SeriesKept(store, after, s) && ChangesCarry(store, after, ApiBcb)
  {
    var sync := SyncTable(store, tables, t.id, start, fetch, rejected);
    if sync.Success? {
      var points := fetch(SeriesCodes[FindTableById(tables, t.id).value.name]).value;
      if |points| > 0 {
        var values := Cumulative(StartingIndex(store, t.id, start), points);
        StoreTouchesOnlyItsSeries(store, t.id, points, values, rejected);
      }
    }
  }

  /** A series that no mapped table of `visit` syncs keeps all its points,
      and every point the run writes carries the API_BCB source. */
  lemma {:induction false} SyncEachKeepsUnsyncedSeries(store: Store, tables: seq<IndexTable>, visit: seq<IndexTable>, start: Date, fetch: Fetch, rejected: set<PointKey>, s: SeriesId)
    requires forall t | t in visit && t.name in SeriesCodes :: t.id != s
    ensures var after := SyncEach(store, tables, visit, start, fetch, rejected).store;
      SeriesKept(store, after, s) && ChangesCarry(store, after, ApiBcb)
    decreases |visit|
  {
    if |visit| > 0 {
      var t := visit[0];
      assert forall u | u in visit[1..] :: u in visit;
      if t.name !in SeriesCodes {
        SyncEachKeepsUnsyncedSeries(store, tables, visit[1..], start, fetch, rejected, s);
      } else {
        var one := SyncOne(store, tables, t, start, fetch, rejected);
        SyncOneKeepsOtherSeries(store, tables, t, start, fetch, rejected, s);
        SyncEachKeepsUnsyncedSeries(one.store, tables, visit[1..], start, fetch, rejected, s);
        KeptCompose(store, one.store, SyncEach(one.store, tables, visit[1..], start, fetch, rejected).store, s, ApiBcb);
      }
    }
  }

  /** `sincronizarTodos` leaves every point of a series that no mapped table
      of the catalogue syncs as it was, and writes only API_BCB points. */
  lemma SyncAllKeepsUnsyncedSeries(store: Store, tables: seq<IndexTable>, start: Date, fetch: Fetch, rejected: set<PointKey>, s: SeriesId)
    requires forall t | t in Mapped(tables) :: t.id != s
    ensures var after := SyncAll(store, tables, start, fetch, rejected).store;
      SeriesKept(store, after, s) && ChangesCarry(store, after, ApiBcb)
  {
    SyncEachKeepsUnsyncedSeries(store, tables, tables, start, fetch, rejected, s);
  }
}
