/** The index store: index tables (series) and their monthly index points,
    keyed by (series, competence) so that a key holds at most one point, as
    the unique constraint on (tabela_indice_id, competencia) demands. */
module IndexStore {
  import opened Wrappers
  import opened Calendar

  type SeriesId = int

  /** Provenance of a stored point (`ValorIndice.FonteValor`). */
  datatype Source = ApiIbge | ApiBcb | ApiFgv | CsvImport | Manual

  datatype PointKey = PointKey(series: SeriesId, competence: Competence)

  datatype IndexPoint = IndexPoint(value: real, source: Source)

  type Store = map<PointKey, IndexPoint>

  /** One row of a range query: a competence and the index value stored for it. */
  datatype DatedValue = DatedValue(competence: Competence, value: real)

  /** An index table (`TabelaIndice`) as the catalogue lists it. */
  datatype IndexTable = IndexTable(id: SeriesId, name: string)

  /** The first table of the catalogue that `matches`, as a Spring Data
      derived query returns it. */
  function FindFirst(tables: seq<IndexTable>, matches: IndexTable -> bool): (r: Option<IndexTable>)
    ensures r.Some? ==> r.value in tables && matches(r.value)
    ensures r.None? <==> forall t | t in tables :: !matches(t)
  {
    if |tables| == 0 then None
    else if matches(tables[0]) then Some(tables[0])
    else FindFirst(tables[1..], matches)
  }

  /** `TabelaIndiceRepository.findById`: the table with that id. */
  function FindTableById(tables: seq<IndexTable>, id: SeriesId): (r: Option<IndexTable>)
    ensures r.Some? ==> r.value in tables && r.value.id == id
    ensures r.None? <==> forall t | t in tables :: t.id != id
  {
    FindFirst(tables, (t: IndexTable) => t.id == id)
  }

  /** `TabelaIndiceRepository.findByNome`: the table with that name. */
  function FindTableByName(tables: seq<IndexTable>, name: string): (r: Option<IndexTable>)
    ensures r.Some? ==> r.value in tables && r.value.name == name
    ensures r.None? <==> forall t | t in tables :: t.name != name
  {
    FindFirst(tables, (t: IndexTable) => t.name == name)
  }

  /** Every non-empty finite set of competences has a greatest element. */
  lemma {:induction false} MaxExists(xs: set<int>)
    requires xs != {}
    ensures exists m :: m in xs && IsUpperBound(m, xs)
    decreases |xs|
  {
    if forall z :: z !in xs {
      assert false;
    }
    var y :| y in xs;
    var rest := xs - {y};
    if rest == {} {
      assert xs == {y};
      assert y in xs && IsUpperBound(y, xs);
    } else {
      MaxExists(rest);
      var m :| m in rest && IsUpperBound(m, rest);
      var top := if y <= m then m else y;
      forall x | x in xs
        ensures x <= top
      {
        if x != y {
          assert x in rest;
        }
      }
      assert top in xs && IsUpperBound(top, xs);
    }
  }

  predicate IsUpperBound(m: int, xs: set<int>) {
    forall x | x in xs :: x <= m
  }

  function MaxOf(xs: set<int>): (m: int)
    requires xs != {}
    ensures m in xs && forall x | x in xs :: x <= m
  {
    MaxExists(xs);
    var m :| m in xs && IsUpperBound(m, xs);
    m
  }

  /** The competences of series s stored at or before c. */
  function CompetencesUpTo(store: Store, s: SeriesId, c: Competence): (r: set<Competence>)
    ensures forall m :: m in r <==> PointKey(s, m) in store && m <= c
  {
    var r := set k | k in store && k.series == s && k.competence <= c :: k.competence;
    assert forall m | PointKey(s, m) in store && m <= c :: m in r by {
      forall m | PointKey(s, m) in store && m <= c
        ensures m in r
      {
        var k := PointKey(s, m);
        assert k in store && k.series == s && k.competence <= c;
      }
    }
    r
  }

  /** `findFirstByTabelaIndiceIdAndCompetenciaLessThanEqualOrderByCompetenciaDesc`:
      the latest competence of series s at or before c, if any. */
  function LatestAtOrBefore(store: Store, s: SeriesId, c: Competence): (r: Option<Competence>)
    ensures r.None? <==> forall m :: PointKey(s, m) in store ==> m > c
    ensures r.Some? ==> r.value <= c && PointKey(s, r.value) in store
    ensures r.Some? ==> forall m :: PointKey(s, m) in store && m <= c ==> m <= r.value
  {
    var ms := CompetencesUpTo(store, s, c);
    if ms == {} then None else Some(MaxOf(ms))
  }

  /** A point stored for exactly c is the one the at-or-before lookup finds. */
  lemma ExactPointIsLatest(store: Store, s: SeriesId, c: Competence)
    requires PointKey(s, c) in store
    ensures LatestAtOrBefore(store, s, c) == Some(c)
  {
  }

  /** The value of the latest point of series s at or before c, if any. */
  function ValueAtOrBefore(store: Store, s: SeriesId, c: Competence): Option<real> {
    match LatestAtOrBefore(store, s, c)
    case None => None
    case Some(m) => Some(store[PointKey(s, m)].value)
  }

  /** Some point of r is for month m. */
  predicate Lists(r: seq<DatedValue>, m: Competence) {
    exists i :: 0 <= i < |r| && r[i].competence == m
  }

  /** Putting a point in front keeps every month already listed, and lists its own. */
  lemma PrependLists(d: DatedValue, rest: seq<DatedValue>, m: Competence)
    requires Lists(rest, m) || m == d.competence
    ensures Lists([d] + rest, m)
  {
    var r := [d] + rest;
    if m == d.competence {
      assert r[0].competence == m;
    } else {
      var i :| 0 <= i < |rest| && rest[i].competence == m;
      assert r[i + 1].competence == m;
    }
  }

  /** `findByTabelaIndiceIdAndPeriodo`: the points of series s whose competence
      lies in [lo, hi], in ascending competence order. */
  function PointsInRange(store: Store, s: SeriesId, lo: Competence, hi: Competence): (r: seq<DatedValue>)
    ensures forall i | 0 <= i < |r| :: lo <= r[i].competence <= hi
    ensures forall i, j | 0 <= i < j < |r| :: r[i].competence < r[j].competence
    ensures forall i | 0 <= i < |r| ::
      PointKey(s, r[i].competence) in store && store[PointKey(s, r[i].competence)].value == r[i].value
    ensures forall m | lo <= m <= hi && PointKey(s, m) in store :: Lists(r, m)
    decreases hi + 1 - lo
  {
    if lo > hi then []
    else
      var rest := PointsInRange(store, s, lo + 1, hi);
      if PointKey(s, lo) !in store then rest
      else
        var d := DatedValue(lo, store[PointKey(s, lo)].value);
        var r := [d] + rest;
        assert forall i | 0 < i < |r| :: r[i] == rest[i - 1];
        assert forall m | lo <= m <= hi && PointKey(s, m) in store :: Lists(r, m) by {
          forall m | lo <= m <= hi && PointKey(s, m) in store
            ensures Lists(r, m)
          {
            PrependLists(d, rest, m);
          }
        }
        r
  }

  /** A single-month range query finds exactly the point stored for that month. */
  lemma {:induction false} SingleMonthRange(store: Store, s: SeriesId, c: Competence)
    ensures PointKey(s, c) in store ==> PointsInRange(store, s, c, c) == [DatedValue(c, store[PointKey(s, c)].value)]
    ensures PointKey(s, c) !in store ==> PointsInRange(store, s, c, c) == []
  {
    assert PointsInRange(store, s, c + 1, c) == [];
  }

  /** No point of a series other than s was added or changed from before to after. */
  predicate KeepsOtherSeries(before: Store, after: Store, s: SeriesId) {
    forall k | k in after && k.series != s :: k in before && after[k] == before[k]
  }

  /** Every point added or changed from before to after carries the given source. */
  predicate ChangesCarry(before: Store, after: Store, source: Source) {
    forall k | k in after && !(k in before && after[k] == before[k]) :: after[k].source == source
  }

  /** Both properties survive a second step taken after a first. */
  lemma ChangesCompose(a: Store, b: Store, c: Store, s: SeriesId, source: Source)
    requires KeepsOtherSeries(a, b, s) && KeepsOtherSeries(b, c, s)
    requires ChangesCarry(a, b, source) && ChangesCarry(b, c, source)
    ensures KeepsOtherSeries(a, c, s) && ChangesCarry(a, c, source)
  {
    forall k | k in c && !(k in a && c[k] == a[k])
      ensures c[k].source == source
    {
      if k in b && c[k] == b[k] {
        assert !(k in a && b[k] == a[k]);
      }
    }
  }

  datatype UpsertOutcome = UpsertOutcome(store: Store, existed: bool)

  /** Insert-or-update of one point; `existed` tells an update from an insert. */
  function Upsert(store: Store, key: PointKey, value: real, source: Source): (r: UpsertOutcome)
    ensures r.existed <==> key in store
    ensures r.store.Keys == store.Keys + {key}
    ensures r.store[key] == IndexPoint(value, source)
    ensures forall k | k in store && k != key :: r.store[k] == store[k]
  {
    UpsertOutcome(store[key := IndexPoint(value, source)], key in store)
  }

  /** An upsert touches only its key's series, and what it touches carries its source. */
  lemma UpsertTouchesOnlyItsKey(store: Store, key: PointKey, value: real, source: Source)
    ensures var after := Upsert(store, key, value, source).store;
      KeepsOtherSeries(store, after, key.series) && ChangesCarry(store, after, source)
  {
  }
}
