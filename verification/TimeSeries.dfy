/** Time-series results: aggregation buckets holding series of points, the sorting the code asks
    of the standard library, and what merging a list of series means. */
module TimeSeries {
  import opened Sorting

  /** Labels are represented by the unique key the code derives from them. */
  type SeriesKey = string

  datatype Point = Point(ts: nat, value: real, partial: bool)

  datatype Series = Series(key: SeriesKey, values: seq<Point>)

  datatype Aggregation = Aggregation(index: nat, series: seq<Series>)

  datatype Data = Data(aggregations: seq<Aggregation>)

  /** A series is identified by its aggregation and its labels. */
  datatype Id = Id(agg: nat, key: SeriesKey)

  /** One series as it is met while walking a result. */
  datatype Entry = Entry(id: Id, values: seq<Point>)

  function SeriesEntries(index: nat, series: seq<Series>): (es: seq<Entry>)
    ensures |es| == |series|
    ensures forall j | 0 <= j < |es| :: es[j] == Entry(Id(index, series[j].key), series[j].values)
  {
    seq(|series|, j requires 0 <= j < |series| => Entry(Id(index, series[j].key), series[j].values))
  }

  /** All series of a list of aggregation buckets, in walking order. */
  function Entries(aggs: seq<Aggregation>): seq<Entry> {
    if aggs == [] then []
    else Entries(aggs[..|aggs| - 1]) + SeriesEntries(aggs[|aggs| - 1].index, aggs[|aggs| - 1].series)
  }

  lemma EntriesExtend(aggs: seq<Aggregation>, i: nat)
    requires i < |aggs|
    ensures Entries(aggs[..i + 1]) == Entries(aggs[..i]) + SeriesEntries(aggs[i].index, aggs[i].series)
  {
    assert aggs[..i + 1][..i] == aggs[..i];
  }

  /** A series occurs in the walk exactly when some bucket holds it. */
  lemma {:induction false} EntryMembers(aggs: seq<Aggregation>, e: Entry)
    ensures e in Entries(aggs) <==>
            exists i, j :: 0 <= i < |aggs| && 0 <= j < |aggs[i].series|
                           && e == Entry(Id(aggs[i].index, aggs[i].series[j].key), aggs[i].series[j].values)
  {
    if aggs != [] {
      var m := |aggs| - 1;
      var rest := aggs[..m];
      EntryMembers(rest, e);
      var last := SeriesEntries(aggs[m].index, aggs[m].series);
      if e in last {
        var j :| 0 <= j < |last| && last[j] == e;
        assert e == Entry(Id(aggs[m].index, aggs[m].series[j].key), aggs[m].series[j].values);
      }
      if i, j :| 0 <= i < |aggs| && 0 <= j < |aggs[i].series|
                 && e == Entry(Id(aggs[i].index, aggs[i].series[j].key), aggs[i].series[j].values) {
        if i < m {
          assert rest[i] == aggs[i];
        } else {
          assert last[j] == e;
        }
      }
    }
  }

  ghost predicate HasPoint(d: Data, id: Id, p: Point) {
    exists k :: 0 <= k < |Entries(d.aggregations)|
                && Entries(d.aggregations)[k].id == id && p in Entries(d.aggregations)[k].values
  }

  predicate HasTs(values: seq<Point>, ts: nat) {
    exists k :: 0 <= k < |values| && values[k].ts == ts
  }

  predicate DistinctTs(values: seq<Point>) {
    forall i, j :: 0 <= i < j < |values| ==> values[i].ts != values[j].ts
  }

  ghost predicate DistinctIds(entries: seq<Entry>) {
    forall i, j :: 0 <= i < j < |entries| ==> entries[i].id != entries[j].id
  }

  /** What the code assumes of every result it merges: no timestamp twice in one series. */
  ghost predicate WellFormed(d: Data) {
    forall e :: e in Entries(d.aggregations) ==> DistinctTs(e.values)
  }

  // ----- sorting -----

  predicate SortedByTs(values: seq<Point>) {
    forall i, j :: 0 <= i < j < |values| ==> values[i].ts <= values[j].ts
  }

  predicate StrictlyIncreasing(values: seq<Point>) {
    forall i, j :: 0 <= i < j < |values| ==> values[i].ts < values[j].ts
  }

  ghost predicate SortOf(sorted: seq<Point>, values: seq<Point>) {
    SortedByTs(sorted) && multiset(sorted) == multiset(values)
  }

  lemma SameMembers<T>(a: seq<T>, b: seq<T>, x: T)
    requires multiset(a) == multiset(b)
    ensures |a| == |b| && (x in a <==> x in b)
  {
    assert x in a <==> x in multiset(a);
    assert x in b <==> x in multiset(b);
    assert |multiset(a)| == |a| && |multiset(b)| == |b|;
  }

  /** Sorting a series without repeated timestamps makes it strictly increasing. */
  lemma {:induction false} SortIsStrict(sorted: seq<Point>, values: seq<Point>)
    requires SortOf(sorted, values) && DistinctTs(values)
    ensures StrictlyIncreasing(sorted)
  {
    forall i, j | 0 <= i < j < |sorted| ensures sorted[i].ts < sorted[j].ts {
      if sorted[i].ts == sorted[j].ts {
        SameMembers(sorted, values, sorted[i]);
        SameMembers(sorted, values, sorted[j]);
        if sorted[i] == sorted[j] {
          TwiceMeansTwo(sorted, i, j);
          OnceInDistinct(values, sorted[i]);
        }
      }
    }
  }

  lemma TwiceMeansTwo<T>(s: seq<T>, i: nat, j: nat)
    requires i < j < |s| && s[i] == s[j]
    ensures multiset(s)[s[i]] >= 2
  {
    assert s == s[..j] + s[j..];
    assert s[..j][i] == s[i] && s[j..][0] == s[i];
    assert s[i] in multiset(s[..j]) && s[i] in multiset(s[j..]);
  }

  lemma {:induction false} OnceInDistinct(values: seq<Point>, p: Point)
    requires DistinctTs(values)
    ensures multiset(values)[p] <= 1
  {
    if values != [] {
      var n := |values| - 1;
      assert values == values[..n] + [values[n]];
      OnceInDistinct(values[..n], p);
      if p in values[..n] {
        var k :| 0 <= k < n && values[..n][k] == p;
        assert values[k].ts != values[n].ts;
      }
    }
  }

  /** Sorts a series when its points are out of order. */
  method SortPointsIfNeeded(values: seq<Point>) returns (sorted: seq<Point>)
    ensures SortOf(sorted, values)
  {
    sorted := SortIfNeeded(values, (p: Point) => p.ts);
  }

  // ----- the meaning of merging -----

  /** The points of values whose timestamp the existing series does not hold yet. */
  function NewPoints(existing: seq<Point>, values: seq<Point>): (r: seq<Point>)
    ensures forall p :: p in r <==> p in values && !HasTs(existing, p.ts)
  {
    if values == [] then []
    else
      var n := |values| - 1;
      var rest := NewPoints(existing, values[..n]);
      assert values == values[..n] + [values[n]];
      if HasTs(existing, values[n].ts) then rest else rest + [values[n]]
  }

  function AbsorbOne(m: map<Id, seq<Point>>, e: Entry): map<Id, seq<Point>> {
    if e.id in m then m[e.id := m[e.id] + NewPoints(m[e.id], e.values)] else m[e.id := e.values]
  }

  /** The series map after the entries have been met one by one. */
  function Absorbed(entries: seq<Entry>): map<Id, seq<Point>> {
    if entries == [] then map[]
    else AbsorbOne(Absorbed(entries[..|entries| - 1]), entries[|entries| - 1])
  }

  lemma AbsorbedExtend(entries: seq<Entry>, e: Entry)
    ensures Absorbed(entries + [e]) == AbsorbOne(Absorbed(entries), e)
  {
    assert (entries + [e])[..|entries + [e]| - 1] == entries;
  }

  /** p is in one of the entries of id, and no earlier entry of id holds its timestamp. */
  ghost predicate FirstWins(entries: seq<Entry>, id: Id, p: Point) {
    exists k :: FirstAt(entries, id, p, k)
  }

  ghost predicate FirstAt(entries: seq<Entry>, id: Id, p: Point, k: int) {
    0 <= k < |entries| && entries[k].id == id && p in entries[k].values
    && forall j | 0 <= j < k && entries[j].id == id :: !HasTs(entries[j].values, p.ts)
  }

  ghost predicate SomeHasTs(entries: seq<Entry>, id: Id, ts: nat) {
    exists j :: 0 <= j < |entries| && entries[j].id == id && HasTs(entries[j].values, ts)
  }

  /** A merged series holds a point exactly when the earliest entry with that timestamp holds it. */
  lemma {:induction false} AbsorbedIsFirstWins(entries: seq<Entry>, id: Id, p: Point)
    ensures (id in Absorbed(entries) && p in Absorbed(entries)[id]) <==> FirstWins(entries, id, p)
  {
    if entries != [] {
      var n := |entries| - 1;
      var rest, e := entries[..n], entries[n];
      var m := Absorbed(rest);
      AbsorbedIsFirstWins(rest, id, p);
      AbsorbedTs(rest, id, p.ts);
      assert forall j | 0 <= j < n :: entries[j] == rest[j];
      if FirstWins(rest, id, p) {
        var k :| FirstAt(rest, id, p, k);
        assert FirstAt(entries, id, p, k);
      }
      if k :| FirstAt(entries, id, p, k) {
        if k < n {
          assert FirstAt(rest, id, p, k);
        }
      }
      if e.id == id && p in e.values && !SomeHasTs(rest, id, p.ts) {
        forall j | 0 <= j < n && entries[j].id == id ensures !HasTs(entries[j].values, p.ts) {
          assert entries[j] == rest[j];
        }
        assert FirstAt(entries, id, p, n);
      }
    }
  }

  /** The timestamps of a merged series are the union of the inputs'. */
  lemma {:induction false} AbsorbedTs(entries: seq<Entry>, id: Id, ts: nat)
    ensures (id in Absorbed(entries) && HasTs(Absorbed(entries)[id], ts)) <==> SomeHasTs(entries, id, ts)
  {
    if entries != [] {
      var n := |entries| - 1;
      var rest, e := entries[..n], entries[n];
      var m := Absorbed(rest);
      AbsorbedTs(rest, id, ts);
      if SomeHasTs(rest, id, ts) {
        var j :| 0 <= j < |rest| && rest[j].id == id && HasTs(rest[j].values, ts);
        assert entries[j] == rest[j];
      }
      if j :| 0 <= j < |entries| && entries[j].id == id && HasTs(entries[j].values, ts) {
        assert j < n ==> rest[j] == entries[j];
      }
      if e.id == id {
        if id in m {
          ConcatTs(m[id], NewPoints(m[id], e.values), ts);
          NewPointsTs(m[id], e.values, ts);
        }
      }
    }
  }

  lemma ConcatTs(a: seq<Point>, b: seq<Point>, ts: nat)
    ensures HasTs(a + b, ts) <==> HasTs(a, ts) || HasTs(b, ts)
  {
    if HasTs(a, ts) {
      var k :| 0 <= k < |a| && a[k].ts == ts;
      assert (a + b)[k].ts == ts;
    }
    if HasTs(b, ts) {
      var k :| 0 <= k < |b| && b[k].ts == ts;
      assert (a + b)[|a| + k].ts == ts;
    }
  }

  lemma NewPointsTs(existing: seq<Point>, values: seq<Point>, ts: nat)
    ensures HasTs(NewPoints(existing, values), ts) <==> HasTs(values, ts) && !HasTs(existing, ts)
  {
    var r := NewPoints(existing, values);
    if HasTs(r, ts) {
      var k :| 0 <= k < |r| && r[k].ts == ts;
      assert r[k] in values;
    }
    if HasTs(values, ts) && !HasTs(existing, ts) {
      var k :| 0 <= k < |values| && values[k].ts == ts;
      assert values[k] in r;
    }
  }

  lemma {:induction false} AbsorbedKeys(entries: seq<Entry>, id: Id)
    ensures id in Absorbed(entries) <==> exists k :: 0 <= k < |entries| && entries[k].id == id
  {
    if entries != [] {
      var n := |entries| - 1;
      var rest := entries[..n];
      AbsorbedKeys(rest, id);
      if k :| 0 <= k < |rest| && rest[k].id == id {
        assert entries[k].id == id;
      }
      if k :| 0 <= k < |entries| && entries[k].id == id {
        assert k < n ==> rest[k].id == id;
      }
    }
  }

  lemma {:induction false} NewPointsDistinct(existing: seq<Point>, values: seq<Point>)
    requires DistinctTs(values)
    ensures DistinctTs(NewPoints(existing, values))
  {
    if values != [] {
      var n := |values| - 1;
      NewPointsDistinct(existing, values[..n]);
      var rest := NewPoints(existing, values[..n]);
      forall i | 0 <= i < |rest| ensures rest[i].ts != values[n].ts {
        assert rest[i] in values[..n];
      }
    }
  }

  /** No timestamp is repeated in a merged series when none is in the inputs. */
  lemma {:induction false} AbsorbedDistinct(entries: seq<Entry>, id: Id)
    requires forall e :: e in entries ==> DistinctTs(e.values)
    requires id in Absorbed(entries)
    ensures DistinctTs(Absorbed(entries)[id])
  {
    var n := |entries| - 1;
    var rest, e := entries[..n], entries[n];
    var m := Absorbed(rest);
    assert e in entries && forall x :: x in rest ==> x in entries;
    if id in m {
      AbsorbedDistinct(rest, id);
      if e.id == id {
        var added := NewPoints(m[id], e.values);
        NewPointsDistinct(m[id], e.values);
        forall i, j | 0 <= i < |m[id]| && 0 <= j < |added| ensures m[id][i].ts != added[j].ts {
          assert added[j] in added;
        }
      }
    }
  }

  // ----- a rendered series map -----

  /** d lists every series of m once, its points sorted, under exactly the given aggregation indexes. */
  ghost predicate Renders(d: Data, indexes: set<nat>, m: map<Id, seq<Point>>) {
    DistinctIds(Entries(d.aggregations))
    && (forall i, j :: 0 <= i < j < |d.aggregations| ==> d.aggregations[i].index != d.aggregations[j].index)
    && indexes == (set a | a in d.aggregations :: a.index)
    && m.Keys == (set e | e in Entries(d.aggregations) :: e.id)
    && forall e :: e in Entries(d.aggregations) ==> e.id in m && SortOf(e.values, m[e.id])
  }

  lemma RenderedPoints(d: Data, indexes: set<nat>, m: map<Id, seq<Point>>, id: Id, p: Point)
    requires Renders(d, indexes, m)
    ensures HasPoint(d, id, p) <==> id in m && p in m[id]
  {
    var es := Entries(d.aggregations);
    if HasPoint(d, id, p) {
      var k :| 0 <= k < |es| && es[k].id == id && p in es[k].values;
      assert es[k] in es;
      SameMembers(es[k].values, m[id], p);
    }
    if id in m && p in m[id] {
      assert id in m.Keys;
      var e :| e in es && e.id == id;
      var k :| 0 <= k < |es| && es[k] == e;
      SameMembers(e.values, m[id], p);
    }
  }

  /** The merged result: one series per id, each strictly increasing, each point from the earliest
      entry that holds its timestamp, and the timestamps of an id the union of the inputs'. */
  lemma MergeMeaning(d: Data, indexes: set<nat>, entries: seq<Entry>)
    requires Renders(d, indexes, Absorbed(entries))
    requires forall e :: e in entries ==> DistinctTs(e.values)
    ensures WellFormed(d)
    ensures DistinctIds(Entries(d.aggregations))
    ensures forall e :: e in Entries(d.aggregations) ==> StrictlyIncreasing(e.values)
    ensures forall id, p :: HasPoint(d, id, p) <==> FirstWins(entries, id, p)
    ensures forall id, ts :: (exists p :: HasPoint(d, id, p) && p.ts == ts) <==> SomeHasTs(entries, id, ts)
  {
    var m := Absorbed(entries);
    forall e | e in Entries(d.aggregations) ensures StrictlyIncreasing(e.values) && DistinctTs(e.values) {
      AbsorbedDistinct(entries, e.id);
      SortIsStrict(e.values, m[e.id]);
    }
    forall id, p ensures HasPoint(d, id, p) <==> FirstWins(entries, id, p) {
      RenderedPoints(d, indexes, m, id, p);
      AbsorbedIsFirstWins(entries, id, p);
    }
    forall id, ts ensures (exists p :: HasPoint(d, id, p) && p.ts == ts) <==> SomeHasTs(entries, id, ts) {
      AbsorbedTs(entries, id, ts);
      if id in m && HasTs(m[id], ts) {
        var k :| 0 <= k < |m[id]| && m[id][k].ts == ts;
        RenderedPoints(d, indexes, m, id, m[id][k]);
      }
      if p :| HasPoint(d, id, p) && p.ts == ts {
        RenderedPoints(d, indexes, m, id, p);
        var k :| 0 <= k < |m[id]| && m[id][k] == p;
      }
    }
  }

  // ----- independence of order -----

  ghost predicate Agreeing(entries: seq<Entry>) {
    forall i, j, p, q ::
      0 <= i < |entries| && 0 <= j < |entries| && entries[i].id == entries[j].id
      && p in entries[i].values && q in entries[j].values && p.ts == q.ts
      ==> p == q
  }

  ghost predicate SomeHasPoint(entries: seq<Entry>, id: Id, p: Point) {
    exists k :: 0 <= k < |entries| && entries[k].id == id && p in entries[k].values
  }

  /** Where the inputs agree, the earliest-wins rule keeps exactly the points some input holds. */
  lemma AgreeingFirstWins(entries: seq<Entry>, id: Id, p: Point)
    requires Agreeing(entries)
    ensures FirstWins(entries, id, p) <==> SomeHasPoint(entries, id, p)
  {
    if SomeHasPoint(entries, id, p) {
      var k :| 0 <= k < |entries| && entries[k].id == id && p in entries[k].values;
      var f := EarliestEntry(entries, id, p.ts, k);
      var i :| 0 <= i < |entries[f].values| && entries[f].values[i].ts == p.ts;
      assert entries[f].values[i] in entries[f].values;
      assert entries[f].values[i] == p;
      assert FirstAt(entries, id, p, f);
    }
  }

  lemma {:induction false} EarliestEntry(entries: seq<Entry>, id: Id, ts: nat, k: nat) returns (f: nat)
    requires k < |entries| && entries[k].id == id
    requires exists i :: 0 <= i < |entries[k].values| && entries[k].values[i].ts == ts
    ensures f < |entries| && entries[f].id == id && HasTs(entries[f].values, ts)
    ensures forall j | 0 <= j < f && entries[j].id == id :: !HasTs(entries[j].values, ts)
    decreases k
  {
    if j :| 0 <= j < k && entries[j].id == id && HasTs(entries[j].values, ts) {
      f := EarliestEntry(entries, id, ts, j);
    } else {
      f := k;
    }
  }

  /** Merging agreeing inputs gives the same series whatever the order of the inputs and
      whatever order the maps are iterated in. */
  lemma MergeOrderIrrelevant(d1: Data, i1: set<nat>, es1: seq<Entry>, d2: Data, i2: set<nat>, es2: seq<Entry>)
    requires Renders(d1, i1, Absorbed(es1)) && Renders(d2, i2, Absorbed(es2))
    requires multiset(es1) == multiset(es2)
    requires Agreeing(es1)
    requires forall e :: e in es1 ==> DistinctTs(e.values)
    ensures forall e :: e in Entries(d1.aggregations) <==> e in Entries(d2.aggregations)
  {
    forall e ensures e in es1 <==> e in es2 {
      SameMembers(es1, es2, e);
    }
    PermutedAgree(es1, es2);
    MergeMeaning(d1, i1, es1);
    MergeMeaning(d2, i2, es2);
    forall id, p ensures HasPoint(d1, id, p) <==> HasPoint(d2, id, p) {
      AgreeingFirstWins(es1, id, p);
      AgreeingFirstWins(es2, id, p);
      if k :| 0 <= k < |es1| && es1[k].id == id && p in es1[k].values {
        assert es1[k] in es2;
      }
      if k :| 0 <= k < |es2| && es2[k].id == id && p in es2[k].values {
        assert es2[k] in es1;
      }
    }
    forall id ensures id in Absorbed(es1) <==> id in Absorbed(es2) {
      AbsorbedKeys(es1, id);
      AbsorbedKeys(es2, id);
      if k :| 0 <= k < |es1| && es1[k].id == id {
        assert es1[k] in es2;
      }
      if k :| 0 <= k < |es2| && es2[k].id == id {
        assert es2[k] in es1;
      }
    }
    SameEntries(d1, i1, Absorbed(es1), d2, i2, Absorbed(es2));
    SameEntries(d2, i2, Absorbed(es2), d1, i1, Absorbed(es1));
  }

  lemma PermutedAgree(es1: seq<Entry>, es2: seq<Entry>)
    requires Agreeing(es1)
    requires forall e :: e in es1 <==> e in es2
    ensures Agreeing(es2)
    ensures (forall e :: e in es1 ==> DistinctTs(e.values)) ==> forall e :: e in es2 ==> DistinctTs(e.values)
  {
    forall i, j, p, q | 0 <= i < |es2| && 0 <= j < |es2| && es2[i].id == es2[j].id
                        && p in es2[i].values && q in es2[j].values && p.ts == q.ts
      ensures p == q
    {
      assert es2[i] in es1 && es2[j] in es1;
      var a :| 0 <= a < |es1| && es1[a] == es2[i];
      var b :| 0 <= b < |es1| && es1[b] == es2[j];
    }
  }

  lemma SameEntries(d1: Data, i1: set<nat>, m1: map<Id, seq<Point>>, d2: Data, i2: set<nat>, m2: map<Id, seq<Point>>)
    requires Renders(d1, i1, m1) && Renders(d2, i2, m2)
    requires forall id :: id in m1 <==> id in m2
    requires forall id, p :: HasPoint(d1, id, p) <==> HasPoint(d2, id, p)
    requires forall e :: e in Entries(d1.aggregations) ==> StrictlyIncreasing(e.values)
    requires forall e :: e in Entries(d2.aggregations) ==> StrictlyIncreasing(e.values)
    ensures forall e :: e in Entries(d1.aggregations) ==> e in Entries(d2.aggregations)
  {
    forall e | e in Entries(d1.aggregations) ensures e in Entries(d2.aggregations) {
      assert e.id in m1 && e.id in m2.Keys;
      var e2 :| e2 in Entries(d2.aggregations) && e2.id == e.id;
      forall p ensures p in e.values <==> p in e2.values {
        EntryPoints(d1, e, p);
        EntryPoints(d2, e2, p);
      }
      StrictUnique(e.values, e2.values);
    }
  }

  lemma EntryPoints(d: Data, e: Entry, p: Point)
    requires DistinctIds(Entries(d.aggregations)) && e in Entries(d.aggregations)
    ensures HasPoint(d, e.id, p) <==> p in e.values
  {
    var es := Entries(d.aggregations);
    var k :| 0 <= k < |es| && es[k] == e;
    if HasPoint(d, e.id, p) {
      var j :| 0 <= j < |es| && es[j].id == e.id && p in es[j].values;
      assert j == k;
    }
  }

  /** A strictly increasing series is determined by its points. */
  lemma {:induction false} StrictUnique(a: seq<Point>, b: seq<Point>)
    requires StrictlyIncreasing(a) && StrictlyIncreasing(b)
    requires forall p :: p in a <==> p in b
    ensures a == b
  {
    if |a| > 0 {
      assert a[0] in a;
    }
    if |b| > 0 {
      assert b[0] in b;
    }
    if a != [] {
      LastIsLatest(a, b);
      LastIsLatest(b, a);
      var n, m := |a| - 1, |b| - 1;
      DropLast(a, b);
      DropLast(b, a);
      StrictUnique(AllButLast(a), AllButLast(b));
      assert a == a[..n] + [a[n]] && b == b[..m] + [b[m]];
    }
  }

  lemma LastIsLatest(a: seq<Point>, b: seq<Point>)
    requires StrictlyIncreasing(a) && StrictlyIncreasing(b) && a != [] && b != []
    requires forall p :: p in a ==> p in b
    ensures a[|a| - 1].ts <= b[|b| - 1].ts
    ensures a[|a| - 1].ts == b[|b| - 1].ts ==> a[|a| - 1] == b[|b| - 1]
  {
    assert a[|a| - 1] in a;
    var k :| 0 <= k < |b| && b[k] == a[|a| - 1];
  }

  function AllButLast<T>(s: seq<T>): seq<T>
    requires s != []
  {
    s[..|s| - 1]
  }

  lemma DropLast(a: seq<Point>, b: seq<Point>)
    requires StrictlyIncreasing(a) && a != [] && b != []
    requires forall p :: p in a ==> p in b
    requires a[|a| - 1] == b[|b| - 1]
    ensures forall p :: p in AllButLast(a) ==> p in AllButLast(b)
  {
    var n, m := |a| - 1, |b| - 1;
    forall p | p in AllButLast(a) ensures p in AllButLast(b) {
      var k :| 0 <= k < n && a[..n][k] == p;
      assert a[k] == p && p in a;
      var j :| 0 <= j < |b| && b[j] == p;
      assert b[..m][j] == p;
    }
  }
}
