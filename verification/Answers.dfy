/** Answers of the cached path on values, and that for every log, every stored spans and every query
    there is one. */
module Answers {
  import opened TimeSteps
  import opened Options
  import opened Sorting
  import opened TimeSeries
  import opened MissingRanges
  import opened SeriesMerge
  import opened BucketMerge
  import opened EventStore
  import opened DirectQuery
  import opened BucketCache
  import opened CacheCorrectness

  /** A lookup, the direct results of its missing ranges, and their merge. */
  ghost predicate Answered(store: Store, buckets: seq<Bucket>, q: Query, boundary: nat, cached: Option<Data>,
                           missing: seq<TimeRange>, results: seq<Data>, merged: Data)
    requires q.step > 0
  {
    ValidBuckets(store, q.step, buckets) && IsMissing(buckets, q, boundary, missing) && IsCached(buckets, q, cached)
    && FreshIsDirect(store, q.step, missing, results) && IsMergedResult(cached, results, Some(merged))
  }

  // ----- every series map can be rendered -----

  /** The series of these keys of one aggregation, each once, with its points sorted. */
  ghost predicate ListsKeys(list: seq<Series>, index: nat, m: map<Id, seq<Point>>, keys: set<SeriesKey>) {
    (forall i, j :: 0 <= i < j < |list| ==> list[i].key != list[j].key)
    && (forall i :: 0 <= i < |list| ==>
          list[i].key in keys && Id(index, list[i].key) in m && SortOf(list[i].values, m[Id(index, list[i].key)]))
    && forall key :: key in keys ==> exists i :: 0 <= i < |list| && list[i].key == key
  }

  lemma SeriesListExists(index: nat, m: map<Id, seq<Point>>, keys: set<SeriesKey>) returns (list: seq<Series>)
    requires forall key :: key in keys ==> Id(index, key) in m
    ensures ListsKeys(list, index, m, keys)
    decreases keys
  {
    if keys == {} {
      list := [];
    } else {
      var key :| key in keys;
      var rest := SeriesListExists(index, m, keys - {key});
      list := rest + [Series(key, SortedBy(m[Id(index, key)], (p: Point) => p.ts))];
      OneMoreKey(rest, list[|rest|], index, m, keys, key);
    }
  }

  lemma OneMoreKey(rest: seq<Series>, s: Series, index: nat, m: map<Id, seq<Point>>, keys: set<SeriesKey>, key: SeriesKey)
    requires key in keys && ListsKeys(rest, index, m, keys - {key})
    requires s.key == key && Id(index, key) in m && SortOf(s.values, m[Id(index, key)])
    ensures ListsKeys(rest + [s], index, m, keys)
  {
    var list := rest + [s];
    assert list[|rest|] == s;
    forall k | k in keys ensures exists i :: 0 <= i < |list| && list[i].key == k {
      if k != key {
        assert k in keys - {key};
        var i :| 0 <= i < |rest| && rest[i].key == k;
        assert list[i].key == k;
      }
    }
  }

  lemma SeriesListOfIndex(index: nat, m: map<Id, seq<Point>>) returns (list: seq<Series>)
    ensures SeriesListOf(list, index, m)
  {
    var keys := set id | id in m && id.agg == index :: id.key;
    list := SeriesListExists(index, m, keys);
    forall key | Id(index, key) in m ensures key in keys {
      assert Id(index, key).key in keys;
    }
  }

  lemma RenderingExists(m: map<Id, seq<Point>>, indexes: set<nat>) returns (d: Data)
    ensures Renders(d, indexes, OfIndexes(m, indexes))
    decreases indexes
  {
    if indexes == {} {
      NothingRendered(m);
      d := Data([]);
    } else {
      var index :| index in indexes;
      var rest := RenderingExists(m, indexes - {index});
      d := OneMoreRendered(m, indexes, index, rest);
    }
  }

  lemma OneMoreRendered(m: map<Id, seq<Point>>, indexes: set<nat>, index: nat, rest: Data) returns (d: Data)
    requires index in indexes && Renders(rest, indexes - {index}, OfIndexes(m, indexes - {index}))
    ensures Renders(d, indexes, OfIndexes(m, indexes))
  {
    var out, done := rest.aggregations, indexes - {index};
    assert Data(out) == rest;
    var list := SeriesListOfIndex(index, m);
    AppendAggregation(out, done, index, list, m);
    d := Data(out + [Aggregation(index, list)]);
    assert done + {index} == indexes;
  }

  lemma RenderingOf(m: map<Id, seq<Point>>, indexes: set<nat>) returns (d: Data)
    requires forall id :: id in m ==> id.agg in indexes
    ensures Renders(d, indexes, m)
  {
    d := RenderingExists(m, indexes);
    assert OfIndexes(m, indexes) == m;
  }

  // ----- every lookup and every merge has an answer -----

  lemma CachedExists(buckets: seq<Bucket>, q: Query) returns (cached: Option<Data>)
    ensures IsCached(buckets, q, cached)
  {
    var found := Overlapping(buckets, q.start, q.end);
    var relevant := SortedBy(found, (b: Bucket) => b.start);
    forall b ensures b in relevant <==> b in found {
      SameMembers(relevant, found, b);
    }
    if relevant == [] {
      cached := None;
      assert CachedVia(relevant, Data([]), buckets, q, cached);
    } else {
      var m := Absorbed(BucketEntries(relevant));
      var merged := RenderingOf(m, AggIndexes(m));
      cached := Some(Data(ClippedAggregations(merged.aggregations, q.start, q.end)));
      assert CachedVia(relevant, merged, buckets, q, cached);
    }
  }

  lemma MergedExists(cached: Option<Data>, results: seq<Data>) returns (merged: Option<Data>)
    ensures IsMergedResult(cached, results, merged)
  {
    if cached.None? && |results| == 0 {
      merged := None;
    } else if cached.None? && |results| == 1 {
      merged := Some(results[0]);
    } else if |results| == 0 {
      merged := cached;
    } else {
      WalkedIndexes(cached, results);
      var d := RenderingOf(Absorbed(ResultEntries(cached, results)), ResultIndexes(cached, results));
      merged := Some(d);
    }
  }

  lemma WalkedIndexes(cached: Option<Data>, results: seq<Data>)
    ensures forall id :: id in Absorbed(ResultEntries(cached, results)) ==> id.agg in ResultIndexes(cached, results)
  {
    var es := ResultEntries(cached, results);
    forall id | id in Absorbed(es) ensures id.agg in ResultIndexes(cached, results) {
      AbsorbedKeys(es, id);
      var k :| 0 <= k < |es| && es[k].id == id;
      var e := es[k];
      if e in FreshEntries(results) {
        FreshEntryMembers(results, e);
        var r :| r in results && e in Entries(r.aggregations);
        IndexOfEntry(r, e);
      } else {
        IndexOfEntry(cached.value, e);
      }
    }
  }

  lemma IndexOfEntry(d: Data, e: Entry)
    requires e in Entries(d.aggregations)
    ensures exists a :: a in d.aggregations && a.index == e.id.agg
  {
    EntryMembers(d.aggregations, e);
    var i, j :| 0 <= i < |d.aggregations| && 0 <= j < |d.aggregations[i].series|
                && e == Entry(Id(d.aggregations[i].index, d.aggregations[i].series[j].key), d.aggregations[i].series[j].values);
    assert d.aggregations[i] in d.aggregations;
  }

  // ----- every spans can be filled -----

  predicate SameSpans(a: seq<Bucket>, b: seq<Bucket>) {
    |a| == |b| && forall i :: 0 <= i < |a| ==> SameSpan(a[i], b[i])
  }

  /** The buckets refilled with what the log has for their spans, and for the window at their end. */
  function Filled(store: Store, buckets: seq<Bucket>, step: nat): seq<Bucket>
    requires step > 0
  {
    seq(|buckets|, i requires 0 <= i < |buckets| =>
      Bucket(buckets[i].start, buckets[i].end, Direct(store, buckets[i].start, buckets[i].end + step, step)))
  }

  lemma FilledIsValid(store: Store, buckets: seq<Bucket>, step: nat)
    requires step > 0 && BucketsNonEmpty(buckets) && BucketsAligned(buckets, step)
    ensures SameSpans(buckets, Filled(store, buckets, step)) && ValidBuckets(store, step, Filled(store, buckets, step))
  {
    var filled := Filled(store, buckets, step);
    forall b | b in filled ensures ValidBucket(store, step, b) {
      var i :| 0 <= i < |filled| && filled[i] == b;
      DirectFillsBucket(store, b, step);
    }
  }

  lemma DirectFillsBucket(store: Store, b: Bucket, step: nat)
    requires step > 0 && b.start < b.end && Aligned(b.start, step) && Aligned(b.end, step)
    requires b.value == Direct(store, b.start, b.end + step, step)
    ensures ValidBucket(store, step, b)
    ensures forall id: Id, p: Point | b.start <= p.ts <= b.end && Aligned(p.ts, step) && !p.partial
                                       && Truth(store, id, p.ts, step) == Some(p.value) :: HasPoint(b.value, id, p)
  {
    var end := b.end + step;
    ShiftAligned(b.end, step);
    DirectIsDirect(store, b.start, end, step);
    forall id: Id, p: Point | HasPoint(b.value, id, p)
      ensures !p.partial && Aligned(p.ts, step) && Truth(store, id, p.ts, step) == Some(p.value)
      ensures b.start <= p.ts <= b.end
    {
      assert DirectPoint(store, id, b.start, end, step, p);
      WindowInside(b.start, end, p.ts, step);
      WholePointIsTrue(store, id, b.start, end, step, p);
    }
    forall id: Id, p: Point | b.start <= p.ts <= b.end && Aligned(p.ts, step) && !p.partial
                   && Truth(store, id, p.ts, step) == Some(p.value)
      ensures HasPoint(b.value, id, p)
    {
      WindowInside(b.start, end, p.ts, step);
      TruthIsDirect(store, id, b.start, end, step, p);
    }
  }

  /** A window that meets an aligned range lies inside it. */
  lemma WindowInside(from: nat, to: nat, w: nat, step: nat)
    requires step > 0 && Aligned(from, step) && Aligned(to, step) && Aligned(w, step) && w < to && from < w + step
    ensures from <= w && w + step <= to
  {
    AlignedGap(w, to, step);
    if w < from {
      AlignedGap(w, from, step);
    }
  }

  lemma SpansAnswerAlike(a: seq<Bucket>, b: seq<Bucket>, q: Query, boundary: nat, missing: seq<TimeRange>)
    requires SameSpans(a, b) && q.step > 0
    ensures forall t :: InBuckets(a, t) <==> InBuckets(b, t)
    ensures IsMissing(a, q, boundary, missing) <==> IsMissing(b, q, boundary, missing)
  {
    forall t: int ensures InBuckets(a, t) <==> InBuckets(b, t) {
      if i :| 0 <= i < |a| && a[i].start <= t < a[i].end {
        BucketHolds(b, i, t);
      }
      if i :| 0 <= i < |b| && b[i].start <= t < b[i].end {
        BucketHolds(a, i, t);
      }
    }
    SameGaps(a, b, missing, q.start, q.end, boundary);
    assert BucketsAligned(a, q.step) <==> BucketsAligned(b, q.step);
  }

  function DirectResults(store: Store, missing: seq<TimeRange>, step: nat): seq<Data>
    requires step > 0
  {
    seq(|missing|, i requires 0 <= i < |missing| => Direct(store, missing[i].from, missing[i].to, step))
  }

  /** Whatever the log, the valid buckets and the query: there is an answer. */
  lemma AnswerExists(store: Store, buckets: seq<Bucket>, q: Query, boundary: nat, missing: seq<TimeRange>)
    returns (cached: Option<Data>, results: seq<Data>, merged: Data)
    requires q.step > 0 && q.start < q.end && ValidBuckets(store, q.step, buckets)
    requires IsMissing(buckets, q, boundary, missing)
    ensures Answered(store, buckets, q, boundary, cached, missing, results, merged)
  {
    cached := CachedExists(buckets, q);
    results := DirectResults(store, missing, q.step);
    forall i | 0 <= i < |missing| ensures IsDirect(store, missing[i].from, missing[i].to, q.step, results[i]) {
      DirectIsDirect(store, missing[i].from, missing[i].to, q.step);
    }
    var all := MergedExists(cached, results);
    if missing == [] {
      NothingMissingMeansCached(buckets, q, cached, boundary, missing);
    }
    merged := all.value;
  }
}
