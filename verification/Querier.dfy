/** Executing one query through the cache: the merge of cached and fresh results, and the whole of
    executeWithCache, with what the database answers as its parameters. */
module Querier {
  import opened Options
  import opened TimeSeries
  import opened SeriesMerge
  import opened Sorting
  import opened MissingRanges
  import opened BucketMerge
  import opened BucketCache
  import opened CacheCorrectness
  import opened EventStore

  /** What running a query gives: a result or an error. */
  datatype Outcome = Ok(data: Data) | Failed(error: string)

  // ----- merging -----

  type Nested = map<nat, map<SeriesKey, seq<Point>>>

  /** The nested series map and the flat one hold the same series. */
  ghost predicate SameSeries(nested: Nested, m: map<Id, seq<Point>>) {
    (forall id :: id in m <==> id.agg in nested && id.key in nested[id.agg])
    && forall id :: id in m ==> m[id] == nested[id.agg][id.key]
  }

  /** One series enters the nested map: its points with new timestamps, or all of it when it is new. */
  method AbsorbIntoNested(nested: Nested, ghost m: map<Id, seq<Point>>, index: nat, series: Series) returns (r: Nested)
    requires SameSeries(nested, m) && index in nested
    ensures SameSeries(r, AbsorbOne(m, Entry(Id(index, series.key), series.values)))
    ensures r.Keys == nested.Keys
  {
    assert Id(index, series.key) in m <==> series.key in nested[index];
    if series.key in nested[index] {
      var merged := AddNewPoints(nested[index][series.key], series.values);
      r := nested[index := nested[index][series.key := merged]];
    } else {
      r := nested[index := nested[index][series.key := series.values]];
    }
  }

  method AbsorbAggregation(nested: Nested, ghost walked: seq<Entry>, agg: Aggregation) returns (r: Nested)
    requires SameSeries(nested, Absorbed(walked)) && agg.index in nested
    ensures SameSeries(r, Absorbed(walked + SeriesEntries(agg.index, agg.series)))
    ensures r.Keys == nested.Keys
  {
    r := nested;
    ghost var es := SeriesEntries(agg.index, agg.series);
    assert walked + es[..0] == walked;
    for j := 0 to |agg.series|
      invariant SameSeries(r, Absorbed(walked + es[..j])) && r.Keys == nested.Keys
    {
      r := AbsorbIntoNested(r, Absorbed(walked + es[..j]), agg.index, agg.series[j]);
      WalkOneMore(walked, es, j);
    }
    assert es[..|agg.series|] == es;
  }

  ghost function Indexes(aggs: seq<Aggregation>): set<nat> {
    set a | a in aggs :: a.index
  }

  lemma OneMoreIndex(aggs: seq<Aggregation>, i: nat)
    requires i < |aggs|
    ensures Indexes(aggs[..i + 1]) == Indexes(aggs[..i]) + {aggs[i].index}
  {
    assert aggs[..i + 1] == aggs[..i] + [aggs[i]];
  }

  /** Makes sure every aggregation of a result has an inner map. */
  method AddIndexes(nested: Nested, ghost m: map<Id, seq<Point>>, aggs: seq<Aggregation>) returns (r: Nested)
    requires SameSeries(nested, m)
    ensures SameSeries(r, m) && r.Keys == nested.Keys + Indexes(aggs)
  {
    r := nested;
    for i := 0 to |aggs|
      invariant SameSeries(r, m) && r.Keys == nested.Keys + Indexes(aggs[..i])
    {
      OneMoreIndex(aggs, i);
      if aggs[i].index !in r {
        r := r[aggs[i].index := map[]];
      }
    }
    assert aggs[..|aggs|] == aggs;
  }

  method AbsorbResult(nested: Nested, ghost walked: seq<Entry>, aggs: seq<Aggregation>) returns (r: Nested)
    requires SameSeries(nested, Absorbed(walked))
    ensures SameSeries(r, Absorbed(walked + Entries(aggs))) && r.Keys == nested.Keys + Indexes(aggs)
  {
    r := AddIndexes(nested, Absorbed(walked), aggs);
    assert walked + [] == walked;
    for i := 0 to |aggs|
      invariant SameSeries(r, Absorbed(walked + Entries(aggs[..i]))) && r.Keys == nested.Keys + Indexes(aggs)
    {
      assert aggs[i] in aggs;
      r := AbsorbAggregation(r, walked + Entries(aggs[..i]), aggs[i]);
      WalkOneAggregation(walked, aggs, i);
    }
    assert aggs[..|aggs|] == aggs;
  }

  /** The series of one inner map, sorted one by one, in whatever order the map yields them. */
  method ListSeries(inner: map<SeriesKey, seq<Point>>, ghost index: nat, ghost m: map<Id, seq<Point>>) returns (list: seq<Series>)
    requires forall key :: Id(index, key) in m <==> key in inner
    requires forall key :: key in inner ==> m[Id(index, key)] == inner[key]
    ensures SeriesListOf(list, index, m)
  {
    list := [];
    var todo := inner.Keys;
    ghost var done: set<SeriesKey> := {};
    while todo != {}
      invariant todo + done == inner.Keys && todo !! done
      invariant forall i, j :: 0 <= i < j < |list| ==> list[i].key != list[j].key
      invariant forall i :: 0 <= i < |list| ==> list[i].key in done && SortOf(list[i].values, inner[list[i].key])
      invariant forall key :: key in done ==> exists i :: 0 <= i < |list| && list[i].key == key
      decreases todo
    {
      var key :| key in todo;
      MoveOne(todo, done, inner.Keys, key);
      var values := SortedBy(inner[key], (p: Point) => p.ts);
      ghost var before := list;
      list := list + [Series(key, values)];
      assert list[|before|].key == key;
      assert forall i :: 0 <= i < |before| ==> list[i] == before[i];
      todo := todo - {key};
      done := done + {key};
    }
    assert done == inner.Keys;
  }

  method RenderNested(nested: Nested, ghost m: map<Id, seq<Point>>) returns (d: Data)
    requires SameSeries(nested, m)
    ensures Renders(d, nested.Keys, m)
  {
    var out: seq<Aggregation> := [];
    var todo := nested.Keys;
    ghost var done: set<nat> := {};
    NothingRendered(m);
    while todo != {}
      invariant todo + done == nested.Keys && todo !! done
      invariant Renders(Data(out), done, OfIndexes(m, done))
      decreases todo
    {
      var index :| index in todo;
      MoveOne(todo, done, nested.Keys, index);
      InnerIsSlice(nested, m, index);
      var list := ListSeries(nested[index], index, m);
      AppendAggregation(out, done, index, list, m);
      out := out + [Aggregation(index, list)];
      todo := todo - {index};
      done := done + {index};
    }
    EverythingRendered(nested, m, done);
    d := Data(out);
  }

  lemma InnerIsSlice(nested: Nested, m: map<Id, seq<Point>>, index: nat)
    requires SameSeries(nested, m) && index in nested
    ensures forall key :: Id(index, key) in m <==> key in nested[index]
    ensures forall key :: key in nested[index] ==> m[Id(index, key)] == nested[index][key]
  {
    forall key ensures Id(index, key) in m <==> key in nested[index] {
      var id := Id(index, key);
      assert id in m <==> id.agg in nested && id.key in nested[id.agg];
    }
  }

  lemma EverythingRendered(nested: Nested, m: map<Id, seq<Point>>, done: set<nat>)
    requires SameSeries(nested, m) && {} + done == nested.Keys
    ensures done == nested.Keys && OfIndexes(m, done) == m
  {
    assert done == nested.Keys;
  }

  method AbsorbFresh(nested: Nested, ghost walked: seq<Entry>, results: seq<Data>) returns (r: Nested)
    requires SameSeries(nested, Absorbed(walked))
    ensures SameSeries(r, Absorbed(walked + FreshEntries(results))) && r.Keys == nested.Keys + FreshIndexes(results)
  {
    r := nested;
    assert walked + FreshEntries([]) == walked;
    for i := 0 to |results|
      invariant SameSeries(r, Absorbed(walked + FreshEntries(results[..i])))
      invariant r.Keys == nested.Keys + FreshIndexes(results[..i])
    {
      OneMoreResult(walked, results, i);
      r := AbsorbResult(r, walked + FreshEntries(results[..i]), results[i].aggregations);
    }
    assert results[..|results|] == results;
  }

  method MergeTimeSeriesResults(cached: Option<Data>, results: seq<Data>) returns (d: Data)
    ensures Renders(d, ResultIndexes(cached, results), Absorbed(ResultEntries(cached, results)))
  {
    var nested: Nested := map[];
    ghost var walked: seq<Entry> := [];
    if cached.Some? {
      nested := AbsorbResult(nested, walked, cached.value.aggregations);
      walked := walked + Entries(cached.value.aggregations);
    }
    nested := AbsorbFresh(nested, walked, results);
    AllWalked(cached, results);
    d := RenderNested(nested, Absorbed(ResultEntries(cached, results)));
  }

  ghost function FreshIndexes(results: seq<Data>): set<nat> {
    set r, a | r in results && a in r.aggregations :: a.index
  }

  lemma AllWalked(cached: Option<Data>, results: seq<Data>)
    ensures ResultEntries(cached, results) == (if cached.Some? then [] + Entries(cached.value.aggregations) else []) + FreshEntries(results)
    ensures ResultIndexes(cached, results) == (if cached.Some? then Indexes(cached.value.aggregations) else {}) + FreshIndexes(results)
  {
    if cached.Some? {
      assert [] + Entries(cached.value.aggregations) == Entries(cached.value.aggregations);
    }
  }

  lemma OneMoreResult(walked: seq<Entry>, results: seq<Data>, i: nat)
    requires i < |results|
    ensures walked + FreshEntries(results[..i + 1])
            == (walked + FreshEntries(results[..i])) + Entries(results[i].aggregations)
    ensures FreshIndexes(results[..i + 1]) == FreshIndexes(results[..i]) + Indexes(results[i].aggregations)
  {
    assert results[..i + 1][..i] == results[..i];
    assert results[..i + 1] == results[..i] + [results[i]];
  }

  method MergeResults(cached: Option<Data>, results: seq<Data>) returns (merged: Option<Data>)
    ensures IsMergedResult(cached, results, merged)
  {
    if cached.None? {
      if |results| == 1 {
        return Some(results[0]);
      }
      if |results| == 0 {
        return None;
      }
      var all := MergeTimeSeriesResults(None, results);
      return Some(all);
    }
    if |results| == 0 {
      return cached;
    }
    var all := MergeTimeSeriesResults(cached, results);
    return Some(all);
  }

  // ----- executing a query -----

  /** The database answers every range with a direct query of the store, or fails. */
  ghost predicate AnswersDirectly(store: Store, step: nat, full: Outcome, q: Query, ranged: TimeRange -> Outcome)
    requires step > 0
  {
    (full.Ok? ==> IsDirect(store, q.start, q.end, step, full.data))
    && forall r :: ranged(r).Ok? ==> IsDirect(store, r.from, r.to, step, ranged(r).data)
  }

  class Querier {
    const bucketCache: BucketCache

    constructor (bucketCache: BucketCache)
      ensures this.bucketCache == bucketCache
    {
      this.bucketCache := bucketCache;
    }

    ghost predicate KeyIsValid(store: Store, q: Query)
      requires q.step > 0
      reads this, bucketCache
    {
      q.key in bucketCache.stored ==> ValidBuckets(store, q.step, bucketCache.stored[q.key])
    }

    /** Writes a faithful result back. */
    method PutFaithful(ghost store: Store, q: Query, now: nat, result: Data, readable: bool, writable: bool)
      requires bucketCache.Valid() && q.start < q.end && q.step > 0
      requires KeyIsValid(store, q) && Faithful(store, q, result)
      modifies bucketCache
      ensures bucketCache.Valid() && KeyIsValid(store, q)
      ensures PutEffect(old(bucketCache.stored), bucketCache.stored, q, FluxBoundary(now, bucketCache.fluxInterval), result, readable, writable)
    {
      ghost var before := bucketCache.stored;
      bucketCache.Put(q, now, result, readable, writable);
      PutKeepsKeyValid(store, before, bucketCache.stored, q, FluxBoundary(now, bucketCache.fluxInterval), result, readable, writable);
    }

    /** Answers a query from the cache and the database, and writes the result back. The answer is
        the one the lookup determines; it fails only when the database fails on the whole range, and
        otherwise it is faithful to the direct query, whatever of the cache could be read or written.
        What the cache holds stays valid, and a pure hit or a failure leaves it alone. */
    method ExecuteWithCache(ghost store: Store, q: Query, now: nat, full: Outcome, ranged: TimeRange -> Outcome,
                            readable: bool, rereadable: bool, writable: bool)
      returns (r: Outcome, ghost cached: Option<Data>, ghost missing: seq<TimeRange>)
      requires bucketCache.Valid() && q.start < q.end && q.step > 0
      requires KeyIsValid(store, q)
      requires AnswersDirectly(store, q.step, full, q, ranged)
      modifies bucketCache
      ensures bucketCache.Valid() && KeyIsValid(store, q)
      ensures IsAnswer(if readable then old(bucketCache.Stored(q.key)) else None, q, FluxBoundary(now, bucketCache.fluxInterval), cached, missing)
      ensures IsExecution(q, cached, missing, full, ranged, r)
      ensures r.Ok? ==> Faithful(store, q, r.data)
      ensures if r.Failed? || (missing == [] && cached.Some?) then bucketCache.stored == old(bucketCache.stored)
              else PutEffect(old(bucketCache.stored), bucketCache.stored, q, FluxBoundary(now, bucketCache.fluxInterval),
                             r.data, rereadable, writable)
    {
      ghost var boundary := FluxBoundary(now, bucketCache.fluxInterval);
      var cachedResult, missingRanges := bucketCache.GetMissRanges(q, now, readable);
      cached, missing := cachedResult, missingRanges;
      if |missingRanges| == 0 && cachedResult.Some? {
        FaithfulAnswer(store, bucketCache.stored, q, boundary, readable, cached, missing, [], cached);
        return Ok(cachedResult.value), cached, missing;
      }
      var whole := false;
      if cachedResult.None? && |missingRanges| == 1 {
        whole := missingRanges[0].from == q.start && missingRanges[0].to == q.end;
      }
      var results: seq<Data> := [];
      if !whole {
        var slots := FetchAll(missingRanges, ranged);
        results, whole := Collect(slots);
      }
      if whole {
        r := full;
        if full.Ok? {
          DirectIsFaithful(store, q, full.data);
          PutFaithful(store, q, now, full.data, rereadable, writable);
        }
        return;
      }
      var merged := MergeResults(cachedResult, results);
      FaithfulAnswer(store, bucketCache.stored, q, boundary, readable, cached, missing, results, merged);
      PutFaithful(store, q, now, merged.value, rereadable, writable);
      assert AllFetched(missing, ranged, results);
      r := Ok(merged.value);
    }
  }

  ghost predicate AllFetched(missing: seq<TimeRange>, ranged: TimeRange -> Outcome, results: seq<Data>) {
    |results| == |missing| && forall i :: 0 <= i < |missing| ==> ranged(missing[i]) == Ok(results[i])
  }

  /** Which answer the lookup leads to: the cached result alone, the whole query (when everything is
      missing or some range failed), or the cached result merged with the result of every missing range. */
  ghost predicate IsExecution(q: Query, cached: Option<Data>, missing: seq<TimeRange>, full: Outcome,
                              ranged: TimeRange -> Outcome, r: Outcome)
  {
    if missing == [] && cached.Some? then r == Ok(cached.value)
    else if cached.None? && missing == [TimeRange(q.start, q.end)] then r == full
    else if exists i :: 0 <= i < |missing| && ranged(missing[i]).Failed? then r == full
    else r.Ok? && exists results :: AllFetched(missing, ranged, results) && IsMergedResult(cached, results, Some(r.data))
  }

  lemma PutKeepsKeyValid(store: Store, before: map<CacheKey, seq<Bucket>>, after: map<CacheKey, seq<Bucket>>,
                         q: Query, boundary: nat, result: Data, readable: bool, writable: bool)
    requires q.step > 0 && Faithful(store, q, result)
    requires q.key in before ==> ValidBuckets(store, q.step, before[q.key])
    requires PutEffect(before, after, q, boundary, result, readable, writable)
    ensures q.key in after ==> ValidBuckets(store, q.step, after[q.key])
  {
    var existing := if readable && q.key in before then before[q.key] else [];
    if writable && WritesBack(existing, q, boundary, result) {
      WriteKeepsValid(store, q, boundary, existing, result, after[q.key]);
    }
  }

  /** The slots once every goroutine is done: slot i holds what range i's query gave. */
  method FetchAll(missing: seq<TimeRange>, ranged: TimeRange -> Outcome) returns (slots: seq<Outcome>)
    ensures |slots| == |missing| && forall i :: 0 <= i < |missing| ==> slots[i] == ranged(missing[i])
  {
    slots := [];
    for i := 0 to |missing|
      invariant |slots| == i && forall k :: 0 <= k < i ==> slots[k] == ranged(missing[k])
    {
      slots := slots + [ranged(missing[i])];
    }
  }

  /** Any failed slot makes the whole fetch fail; otherwise the results are taken in slot order. */
  method Collect(slots: seq<Outcome>) returns (results: seq<Data>, failed: bool)
    ensures failed <==> exists i :: 0 <= i < |slots| && slots[i].Failed?
    ensures !failed ==> |results| == |slots| && forall i :: 0 <= i < |slots| ==> slots[i] == Ok(results[i])
  {
    results, failed := [], false;
    for i := 0 to |slots|
      invariant |results| == i && forall k :: 0 <= k < i ==> slots[k] == Ok(results[k])
    {
      if slots[i].Failed? {
        return [], true;
      }
      results := results + [slots[i].data];
    }
  }

  /** A merged answer is faithful, and there always is one unless the whole range was missing. */
  lemma FaithfulAnswer(store: Store, stored: map<CacheKey, seq<Bucket>>, q: Query, boundary: nat, readable: bool,
                       cached: Option<Data>, missing: seq<TimeRange>, results: seq<Data>, merged: Option<Data>)
    requires q.step > 0 && q.start < q.end
    requires q.key in stored ==> ValidBuckets(store, q.step, stored[q.key])
    requires IsAnswer(if readable && q.key in stored then Some(stored[q.key]) else None, q, boundary, cached, missing)
    requires !(cached.None? && |missing| == 1 && missing[0].from == q.start && missing[0].to == q.end)
    requires FreshIsDirect(store, q.step, missing, results)
    requires IsMergedResult(cached, results, merged)
    ensures merged.Some? && Faithful(store, q, merged.value)
  {
    var buckets := stored[q.key];
    if missing == [] {
      NothingMissingMeansCached(buckets, q, cached, boundary, missing);
    }
    MergedIsFaithful(store, buckets, q, cached, boundary, missing, results, merged);
  }
}
