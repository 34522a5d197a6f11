/** The bucket cache itself: what a lookup answers and what a write leaves behind. */
module BucketCache {
  import opened TimeSteps
  import opened Options
  import opened TimeSeries
  import opened MissingRanges
  import opened BucketMerge
  import opened Words

  /** Organisation and fingerprint of a query; the fingerprint includes the step. */
  type CacheKey = string

  /** A query as the cache sees it. Requests are rejected unless they start before they end. */
  datatype Query = Query(key: CacheKey, start: nat, end: nat, step: nat)

  /** Times later than this may still change; the subtraction is on unsigned 64-bit numbers. */
  function FluxBoundary(now: nat, fluxInterval: nat): nat {
    if now >= fluxInterval then now - fluxInterval else U64(now - fluxInterval)
  }

  /** What the search for missing ranges promises, at a time that makes boundary the flux boundary. */
  ghost predicate IsMissing(buckets: seq<Bucket>, q: Query, boundary: nat, missing: seq<TimeRange>) {
    Covered(buckets, missing, q.start, q.end, q.end)
    && (q.step > 0 && q.start + q.step <= q.end && BucketsAligned(buckets, q.step) ==>
          Chained(missing, q.start, q.end)
          && CutAtSteps(missing, q.start, q.end, q.step)
          && LeadAndGaps(buckets, missing, q.start, q.end, q.step))
    && (q.step == 0 || q.start + q.step > q.end ==> Gaps(buckets, missing, q.start, q.end, boundary))
  }

  ghost predicate CachedVia(relevant: seq<Bucket>, merged: Data, buckets: seq<Bucket>, q: Query, cached: Option<Data>) {
    RelevantOf(relevant, buckets, q.start, q.end)
    && if relevant == [] then cached == None
       else Renders(merged, AggIndexes(Absorbed(BucketEntries(relevant))), Absorbed(BucketEntries(relevant)))
            && cached == Some(Data(ClippedAggregations(merged.aggregations, q.start, q.end)))
  }

  /** The cached part: the overlapping buckets merged and cut to the range, or nothing without them. */
  ghost predicate IsCached(buckets: seq<Bucket>, q: Query, cached: Option<Data>) {
    exists relevant, merged :: CachedVia(relevant, merged, buckets, q, cached)
  }

  /** The answer of a lookup, given what is stored under the query's key. */
  ghost predicate IsAnswer(stored: Option<seq<Bucket>>, q: Query, boundary: nat, cached: Option<Data>, missing: seq<TimeRange>) {
    match stored
    case None => cached == None && missing == [TimeRange(q.start, q.end)]
    case Some(buckets) => IsMissing(buckets, q, boundary, missing) && IsCached(buckets, q, cached)
  }

  /** Where the cachable part of a query begins and ends. */
  function CachableStart(q: Query): nat {
    if q.step > 0 then CeilTo(q.start, q.step) else q.start
  }

  function CachableEnd(q: Query, boundary: nat): nat {
    if q.step > 0 then FloorTo(Min(q.end, boundary), q.step) else Min(q.end, boundary)
  }

  /** The new bucket of a write; a result without any aggregation makes none. */
  function AddedBuckets(q: Query, boundary: nat, result: Data): seq<Bucket> {
    if result.aggregations == [] then []
    else [Bucket(CachableStart(q), CachableEnd(q, boundary), TrimmedData(result, Min(q.end, boundary)))]
  }

  /** Whether a write happens at all. */
  predicate WritesBack(existing: seq<Bucket>, q: Query, boundary: nat, result: Data) {
    q.start < boundary
    && CachableStart(q) < CachableEnd(q, boundary)
    && (result.aggregations != [] || existing != [])
  }

  /** What a write does to the store, given what it read under the key before. */
  ghost predicate PutEffect(before: map<CacheKey, seq<Bucket>>, after: map<CacheKey, seq<Bucket>>,
                            q: Query, boundary: nat, result: Data, readable: bool, writable: bool)
  {
    var existing := if readable && q.key in before then before[q.key] else [];
    if writable && WritesBack(existing, q, boundary, result)
    then q.key in after && after == before[q.key := after[q.key]]
         && Deduplicated(after[q.key], existing, AddedBuckets(q, boundary, result))
    else after == before
  }

  // ----- the flux interval -----

  /** The time up to which a query's data is settled: its end, or the flux interval before now if that is
      earlier. A clock that reads less than the flux interval holds nothing back. */
  predicate IsLimit(q: Query, now: nat, fluxInterval: nat, limit: nat) {
    limit <= q.end
    && (now >= fluxInterval ==> limit <= now - fluxInterval)
    && (limit == q.end || (now >= fluxInterval && limit == now - fluxInterval))
  }

  /** Unless a time would leave 64 bits. */
  predicate InWords(q: Query, now: nat, fluxInterval: nat) {
    now < TWO_TO_THE_64 && (now >= fluxInterval || q.end + fluxInterval <= TWO_TO_THE_64)
  }

  /** Some whole step of the query ends by the limit; without steps, any part of it lies before. */
  ghost predicate StepBetween(q: Query, limit: nat) {
    if q.step == 0 then q.start < limit
    else exists w: nat :: Aligned(w, q.step) && q.start <= w && w + q.step <= limit
  }

  /** A bucket from the first step at or behind the query's start to the last one at or before the
      limit, or from the start to the limit without steps, with exactly the whole points of the result up
      to the limit. */
  ghost predicate EndsBehind(b: Bucket, q: Query, limit: nat, result: Data) {
    (if q.step == 0 then b.start == q.start && b.end == limit
     else Aligned(b.start, q.step) && q.start <= b.start < q.start + q.step
          && Aligned(b.end, q.step) && b.end <= limit < b.end + q.step)
    && forall id: Id, p: Point :: HasPoint(b.value, id, p) <==> HasPoint(result, id, p) && !p.partial && p.ts <= limit
  }

  /** What a write may do, seen from the limit: add such a bucket, or, without a whole step, nothing;
      and with a result that has aggregations it does add it. */
  ghost predicate KeepsOutOfFlux(before: map<CacheKey, seq<Bucket>>, after: map<CacheKey, seq<Bucket>>, q: Query, limit: nat,
                                 result: Data, writable: bool)
  {
    (forall b :: q.key in after && b in after[q.key] ==>
       (q.key in before && b in before[q.key]) || EndsBehind(b, q, limit, result))
    && (writable && result.aggregations != [] && StepBetween(q, limit) ==>
          q.key in after && exists b :: b in after[q.key] && EndsBehind(b, q, limit, result))
    && (!writable || !StepBetween(q, limit) ==> after == before)
  }

  /** Other keys stay as they were, and a bucket of this one is at most replaced by one of the same span. */
  ghost predicate KeepsStored(before: map<CacheKey, seq<Bucket>>, after: map<CacheKey, seq<Bucket>>, q: Query) {
    (forall key :: key != q.key ==> (key in after <==> key in before) && (key in before ==> after[key] == before[key]))
    && (q.key in before ==> q.key in after && forall b :: b in before[q.key] ==> SpanIsKept(after[q.key], b))
  }

  ghost predicate SpanIsKept(buckets: seq<Bucket>, b: Bucket) {
    exists c :: c in buckets && SameSpan(c, b)
  }

  /** Sorted by start, and no two of one span. */
  ghost predicate IsTidy(buckets: seq<Bucket>) {
    SortedByStart(buckets) && forall i, j :: 0 <= i < j < |buckets| ==> !SameSpan(buckets[i], buckets[j])
  }

  /** What is stored is tidied up by a write, even if the result adds nothing. */
  ghost predicate Tidies(before: map<CacheKey, seq<Bucket>>, after: map<CacheKey, seq<Bucket>>, q: Query, limit: nat)
  {
    q.key in before && before[q.key] != [] && StepBetween(q, limit) ==> q.key in after && IsTidy(after[q.key])
  }

  lemma {:induction false} SpanIsEntered(buckets: seq<Bucket>, b: Bucket)
    requires b in buckets
    ensures (b.start, b.end) in BySpan(buckets)
  {
    var n := |buckets| - 1;
    if b != buckets[n] {
      assert buckets == buckets[..n] + [buckets[n]];
      SpanIsEntered(buckets[..n], b);
    }
  }

  lemma SpansAreKept(merged: seq<Bucket>, existing: seq<Bucket>, added: seq<Bucket>, b: Bucket)
    requires Deduplicated(merged, existing, added) && b in existing
    ensures SpanIsKept(merged, b)
  {
    SpanIsEntered(existing + added, b);
    var c := BySpan(existing + added)[(b.start, b.end)];
    BySpanKeepsLast(existing + added, c);
  }

  lemma EffectKeepsStored(before: map<CacheKey, seq<Bucket>>, after: map<CacheKey, seq<Bucket>>, q: Query, boundary: nat,
                          result: Data, writable: bool)
    requires PutEffect(before, after, q, boundary, result, true, writable)
    ensures KeepsStored(before, after, q)
  {
    if q.key in before {
      forall b | b in before[q.key] ensures q.key in after && SpanIsKept(after[q.key], b) {
        if writable && WritesBack(before[q.key], q, boundary, result) {
          SpansAreKept(after[q.key], before[q.key], AddedBuckets(q, boundary, result), b);
        } else {
          assert SameSpan(b, b);
        }
      }
    }
  }

  lemma LimitIsMin(q: Query, now: nat, fluxInterval: nat, limit: nat)
    requires IsLimit(q, now, fluxInterval, limit) && InWords(q, now, fluxInterval)
    ensures limit == Min(q.end, FluxBoundary(now, fluxInterval))
  {
    if now < fluxInterval {
      BelowZero(fluxInterval - now);
    }
  }

  lemma BelowZero(x: int)
    requires 0 < x <= TWO_TO_THE_64
    ensures x < TWO_TO_THE_64 ==> U64(-x) + x == TWO_TO_THE_64
    ensures x == TWO_TO_THE_64 ==> U64(-x) == 0
  {
  }

  lemma CachableIsStepBetween(q: Query, boundary: nat)
    requires q.start < q.end
    ensures CachableStart(q) < CachableEnd(q, boundary) <==> StepBetween(q, Min(q.end, boundary))
  {
    var limit := Min(q.end, boundary);
    if q.step == 0 {
      return;
    }
    if CachableStart(q) < CachableEnd(q, boundary) {
      AlignedGap(CachableStart(q), CachableEnd(q, boundary), q.step);
      assert Aligned(CachableStart(q), q.step);
    }
    if w: nat :| Aligned(w, q.step) && q.start <= w && w + q.step <= limit {
      ShiftAligned(w, q.step);
      if w < CachableStart(q) {
        AlignedGap(w, CachableStart(q), q.step);
      }
      if FloorTo(limit, q.step) < w + q.step {
        AlignedGap(FloorTo(limit, q.step), w + q.step, q.step);
      }
    }
  }

  lemma AddedEndsBehind(q: Query, boundary: nat, result: Data)
    requires result.aggregations != []
    ensures EndsBehind(AddedBuckets(q, boundary, result)[0], q, Min(q.end, boundary), result)
  {
    TrimmedPoints(result, Min(q.end, boundary));
  }

  /** What a write does keeps the cache out of the flux interval. */
  lemma EffectKeepsOut(before: map<CacheKey, seq<Bucket>>, after: map<CacheKey, seq<Bucket>>, q: Query, boundary: nat,
                       result: Data, readable: bool, writable: bool)
    requires q.start < q.end && PutEffect(before, after, q, boundary, result, readable, writable)
    ensures KeepsOutOfFlux(before, after, q, Min(q.end, boundary), result, writable)
  {
    CachableIsStepBetween(q, boundary);
    var existing := if readable && q.key in before then before[q.key] else [];
    var added := AddedBuckets(q, boundary, result);
    if result.aggregations != [] {
      AddedEndsBehind(q, boundary, result);
    }
    if writable && WritesBack(existing, q, boundary, result) {
      forall b | b in after[q.key] ensures b in existing || b in added {
        KeptFromInputs(after[q.key], existing, added, b);
      }
      if result.aggregations != [] {
        NewestStays(after[q.key], existing, added[0]);
      }
    }
  }

  lemma NewestStays(merged: seq<Bucket>, existing: seq<Bucket>, b: Bucket)
    requires Deduplicated(merged, existing, [b])
    ensures b in merged
  {
    assert (existing + [b])[|existing|] == b;
    assert LastWithSpan(existing + [b], b);
  }

  class BucketCache {
    var stored: map<CacheKey, seq<Bucket>>
    const fluxInterval: nat

    ghost predicate Valid()
      reads this
    {
      forall key :: key in stored ==> BucketsNonEmpty(stored[key])
    }

    constructor (fluxInterval: nat)
      ensures Valid() && stored == map[] && this.fluxInterval == fluxInterval
    {
      stored := map[];
      this.fluxInterval := fluxInterval;
    }

    ghost function Stored(key: CacheKey): Option<seq<Bucket>>
      reads this
    {
      if key in stored then Some(stored[key]) else None
    }

    /** readable is whether the underlying store answers; when it does not, everything is missing. */
    method GetMissRanges(q: Query, now: nat, readable: bool) returns (cached: Option<Data>, missing: seq<TimeRange>)
      requires Valid()
      ensures IsAnswer(if readable then Stored(q.key) else None, q, FluxBoundary(now, fluxInterval), cached, missing)
      ensures readable && q.key in stored && now >= fluxInterval && (q.step == 0 || q.start + q.step > q.end) ==>
                Gaps(stored[q.key], missing, q.start, q.end, now - fluxInterval)
    {
      if !readable || q.key !in stored {
        return None, [TimeRange(q.start, q.end)];
      }
      var buckets := stored[q.key];
      missing := FindMissingRangesWithStep(buckets, q.start, q.end, q.step, FluxBoundary(now, fluxInterval));
      if |buckets| == 0 {
        assert CachedVia([], Data([]), buckets, q, None);
        return None, missing;
      }
      var relevant := FilterRelevantBuckets(buckets, q.start, q.end);
      if |relevant| == 0 {
        assert CachedVia(relevant, Data([]), buckets, q, None);
        return None, missing;
      }
      var merged := MergeTimeSeriesValues(relevant);
      var filtered := FilterResultToTimeRange(merged, q.start, q.end);
      cached := Some(filtered);
      assert CachedVia(relevant, merged, buckets, q, cached);
    }

    /** Writes back only whole steps outside the flux interval. readable and writable are whether the
        underlying store answers the read and takes the write. */
    method Put(q: Query, now: nat, result: Data, readable: bool, writable: bool)
      requires Valid() && q.start < q.end
      modifies this
      ensures Valid()
      ensures PutEffect(old(stored), stored, q, FluxBoundary(now, fluxInterval), result, readable, writable)
      ensures InWords(q, now, fluxInterval) ==>
                forall limit :: IsLimit(q, now, fluxInterval, limit) ==>
                  KeepsOutOfFlux(old(stored), stored, q, limit, result, writable)
      ensures readable ==> KeepsStored(old(stored), stored, q)
      ensures InWords(q, now, fluxInterval) && readable && writable ==>
                forall limit :: IsLimit(q, now, fluxInterval, limit) ==> Tidies(old(stored), stored, q, limit)
    {
      ghost var before := stored;
      WriteBack(q, now, result, readable, writable);
      if readable {
        EffectKeepsStored(before, stored, q, FluxBoundary(now, fluxInterval), result, writable);
      }
      if InWords(q, now, fluxInterval) {
        EffectKeepsOut(before, stored, q, FluxBoundary(now, fluxInterval), result, readable, writable);
        forall limit | IsLimit(q, now, fluxInterval, limit) ensures KeepsOutOfFlux(before, stored, q, limit, result, writable) {
          LimitIsMin(q, now, fluxInterval, limit);
        }
        if readable && writable {
          CachableIsStepBetween(q, FluxBoundary(now, fluxInterval));
          forall limit | IsLimit(q, now, fluxInterval, limit) ensures Tidies(before, stored, q, limit) {
            LimitIsMin(q, now, fluxInterval, limit);
          }
        }
      }
    }

    method WriteBack(q: Query, now: nat, result: Data, readable: bool, writable: bool)
      requires Valid() && q.start < q.end
      modifies this
      ensures Valid()
      ensures PutEffect(old(stored), stored, q, FluxBoundary(now, fluxInterval), result, readable, writable)
    {
      var fluxBoundary := FluxBoundary(now, fluxInterval);
      if q.start >= fluxBoundary {
        return;
      }
      var cachableEnd := q.end;
      if q.end > fluxBoundary {
        cachableEnd := fluxBoundary;
      }
      var existing := if readable && q.key in stored then stored[q.key] else [];
      var trimmed := TrimResultToFluxBoundary(result, cachableEnd);
      var cachableStart := q.start;
      if q.step > 0 {
        CachableBounds(q, fluxBoundary);
        if q.start % q.step != 0 {
          cachableStart := (q.start / q.step + 1) * q.step;
        }
        if cachableEnd % q.step != 0 {
          cachableEnd := cachableEnd / q.step * q.step;
        }
        if cachableStart >= cachableEnd {
          return;
        }
      }
      var added := ResultToBuckets(trimmed, cachableStart, cachableEnd);
      if |added| == 0 && |existing| == 0 {
        return;
      }
      var merged := MergeAndDeduplicateBuckets(existing, added);
      MergedNonEmpty(merged, existing, added);
      if writable {
        stored := stored[q.key := merged];
      }
    }

    /** Eviction and expiry of an entry. */
    method Evict(key: CacheKey)
      requires Valid()
      modifies this
      ensures Valid() && stored == old(stored) - {key}
    {
      stored := stored - {key};
    }
  }

  /** A truly empty result is not cached; one whose series were filtered out is. */
  method ResultToBuckets(trimmed: Data, start: nat, end: nat) returns (added: seq<Bucket>)
    ensures added == if trimmed.aggregations == [] then [] else [Bucket(start, end, trimmed)]
  {
    var isEmpty, isFiltered := IsEmptyResult(trimmed);
    if isEmpty && !isFiltered {
      return [];
    }
    return [Bucket(start, end, trimmed)];
  }

  /** Nothing at all, or aggregations whose series or values were filtered out. */
  method IsEmptyResult(d: Data) returns (isEmpty: bool, isFiltered: bool)
    ensures isEmpty && !isFiltered <==> d.aggregations == []
    ensures isEmpty <==> forall i, j :: 0 <= i < |d.aggregations| && 0 <= j < |d.aggregations[i].series|
                                        ==> d.aggregations[i].series[j].values == []
  {
    if |d.aggregations| == 0 {
      return true, false;
    }
    var totalSeries := 0;
    for i := 0 to |d.aggregations|
      invariant totalSeries >= 0
      invariant totalSeries == 0 <==> forall k :: 0 <= k < i ==> d.aggregations[k].series == []
    {
      totalSeries := totalSeries + |d.aggregations[i].series|;
    }
    if totalSeries == 0 {
      return true, true;
    }
    var hasValues := false;
    var i := 0;
    while i < |d.aggregations| && !hasValues
      invariant 0 <= i <= |d.aggregations|
      invariant !hasValues ==> forall a, j :: 0 <= a < i && 0 <= j < |d.aggregations[a].series|
                                              ==> d.aggregations[a].series[j].values == []
      invariant hasValues ==> exists a, j :: 0 <= a < |d.aggregations| && 0 <= j < |d.aggregations[a].series|
                                             && d.aggregations[a].series[j].values != []
    {
      var series := d.aggregations[i].series;
      for j := 0 to |series|
        invariant forall k :: 0 <= k < j ==> series[k].values == []
      {
        if |series[j].values| > 0 {
          hasValues := true;
          break;
        }
      }
      i := i + 1;
    }
    return !hasValues, !hasValues && totalSeries > 0;
  }

  lemma CachableBounds(q: Query, boundary: nat)
    requires q.step > 0
    ensures CachableStart(q) == if q.start % q.step != 0 then (q.start / q.step + 1) * q.step else q.start
    ensures var e := Min(q.end, boundary);
            CachableEnd(q, boundary) == if e % q.step != 0 then e / q.step * q.step else e
  {
    assert (q.start / q.step + 1) * q.step == q.start / q.step * q.step + q.step;
    var e := Min(q.end, boundary);
    if e % q.step == 0 {
      AlignedIsOwnMultiple(e, q.step);
    }
  }

  /** Every bucket kept by a write was stored before or is the new one. */
  lemma KeptFromInputs(merged: seq<Bucket>, existing: seq<Bucket>, added: seq<Bucket>, b: Bucket)
    requires Deduplicated(merged, existing, added) && b in merged
    ensures b in existing || b in added
  {
    assert LastWithSpan(existing + added, b);
  }

  lemma MergedNonEmpty(merged: seq<Bucket>, existing: seq<Bucket>, added: seq<Bucket>)
    requires Deduplicated(merged, existing, added)
    requires BucketsNonEmpty(existing) && BucketsNonEmpty(added)
    ensures BucketsNonEmpty(merged)
  {
    forall i | 0 <= i < |merged| ensures merged[i].start < merged[i].end {
      KeptFromInputs(merged, existing, added, merged[i]);
    }
  }
}
