/** What a write leaves of the flux interval: the buckets end before it, what lies in them is a hit
    afterwards, and one point can be stored too early. */
module FluxInterval {
  import opened TimeSteps
  import opened TimeSeries
  import opened MissingRanges
  import opened EventStore
  import opened DirectQuery
  import opened BucketCache
  import opened CacheCorrectness
  import opened EdgeWindows

  /** After a result with aggregations has been written, any step-aligned part of the query up to the
      limit is answered without a query. */
  lemma SettledIsHit(store: Store, before: map<CacheKey, seq<Bucket>>, after: map<CacheKey, seq<Bucket>>, q: Query, now: nat,
                     fluxInterval: nat, limit: nat, result: Data, again: Query, later: nat, missing: seq<TimeRange>)
    requires q.step > 0 && IsLimit(q, now, fluxInterval, limit) && result.aggregations != []
    requires KeepsOutOfFlux(before, after, q, limit, result, true)
    requires q.key in after ==> ValidBuckets(store, q.step, after[q.key])
    requires again.step == q.step && Aligned(again.start, q.step) && Aligned(again.end, q.step)
    requires q.start <= again.start < again.end <= limit
    requires q.key in after ==> IsMissing(after[q.key], again, later, missing)
    ensures q.key in after && missing == []
  {
    AlignedGap(again.start, again.end, q.step);
    assert StepBetween(q, limit) by {
      assert Aligned(again.start, q.step);
    }
    var b :| b in after[q.key] && EndsBehind(b, q, limit, result);
    ValidShape(store, q.step, after[q.key]);
    HoldsAligned(b, q, limit, result, again.start, again.end);
    var i :| 0 <= i < |after[q.key]| && after[q.key][i] == b;
    CoveredNeedsNoQuery(after[q.key], again, later, missing);
  }

  lemma HoldsAligned(b: Bucket, q: Query, limit: nat, result: Data, from: nat, to: nat)
    requires q.step > 0 && EndsBehind(b, q, limit, result)
    requires Aligned(from, q.step) && Aligned(to, q.step) && q.start <= from && to <= limit
    ensures b.start <= from && to <= b.end
  {
    if from < b.start {
      AlignedGap(from, b.start, q.step);
    }
    if b.end < to {
      AlignedGap(b.end, to, q.step);
    }
  }

  /** All points that a write stores have windows that end by the limit, except those at the end of the
      bucket: the trim keeps the points up to the limit, and only then is the end rounded down. */
  lemma StoredPointsAreSettled(b: Bucket, q: Query, limit: nat, result: Data, id: Id, p: Point)
    requires q.step > 0 && EndsBehind(b, q, limit, result) && HasPoint(b.value, id, p) && Aligned(p.ts, q.step)
    ensures p.ts + q.step <= limit <==> p.ts != b.end
    ensures p.ts <= limit
  {
    if p.ts < b.end {
      AlignedGap(p.ts, b.end, q.step);
    } else if b.end < p.ts {
      AlignedGap(b.end, p.ts, q.step);
    }
  }

  /** Step 10, query [100, 900), now 1005, flux interval 300, an event at 702: the point of the window
      [700, 710), which reaches beyond 705, is stored. */
  lemma UnsettledPointIsStored() returns (result: Data, b: Bucket)
    ensures var store, q, id := CountingStore(702, 702), Query("", 100, 900, 10), Id(0, "");
            IsLimit(q, 1005, 300, 705) && IsDirect(store, q.start, q.end, q.step, result)
            && AddedBuckets(q, FluxBoundary(1005, 300), result) == [b] && b.start == 100 && b.end == 700
            && HasPoint(b.value, id, Point(700, 2.0, false)) && 700 + q.step > 705
  {
    var store, q, id := CountingStore(702, 702), Query("", 100, 900, 10), Id(0, "");
    result := Direct(store, q.start, q.end, q.step);
    DirectIsDirect(store, q.start, q.end, q.step);
    b := AddedBuckets(q, FluxBoundary(1005, 300), result)[0];
    CountOfTwo(702, 702, 700, 710);
    TruthIsDirect(store, id, q.start, q.end, q.step, Point(700, 2.0, false));
    AddedEndsBehind(q, FluxBoundary(1005, 300), result);
    WindowOf(705, 700, 10);
  }
}
