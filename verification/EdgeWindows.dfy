/** The windows that stick out of a query and that the general agreement does not speak of: the last
    one, and, when the query is shorter than a step, the one it starts in. What the cached path has for
    them, and exactly when that is what a direct query has. */
module EdgeWindows {
  import opened TimeSteps
  import opened Options
  import opened TimeSeries
  import opened MissingRanges
  import opened BucketMerge
  import opened EventStore
  import opened DirectQuery
  import opened BucketCache
  import opened CacheCorrectness
  import opened Answers
  import opened Preference

  /** The query meets the window but does not contain it. The window at zero has no points. */
  predicate SticksOut(q: Query, w: nat) {
    q.step > 0 && Aligned(w, q.step) && 0 < w < q.end && q.start < w + q.step
    && !(q.start <= w && w + q.step <= q.end)
  }

  /** It sticks out, and the general agreement does not cover it. */
  predicate AtEdge(q: Query, w: nat) {
    q.start < q.end && SticksOut(q, w) && !Served(q, w)
  }

  /** Where the window's part of the query begins and ends. */
  function PartStart(q: Query, w: nat): nat {
    Max(w, q.start)
  }

  function PartEnd(q: Query, w: nat): nat {
    Min(w + q.step, q.end)
  }

  /** The cache answers for the window: the query starts inside it and it is stored; or it is the last
      one and a bucket the query overlaps holds it or ends where it starts. */
  ghost predicate Touched(buckets: seq<Bucket>, q: Query, w: nat) {
    if w < q.start then InBuckets(buckets, w)
    else exists i :: 0 <= i < |buckets| && Overlaps(buckets[i], q.start, q.end) && buckets[i].start <= w <= buckets[i].end
  }

  /** The query is shorter than a step, the flux boundary falls inside the window's part of it, and no
      bucket starts behind the window. */
  predicate Splits(buckets: seq<Bucket>, q: Query, boundary: nat, w: nat) {
    q.end < q.start + q.step
    && PartStart(q, w) < boundary < PartEnd(q, w)
    && forall i :: 0 <= i < |buckets| ==> !(w + q.step <= buckets[i].start < q.end)
  }

  lemma EdgeShapes(q: Query, w: nat)
    requires AtEdge(q, w)
    ensures w < q.start ==> q.end < q.start + q.step
    ensures w >= q.start ==> q.end < w + q.step
    ensures w <= PartStart(q, w) < PartEnd(q, w) <= q.end && PartEnd(q, w) <= w + q.step && q.start <= PartStart(q, w)
  {
  }

  // ----- the missing ranges -----

  lemma WindowIsFree(buckets: seq<Bucket>, w: nat, step: nat)
    requires step > 0 && Aligned(w, step) && BucketsAligned(buckets, step) && !InBuckets(buckets, w)
    ensures forall t | w <= t < w + step :: !InBuckets(buckets, t)
  {
    forall t | w <= t < w + step ensures !InBuckets(buckets, t) {
      forall i | 0 <= i < |buckets| && buckets[i].start <= t ensures buckets[i].end <= t {
        if w < buckets[i].start {
          AlignedGap(w, buckets[i].start, step);
        }
      }
    }
  }

  lemma UntouchedIsFree(buckets: seq<Bucket>, q: Query, w: nat)
    requires AtEdge(q, w) && !Touched(buckets, q, w)
    ensures !InBuckets(buckets, w)
  {
    if w >= q.start {
      forall i | 0 <= i < |buckets| && buckets[i].start <= w ensures buckets[i].end <= w {
        assert !(Overlaps(buckets[i], q.start, q.end) && w <= buckets[i].end);
      }
    }
  }

  /** In a free window, being split is being cut by the boundary. */
  lemma SplitIsCut(buckets: seq<Bucket>, q: Query, boundary: nat, w: nat)
    requires AtEdge(q, w) && q.end < q.start + q.step && BucketsNonEmpty(buckets)
    requires forall t | w <= t < w + q.step :: !InBuckets(buckets, t)
    requires PartStart(q, w) < boundary < PartEnd(q, w)
    ensures Splits(buckets, q, boundary, w) <==> CutsLastGap(buckets, q.start, q.end, boundary)
  {
    if Splits(buckets, q, boundary, w) {
      forall t | boundary - 1 <= t < q.end ensures !InBuckets(buckets, t) {
        forall i | 0 <= i < |buckets| && buckets[i].start <= t ensures buckets[i].end <= t {
          if t >= w + q.step {
            assert !InBuckets(buckets, w + q.step - 1);
          } else {
            assert !InBuckets(buckets, t);
          }
        }
      }
    }
    if CutsLastGap(buckets, q.start, q.end, boundary) {
      forall i | 0 <= i < |buckets| ensures !(w + q.step <= buckets[i].start < q.end) {
        var b := buckets[i];
        assert b.start < b.end;
        assert boundary - 1 <= b.start < q.end ==> !InBuckets(buckets, b.start);
      }
    }
  }

  lemma RangeEnds(buckets: seq<Bucket>, q: Query, boundary: nat, missing: seq<TimeRange>, i: nat)
    requires i < |missing| && CutAtBoundary(buckets, missing, q.start, q.end, boundary)
    ensures missing[i].to == q.end || InBuckets(buckets, missing[i].to)
            || (missing[i].to == boundary && CutsLastGap(buckets, q.start, q.end, boundary))
  {
    if CutsLastGap(buckets, q.start, q.end, boundary) {
      var n := |missing|;
      var whole := missing[..n - 2] + [TimeRange(missing[n - 2].from, q.end)];
      assert i < n - 2 ==> whole[i] == missing[i];
    }
  }

  /** Range i holds the window's whole part of the query. */
  ghost predicate HoldsPart(missing: seq<TimeRange>, q: Query, w: nat, i: int) {
    0 <= i < |missing| && missing[i].from <= PartStart(q, w) && PartEnd(q, w) <= missing[i].to
  }

  /** The last two ranges split the window's part of the query at the boundary. */
  predicate HalvesPart(missing: seq<TimeRange>, q: Query, boundary: nat, w: nat) {
    var n := |missing|;
    n >= 2 && PartStart(q, w) < boundary < PartEnd(q, w)
    && missing[n - 2].from <= PartStart(q, w) && missing[n - 2].to == boundary && missing[n - 1] == TimeRange(boundary, q.end)
  }

  /** Queries shorter than a step: one range has a free window's part, unless it is split. */
  lemma ShortRange(buckets: seq<Bucket>, q: Query, boundary: nat, missing: seq<TimeRange>, w: nat) returns (i: nat)
    requires AtEdge(q, w) && q.end < q.start + q.step && BucketsNonEmpty(buckets)
    requires Gaps(buckets, missing, q.start, q.end, boundary) && !Splits(buckets, q, boundary, w)
    requires forall t | w <= t < w + q.step :: !InBuckets(buckets, t)
    ensures HoldsPart(missing, q, w, i)
  {
    EdgeShapes(q, w);
    var t := PartStart(q, w);
    assert InRanges(missing, t);
    i :| 0 <= i < |missing| && missing[i].from <= t < missing[i].to;
    RangeEnds(buckets, q, boundary, missing, i);
    if t < boundary < PartEnd(q, w) {
      SplitIsCut(buckets, q, boundary, w);
    }
  }

  lemma SplitRanges(buckets: seq<Bucket>, q: Query, boundary: nat, missing: seq<TimeRange>, w: nat)
    requires AtEdge(q, w) && BucketsNonEmpty(buckets)
    requires Gaps(buckets, missing, q.start, q.end, boundary) && Splits(buckets, q, boundary, w)
    requires forall t | w <= t < w + q.step :: !InBuckets(buckets, t)
    ensures HalvesPart(missing, q, boundary, w)
  {
    EdgeShapes(q, w);
    SplitIsCut(buckets, q, boundary, w);
    var n := |missing|;
    var whole := missing[..n - 2] + [TimeRange(missing[n - 2].from, q.end)];
    var last := whole[n - 2];
    assert last.from == q.start || InBuckets(buckets, last.from - 1);
    assert missing[n - 2].from < missing[n - 2].to == boundary;
  }

  /** Longer queries: their ranges are cut at steps only, so one range has the free last window's part. */
  lemma LongRange(buckets: seq<Bucket>, q: Query, missing: seq<TimeRange>, w: nat) returns (i: nat)
    requires AtEdge(q, w) && q.start + q.step <= q.end
    requires Chained(missing, q.start, q.end) && CutAtSteps(missing, q.start, q.end, q.step)
    requires LeadAndGaps(buckets, missing, q.start, q.end, q.step)
    requires forall t | w <= t < w + q.step :: !InBuckets(buckets, t)
    ensures HoldsPart(missing, q, w, i)
  {
    EdgeShapes(q, w);
    assert InRanges(missing, q.end - 1);
    i :| 0 <= i < |missing| && missing[i].from <= q.end - 1 < missing[i].to;
    if missing[i].from > w && Aligned(missing[i].from, q.step) {
      AlignedGap(w, missing[i].from, q.step);
    }
  }

  /** A free window's part of the query is in one missing range, or is split. */
  lemma MissingPart(buckets: seq<Bucket>, q: Query, boundary: nat, missing: seq<TimeRange>, w: nat)
    requires AtEdge(q, w) && BucketsNonEmpty(buckets) && BucketsAligned(buckets, q.step)
    requires IsMissing(buckets, q, boundary, missing) && !InBuckets(buckets, w)
    ensures Chained(missing, q.start, q.end)
    ensures Splits(buckets, q, boundary, w) ==> HalvesPart(missing, q, boundary, w)
    ensures !Splits(buckets, q, boundary, w) ==> exists i :: HoldsPart(missing, q, w, i)
  {
    WindowIsFree(buckets, w, q.step);
    if q.start + q.step <= q.end {
      var i := LongRange(buckets, q, missing, w);
    } else if Splits(buckets, q, boundary, w) {
      SplitRanges(buckets, q, boundary, missing, w);
    } else {
      var i := ShortRange(buckets, q, boundary, missing, w);
    }
  }

  // ----- what the results give -----

  /** A range that meets a window but does not contain it sees a part of it, as a partial value. */
  lemma PartOfWindow(store: Store, id: Id, w: nat, from: nat, to: nat, step: nat, d: Data)
    requires step > 0 && Aligned(w, step) && 0 < w < to && from < w + step && !(from <= w && w + step <= to)
    requires IsDirect(store, from, to, step, d)
    ensures GivesAt(d, id, w, Aggregate(store, id, Max(w, from), Min(w + step, to)))
  {
    forall p: Point | p.ts == w
      ensures HasPoint(d, id, p) <==> Aggregate(store, id, Max(w, from), Min(w + step, to)) == Some(p.value) && p.partial
    {
      PartialMeaning(w, from, to, step);
    }
  }

  /** A range that does not meet the window gives nothing there. */
  lemma RangeAside(store: Store, id: Id, w: nat, range: TimeRange, step: nat, d: Data)
    requires step > 0 && (range.from >= w + step || range.to <= w) && IsDirect(store, range.from, range.to, step, d)
    ensures GivesAt(d, id, w, None)
  {
    forall p: Point | p.ts == w ensures !HasPoint(d, id, p) {
      assert HasPoint(d, id, p) <==> DirectPoint(store, id, range.from, range.to, step, p);
    }
  }

  lemma RangeGives(store: Store, q: Query, range: TimeRange, result: Data, w: nat, id: Id)
    requires AtEdge(q, w) && IsDirect(store, range.from, range.to, q.step, result)
    requires q.start <= range.from < range.to <= q.end && range.from < PartEnd(q, w) && PartStart(q, w) < range.to
    ensures GivesAt(result, id, w, Aggregate(store, id, Max(PartStart(q, w), range.from), Min(PartEnd(q, w), range.to)))
  {
    PartOfWindow(store, id, w, range.from, range.to, q.step, result);
  }

  /** The value of the window's whole part of the query: what the direct query has. */
  function PartValue(store: Store, id: Id, q: Query, w: nat): Option<real> {
    Aggregate(store, id, PartStart(q, w), PartEnd(q, w))
  }

  /** The value of the first of the two halves that has one. */
  function HalvesValue(store: Store, id: Id, q: Query, boundary: nat, w: nat): Option<real> {
    var first := Aggregate(store, id, PartStart(q, w), boundary);
    if first.Some? then first else Aggregate(store, id, boundary, PartEnd(q, w))
  }

  /** The other ranges do not meet the window. */
  lemma OthersAside(q: Query, missing: seq<TimeRange>, w: nat, i: nat, j: nat)
    requires AtEdge(q, w) && Chained(missing, q.start, q.end)
    requires i < |missing| && j < |missing|
    ensures j < i && missing[i].from <= PartStart(q, w) ==> missing[j].to <= w
    ensures i < j && PartEnd(q, w) <= missing[i].to ==> missing[j].from >= w + q.step
  {
    assert missing[j].from < missing[j].to;
  }

  lemma OneRangeDecides(store: Store, q: Query, cached: Option<Data>, missing: seq<TimeRange>, results: seq<Data>,
                        merged: Data, w: nat, id: Id, i: nat)
    requires AtEdge(q, w) && IsMergedResult(cached, results, Some(merged)) && AllWellFormed(cached, results)
    requires SilentUpTo(cached, results, 0, id, w) && FreshIsDirect(store, q.step, missing, results)
    requires Chained(missing, q.start, q.end) && HoldsPart(missing, q, w, i)
    ensures GivesAt(merged, id, w, PartValue(store, id, q, w))
  {
    EdgeShapes(q, w);
    RangeGives(store, q, missing[i], results[i], w, id);
    forall j | 0 <= j < |results| && j != i ensures GivesAt(results[j], id, w, None) {
      OthersAside(q, missing, w, i, j);
      RangeAside(store, id, w, missing[j], q.step, results[j]);
    }
    OnlyGiverDecides(cached, results, merged, id, i, w, PartValue(store, id, q, w));
  }

  lemma HalvesGive(store: Store, q: Query, boundary: nat, missing: seq<TimeRange>, results: seq<Data>, w: nat, id: Id)
    requires AtEdge(q, w) && FreshIsDirect(store, q.step, missing, results)
    requires Chained(missing, q.start, q.end) && HalvesPart(missing, q, boundary, w)
    ensures var i := |missing| - 2;
            GivesAt(results[i], id, w, Aggregate(store, id, PartStart(q, w), boundary))
            && GivesAt(results[i + 1], id, w, Aggregate(store, id, boundary, PartEnd(q, w)))
  {
    var i := |missing| - 2;
    EdgeShapes(q, w);
    RangeGives(store, q, missing[i], results[i], w, id);
    RangeGives(store, q, missing[i + 1], results[i + 1], w, id);
  }

  lemma OthersGiveNothing(store: Store, q: Query, boundary: nat, missing: seq<TimeRange>, results: seq<Data>, w: nat, id: Id, j: nat)
    requires AtEdge(q, w) && FreshIsDirect(store, q.step, missing, results)
    requires Chained(missing, q.start, q.end) && HalvesPart(missing, q, boundary, w) && j < |missing| - 2
    ensures GivesAt(results[j], id, w, None)
  {
    OthersAside(q, missing, w, |missing| - 2, j);
    RangeAside(store, id, w, missing[j], q.step, results[j]);
  }

  lemma TwoRangesDecide(store: Store, q: Query, boundary: nat, cached: Option<Data>, missing: seq<TimeRange>, results: seq<Data>,
                        merged: Data, w: nat, id: Id)
    requires AtEdge(q, w) && IsMergedResult(cached, results, Some(merged)) && AllWellFormed(cached, results)
    requires SilentUpTo(cached, results, 0, id, w) && FreshIsDirect(store, q.step, missing, results)
    requires Chained(missing, q.start, q.end) && HalvesPart(missing, q, boundary, w)
    ensures GivesAt(merged, id, w, HalvesValue(store, id, q, boundary, w))
  {
    var i := |missing| - 2;
    HalvesGive(store, q, boundary, missing, results, w, id);
    forall j | 0 <= j < i ensures GivesAt(results[j], id, w, None) {
      OthersGiveNothing(store, q, boundary, missing, results, w, id, j);
    }
    FirstOfTwo(cached, results, merged, id, i, w, Aggregate(store, id, PartStart(q, w), boundary),
               Aggregate(store, id, boundary, PartEnd(q, w)));
  }

  // ----- what the cache gives -----

  /** A bucket that the query overlaps has the point. */
  ghost predicate StoredPoint(buckets: seq<Bucket>, q: Query, id: Id, p: Point) {
    exists b :: b in buckets && Overlaps(b, q.start, q.end) && HasPoint(b.value, id, p)
  }

  /** The cache has a point of the series for the window, and the query asks for its timestamp. */
  ghost predicate StoredAt(buckets: seq<Bucket>, q: Query, id: Id, w: nat) {
    w >= q.start && exists p: Point :: p.ts == w && StoredPoint(buckets, q, id, p)
  }

  /** The cached part gives nothing at a window that the cache has no point for. */
  lemma CachedIsSilent(store: Store, buckets: seq<Bucket>, q: Query, cached: Option<Data>, w: nat, id: Id)
    requires AtEdge(q, w) && ValidBuckets(store, q.step, buckets) && IsCached(buckets, q, cached)
    requires !StoredAt(buckets, q, id, w)
    ensures cached.Some? ==> GivesAt(cached.value, id, w, None)
  {
    LookupIsTrue(store, buckets, q, cached);
    if cached.Some? && w >= q.start {
      forall p: Point | p.ts == w ensures !HasPoint(cached.value, id, p) {
        if HasPoint(cached.value, id, p) {
          CachedPointIsStored(store, buckets, q, cached, id, p);
        }
      }
    }
  }

  lemma CachedPointIsStored(store: Store, buckets: seq<Bucket>, q: Query, cached: Option<Data>, id: Id, p: Point)
    requires q.step > 0 && ValidBuckets(store, q.step, buckets) && IsCached(buckets, q, cached)
    requires cached.Some? && HasPoint(cached.value, id, p)
    ensures StoredPoint(buckets, q, id, p)
  {
    var b := CachedPointIsOfBucket(store, buckets, q, cached, id, p);
  }

  lemma UntouchedIsNotStored(store: Store, buckets: seq<Bucket>, q: Query, w: nat, id: Id)
    requires AtEdge(q, w) && ValidBuckets(store, q.step, buckets) && !Touched(buckets, q, w)
    ensures !StoredAt(buckets, q, id, w)
  {
    if p: Point :| w >= q.start && p.ts == w && StoredPoint(buckets, q, id, p) {
      StoredPointTouches(store, buckets, q, id, p);
    }
  }

  lemma StoredPointTouches(store: Store, buckets: seq<Bucket>, q: Query, id: Id, p: Point)
    requires q.step > 0 && ValidBuckets(store, q.step, buckets) && StoredPoint(buckets, q, id, p) && p.ts >= q.start
    ensures Touched(buckets, q, p.ts)
  {
    var b :| b in buckets && Overlaps(b, q.start, q.end) && HasPoint(b.value, id, p);
    BucketPointInside(store, q.step, b, id, p);
    var i :| 0 <= i < |buckets| && buckets[i] == b;
  }

  lemma BucketPointInside(store: Store, step: nat, b: Bucket, id: Id, p: Point)
    requires step > 0 && ValidBucket(store, step, b) && HasPoint(b.value, id, p)
    ensures b.start <= p.ts <= b.end
  {
  }

  lemma InputsAreWellFormed(store: Store, buckets: seq<Bucket>, q: Query, boundary: nat, cached: Option<Data>,
                            missing: seq<TimeRange>, results: seq<Data>, merged: Data)
    requires q.step > 0 && Answered(store, buckets, q, boundary, cached, missing, results, merged)
    ensures AllWellFormed(cached, results)
    ensures BucketsNonEmpty(buckets) && BucketsAligned(buckets, q.step)
  {
    ValidShape(store, q.step, buckets);
    LookupIsTrue(store, buckets, q, cached);
  }

  /** The value of a free window: that of its part, or of the first half that has one. */
  function FreeValue(store: Store, id: Id, buckets: seq<Bucket>, q: Query, boundary: nat, w: nat): Option<real> {
    if Splits(buckets, q, boundary, w) then HalvesValue(store, id, q, boundary, w) else PartValue(store, id, q, w)
  }

  lemma FreeWindow(store: Store, buckets: seq<Bucket>, q: Query, boundary: nat, cached: Option<Data>,
                   missing: seq<TimeRange>, results: seq<Data>, merged: Data, w: nat, id: Id)
    requires AtEdge(q, w) && Answered(store, buckets, q, boundary, cached, missing, results, merged)
    requires !InBuckets(buckets, w) && !StoredAt(buckets, q, id, w)
    ensures GivesAt(merged, id, w, FreeValue(store, id, buckets, q, boundary, w))
  {
    InputsAreWellFormed(store, buckets, q, boundary, cached, missing, results, merged);
    CachedIsSilent(store, buckets, q, cached, w, id);
    MissingPart(buckets, q, boundary, missing, w);
    if Splits(buckets, q, boundary, w) {
      TwoRangesDecide(store, q, boundary, cached, missing, results, merged, w, id);
    } else {
      var i :| HoldsPart(missing, q, w, i);
      OneRangeDecides(store, q, cached, missing, results, merged, w, id, i);
    }
  }

  /** A window that is not touched: the value of its part, or of the first half that has one. */
  lemma UntouchedWindow(store: Store, buckets: seq<Bucket>, q: Query, boundary: nat, cached: Option<Data>,
                        missing: seq<TimeRange>, results: seq<Data>, merged: Data, w: nat, id: Id)
    requires AtEdge(q, w) && Answered(store, buckets, q, boundary, cached, missing, results, merged)
    requires !Touched(buckets, q, w)
    ensures GivesAt(merged, id, w, if Splits(buckets, q, boundary, w) then HalvesValue(store, id, q, boundary, w)
                                   else PartValue(store, id, q, w))
  {
    UntouchedIsFree(buckets, q, w);
    UntouchedIsNotStored(store, buckets, q, w, id);
    FreeWindow(store, buckets, q, boundary, cached, missing, results, merged, w, id);
  }

  /** A stored window that the query starts in: nothing at all. */
  lemma TouchedLead(store: Store, buckets: seq<Bucket>, q: Query, boundary: nat, cached: Option<Data>,
                    missing: seq<TimeRange>, results: seq<Data>, merged: Data, w: nat, id: Id)
    requires AtEdge(q, w) && Answered(store, buckets, q, boundary, cached, missing, results, merged)
    requires w < q.start && Touched(buckets, q, w)
    ensures GivesAt(merged, id, w, None)
  {
    HeldWindow(store, buckets, q, boundary, cached, missing, results, merged, w, id);
  }

  /** A window in a bucket that has no point for it: nothing at all. */
  lemma HeldWindow(store: Store, buckets: seq<Bucket>, q: Query, boundary: nat, cached: Option<Data>,
                   missing: seq<TimeRange>, results: seq<Data>, merged: Data, w: nat, id: Id)
    requires AtEdge(q, w) && Answered(store, buckets, q, boundary, cached, missing, results, merged)
    requires InBuckets(buckets, w) && !StoredAt(buckets, q, id, w)
    ensures GivesAt(merged, id, w, None)
  {
    InputsAreWellFormed(store, buckets, q, boundary, cached, missing, results, merged);
    CachedIsSilent(store, buckets, q, cached, w, id);
    forall i | 0 <= i < |results| ensures GivesAt(results[i], id, w, None) {
      MissingAside(buckets, q, boundary, missing, w, i);
      RangeAside(store, id, w, missing[i], q.step, results[i]);
    }
    NothingGives(cached, results, merged, id, w);
  }

  /** The ranges keep clear of the last window, too, if a bucket holds it. */
  lemma MissingAside(buckets: seq<Bucket>, q: Query, boundary: nat, missing: seq<TimeRange>, w: nat, i: nat)
    requires AtEdge(q, w) && BucketsAligned(buckets, q.step) && InBuckets(buckets, w)
    requires IsMissing(buckets, q, boundary, missing) && i < |missing|
    ensures missing[i].from >= w + q.step || missing[i].to <= w
  {
    if w < q.start {
      MissingBehindLead(buckets, q, boundary, missing, w, i);
    } else {
      EdgeShapes(q, w);
      var k :| 0 <= k < |buckets| && buckets[k].start <= w < buckets[k].end;
      AlignedGap(w, buckets[k].end, q.step);
      var r, t := missing[i], Max(w, missing[i].from);
      LeadEndsBefore(q, w);
      assert r.from <= t < r.to ==> InRanges(missing, t);
      assert t < q.end ==> buckets[k].start <= t < buckets[k].end;
    }
  }

  lemma LeadEndsBefore(q: Query, w: nat)
    requires q.step > 0 && Aligned(w, q.step) && q.start <= w
    ensures LeadEnd(q.start, q.step) <= w
  {
    NoMultipleBetween(q.start, w, q.step);
  }

  /** A bucket that holds the window leaves nothing missing before the window's end. */
  lemma MissingBehindLead(buckets: seq<Bucket>, q: Query, boundary: nat, missing: seq<TimeRange>, w: nat, i: nat)
    requires AtEdge(q, w) && w < q.start && BucketsAligned(buckets, q.step) && InBuckets(buckets, w)
    requires IsMissing(buckets, q, boundary, missing) && i < |missing|
    ensures missing[i].from >= w + q.step
  {
    var k :| 0 <= k < |buckets| && buckets[k].start <= w < buckets[k].end;
    AlignedGap(w, buckets[k].end, q.step);
    var b, t := buckets[k], missing[i].from;
    assert InRanges(missing, t);
    assert t < w + q.step ==> b.start <= t < b.end;
  }

  /** The last window, when a bucket that holds it or ends at it has its point: that whole point. */
  lemma TouchedTail(store: Store, buckets: seq<Bucket>, q: Query, boundary: nat, cached: Option<Data>,
                    missing: seq<TimeRange>, results: seq<Data>, merged: Data, w: nat, id: Id, b: Bucket, p: Point)
    requires AtEdge(q, w) && Answered(store, buckets, q, boundary, cached, missing, results, merged)
    requires w >= q.start && b in buckets && Overlaps(b, q.start, q.end) && HasPoint(b.value, id, p) && p.ts == w
    ensures HasPoint(merged, id, p) && !p.partial
  {
    InputsAreWellFormed(store, buckets, q, boundary, cached, missing, results, merged);
    LookupIsTrue(store, buckets, q, cached);
    var relevant, found :| CachedVia(relevant, found, buckets, q, cached);
    BucketPointIsCached(store, buckets, q, relevant, found, cached, b, id, p);
    CachedPointWins(cached, results, merged, id, p);
  }

  // ----- every edge window -----

  /** What an answer has at an edge window: the stored point if there is one for its timestamp; nothing
      if a bucket holds the window without one; else the value of the free window. */
  ghost predicate EdgeIs(store: Store, buckets: seq<Bucket>, q: Query, boundary: nat, result: Data, w: nat, id: Id) {
    if StoredAt(buckets, q, id, w)
    then forall p: Point | p.ts == w :: HasPoint(result, id, p) <==> StoredPoint(buckets, q, id, p)
    else GivesAt(result, id, w, if InBuckets(buckets, w) then None else FreeValue(store, id, buckets, q, boundary, w))
  }

  lemma EdgeContent(store: Store, buckets: seq<Bucket>, q: Query, boundary: nat, cached: Option<Data>,
                    missing: seq<TimeRange>, results: seq<Data>, merged: Data, w: nat, id: Id)
    requires AtEdge(q, w) && Answered(store, buckets, q, boundary, cached, missing, results, merged)
    ensures EdgeIs(store, buckets, q, boundary, merged, w, id)
  {
    if StoredAt(buckets, q, id, w) {
      StoredIsServed(store, buckets, q, boundary, cached, missing, results, merged, w, id);
    } else if InBuckets(buckets, w) {
      HeldWindow(store, buckets, q, boundary, cached, missing, results, merged, w, id);
    } else {
      FreeWindow(store, buckets, q, boundary, cached, missing, results, merged, w, id);
    }
  }

  lemma StoredIsServed(store: Store, buckets: seq<Bucket>, q: Query, boundary: nat, cached: Option<Data>,
                       missing: seq<TimeRange>, results: seq<Data>, merged: Data, w: nat, id: Id)
    requires AtEdge(q, w) && Answered(store, buckets, q, boundary, cached, missing, results, merged)
    requires StoredAt(buckets, q, id, w)
    ensures forall p: Point | p.ts == w :: HasPoint(merged, id, p) <==> StoredPoint(buckets, q, id, p)
  {
    InputsAreWellFormed(store, buckets, q, boundary, cached, missing, results, merged);
    forall p: Point | p.ts == w && StoredPoint(buckets, q, id, p) ensures HasPoint(merged, id, p) {
      var b :| b in buckets && Overlaps(b, q.start, q.end) && HasPoint(b.value, id, p);
      TouchedTail(store, buckets, q, boundary, cached, missing, results, merged, w, id, b, p);
    }
    var p: Point :| p.ts == w && StoredPoint(buckets, q, id, p);
    forall x: Point | x.ts == w && HasPoint(merged, id, x) ensures x == p {
      if results == [] {
        WholePointsAgree(store, buckets, q, boundary, cached, missing, results, merged, id, p, x);
      } else {
        MergedOnce(cached, results, merged, id, p, x);
      }
    }
  }

  lemma WholePointsAgree(store: Store, buckets: seq<Bucket>, q: Query, boundary: nat, cached: Option<Data>,
                         missing: seq<TimeRange>, results: seq<Data>, merged: Data, id: Id, p: Point, x: Point)
    requires q.step > 0 && Answered(store, buckets, q, boundary, cached, missing, results, merged) && results == []
    requires HasPoint(merged, id, p) && HasPoint(merged, id, x) && x.ts == p.ts
    ensures x == p
  {
    LookupIsTrue(store, buckets, q, cached);
  }

  // ----- agreement -----

  /** For one series, the result has exactly the direct query's points at the window. */
  ghost predicate AgreesFor(store: Store, q: Query, w: nat, result: Data, id: Id)
    requires q.step > 0
  {
    forall p: Point | p.ts == w :: HasPoint(result, id, p) <==> DirectPoint(store, id, q.start, q.end, q.step, p)
  }

  ghost predicate AgreesAt(store: Store, q: Query, w: nat, result: Data)
    requires q.step > 0
  {
    forall id :: AgreesFor(store, q, w, result, id)
  }

  /** Agreeing on a series is having the value of the window's whole part of the query. */
  lemma AgreementIsOnValues(store: Store, q: Query, w: nat, merged: Data, id: Id, v: Option<real>)
    requires AtEdge(q, w) && GivesAt(merged, id, w, v)
    ensures AgreesFor(store, q, w, merged, id) <==> v == PartValue(store, id, q, w)
  {
    var d := Direct(store, q.start, q.end, q.step);
    DirectIsDirect(store, q.start, q.end, q.step);
    PartOfWindow(store, id, w, q.start, q.end, q.step, d);
    forall p: Point | p.ts == w ensures HasPoint(d, id, p) <==> DirectPoint(store, id, q.start, q.end, q.step, p) {
    }
    if AgreesFor(store, q, w, merged, id) {
      SameValue(merged, d, id, w, v, PartValue(store, id, q, w));
    }
  }

  lemma SameValue(a: Data, b: Data, id: Id, w: nat, u: Option<real>, v: Option<real>)
    requires GivesAt(a, id, w, u) && GivesAt(b, id, w, v)
    requires forall p: Point | p.ts == w :: HasPoint(a, id, p) <==> HasPoint(b, id, p)
    ensures u == v
  {
    if u.Some? {
      assert HasPoint(a, id, Point(w, u.value, true));
    }
    if v.Some? {
      assert HasPoint(b, id, Point(w, v.value, true));
    }
  }

  lemma EdgeAgrees(store: Store, buckets: seq<Bucket>, q: Query, boundary: nat, cached: Option<Data>,
                   missing: seq<TimeRange>, results: seq<Data>, merged: Data, w: nat)
    requires AtEdge(q, w) && Answered(store, buckets, q, boundary, cached, missing, results, merged)
    requires !Touched(buckets, q, w) && !Splits(buckets, q, boundary, w)
    ensures AgreesAt(store, q, w, merged)
  {
    forall id: Id ensures AgreesFor(store, q, w, merged, id) {
      UntouchedWindow(store, buckets, q, boundary, cached, missing, results, merged, w, id);
      AgreementIsOnValues(store, q, w, merged, id, PartValue(store, id, q, w));
    }
  }

  // ----- counting stores -----

  /** Counts events; there are two, at the given times. */
  function CountingStore(first: nat, second: nat): Store {
    Store([Event("", first, 0.0), Event("", second, 0.0)], [(events: seq<Event>) => Some(|events| as real)])
  }

  lemma CountOfTwo(first: nat, second: nat, from: nat, to: nat)
    ensures Aggregate(CountingStore(first, second), Id(0, ""), from, to)
            == var n := (if from <= first < to then 1 else 0) + (if from <= second < to then 1 else 0);
               if n == 0 then None else Some(n as real)
  {
    var one, two := Event("", first, 0.0), Event("", second, 0.0);
    assert [one, two][1..] == [two];
    assert EventsIn([two], "", from, to) == if from <= second < to then [two] else [];
  }

  /** A log on which a touched or split window goes wrong. */
  function WrongStore(q: Query, boundary: nat, w: nat): Store {
    CountingStore(PartStart(q, w), if PartStart(q, w) < boundary < PartEnd(q, w) then boundary else PartStart(q, w))
  }

  lemma SplitCounts(buckets: seq<Bucket>, q: Query, boundary: nat, w: nat)
    requires AtEdge(q, w) && Splits(buckets, q, boundary, w)
    ensures var store := WrongStore(q, boundary, w);
            HalvesValue(store, Id(0, ""), q, boundary, w) == Some(1.0) && PartValue(store, Id(0, ""), q, w) == Some(2.0)
  {
    CountOfTwo(PartStart(q, w), boundary, PartStart(q, w), boundary);
    CountOfTwo(PartStart(q, w), boundary, PartStart(q, w), PartEnd(q, w));
  }

  lemma TwoAreCounted(q: Query, boundary: nat, w: nat)
    requires AtEdge(q, w)
    ensures var store := WrongStore(q, boundary, w);
            PartValue(store, Id(0, ""), q, w) == Some(2.0) && Truth(store, Id(0, ""), w, q.step) == Some(2.0)
  {
    var first := PartStart(q, w);
    var second := if PartStart(q, w) < boundary < PartEnd(q, w) then boundary else first;
    CountOfTwo(first, second, PartStart(q, w), PartEnd(q, w));
    CountOfTwo(first, second, w, w + q.step);
  }

  /** The last window is given a whole point, which no direct query has for it. */
  lemma TouchedTailDisagrees(store: Store, spans: seq<Bucket>, q: Query, boundary: nat, cached: Option<Data>,
                             missing: seq<TimeRange>, results: seq<Data>, merged: Data, w: nat, v: real)
    requires AtEdge(q, w) && w >= q.start && Touched(spans, q, w) && BucketsNonEmpty(spans) && BucketsAligned(spans, q.step)
    requires Answered(store, Filled(store, spans, q.step), q, boundary, cached, missing, results, merged)
    requires Truth(store, Id(0, ""), w, q.step) == Some(v)
    ensures HasPoint(merged, Id(0, ""), Point(w, v, false))
    ensures !DirectPoint(store, Id(0, ""), q.start, q.end, q.step, Point(w, v, false))
  {
    var id, p := Id(0, ""), Point(w, v, false);
    var b := TouchingBucket(store, spans, q, w, id, p);
    TouchedTail(store, Filled(store, spans, q.step), q, boundary, cached, missing, results, merged, w, id, b, p);
    LastIsPartial(store, q, w, id, p);
  }

  lemma LastIsPartial(store: Store, q: Query, w: nat, id: Id, p: Point)
    requires AtEdge(q, w) && p.ts == w && !p.partial
    ensures !DirectPoint(store, id, q.start, q.end, q.step, p)
  {
    PartialMeaning(w, q.start, q.end, q.step);
  }

  /** A refilled bucket that touches the last window has its point. */
  lemma TouchingBucket(store: Store, spans: seq<Bucket>, q: Query, w: nat, id: Id, p: Point) returns (b: Bucket)
    requires AtEdge(q, w) && w >= q.start && Touched(spans, q, w) && BucketsNonEmpty(spans) && BucketsAligned(spans, q.step)
    requires p.ts == w && !p.partial && Truth(store, id, w, q.step) == Some(p.value)
    ensures b in Filled(store, spans, q.step) && Overlaps(b, q.start, q.end) && HasPoint(b.value, id, p)
  {
    var i :| 0 <= i < |spans| && Overlaps(spans[i], q.start, q.end) && spans[i].start <= w <= spans[i].end;
    b := Filled(store, spans, q.step)[i];
    DirectFillsBucket(store, b, q.step);
  }

  lemma AnswerOf(store: Store, spans: seq<Bucket>, q: Query, boundary: nat, missing: seq<TimeRange>)
    returns (buckets: seq<Bucket>, cached: Option<Data>, results: seq<Data>, merged: Data)
    requires q.step > 0 && q.start < q.end && BucketsNonEmpty(spans) && BucketsAligned(spans, q.step)
    requires IsMissing(spans, q, boundary, missing)
    ensures buckets == Filled(store, spans, q.step)
    ensures SameSpans(spans, buckets) && Answered(store, buckets, q, boundary, cached, missing, results, merged)
  {
    buckets := Filled(store, spans, q.step);
    FilledIsValid(store, spans, q.step);
    SpansAnswerAlike(spans, buckets, q, boundary, missing);
    cached, results, merged := AnswerExists(store, buckets, q, boundary, missing);
  }

  /** Where an edge window is touched or split, some log and contents of the spans make the answer wrong. */
  lemma EdgeDisagrees(spans: seq<Bucket>, q: Query, boundary: nat, missing: seq<TimeRange>, w: nat)
    returns (store: Store, buckets: seq<Bucket>, cached: Option<Data>, results: seq<Data>, merged: Data)
    requires AtEdge(q, w) && BucketsNonEmpty(spans) && BucketsAligned(spans, q.step)
    requires IsMissing(spans, q, boundary, missing)
    requires Touched(spans, q, w) || Splits(spans, q, boundary, w)
    ensures SameSpans(spans, buckets) && Answered(store, buckets, q, boundary, cached, missing, results, merged)
    ensures !AgreesAt(store, q, w, merged)
  {
    store := WrongStore(q, boundary, w);
    buckets, cached, results, merged := AnswerOf(store, spans, q, boundary, missing);
    EdgesOfSpans(spans, buckets, q, boundary, w);
    TwoAreCounted(q, boundary, w);
    var id := Id(0, "");
    if Touched(spans, q, w) && w >= q.start {
      TouchedTailDisagrees(store, spans, q, boundary, cached, missing, results, merged, w, 2.0);
      assert !AgreesFor(store, q, w, merged, id);
    } else if Touched(spans, q, w) {
      TouchedLead(store, buckets, q, boundary, cached, missing, results, merged, w, id);
      AgreementIsOnValues(store, q, w, merged, id, None);
    } else {
      UntouchedWindow(store, buckets, q, boundary, cached, missing, results, merged, w, id);
      SplitCounts(spans, q, boundary, w);
      AgreementIsOnValues(store, q, w, merged, id, Some(1.0));
    }
  }

  lemma EdgesOfSpans(a: seq<Bucket>, b: seq<Bucket>, q: Query, boundary: nat, w: nat)
    requires q.step > 0 && SameSpans(a, b)
    ensures Touched(a, q, w) <==> Touched(b, q, w)
    ensures Splits(a, q, boundary, w) <==> Splits(b, q, boundary, w)
  {
    SpansAnswerAlike(a, b, q, boundary, []);
    forall i | 0 <= i < |a| ensures a[i].start == b[i].start && a[i].end == b[i].end {
      assert SameSpan(a[i], b[i]);
    }
  }

  /** At an edge window the cached path agrees with the direct query, whatever the log and whatever is
      stored for these spans, exactly when the window is not touched and not split. */
  lemma EdgeAgreesExactly(spans: seq<Bucket>, q: Query, boundary: nat, missing: seq<TimeRange>, w: nat)
    requires AtEdge(q, w) && BucketsNonEmpty(spans) && BucketsAligned(spans, q.step)
    requires IsMissing(spans, q, boundary, missing)
    ensures (forall store, buckets, cached, results, merged ::
               SameSpans(spans, buckets) && Answered(store, buckets, q, boundary, cached, missing, results, merged)
               ==> AgreesAt(store, q, w, merged))
            <==> !Touched(spans, q, w) && !Splits(spans, q, boundary, w)
  {
    if Touched(spans, q, w) || Splits(spans, q, boundary, w) {
      var store, buckets, cached, results, merged := EdgeDisagrees(spans, q, boundary, missing, w);
    } else {
      forall store, buckets, cached, results, merged
        | SameSpans(spans, buckets) && Answered(store, buckets, q, boundary, cached, missing, results, merged)
        ensures AgreesAt(store, q, w, merged)
      {
        EdgesOfSpans(spans, buckets, q, boundary, w);
        EdgeAgrees(store, buckets, q, boundary, cached, missing, results, merged, w);
      }
    }
  }

  // ----- the whole answer -----

  /** The answer has exactly the points of the direct query. */
  ghost predicate SamePoints(store: Store, q: Query, result: Data)
    requires q.step > 0
  {
    forall id: Id, p: Point :: HasPoint(result, id, p) <==> DirectPoint(store, id, q.start, q.end, q.step, p)
  }

  /** Every window the query meets is served or at an edge. */
  lemma EveryWindow(q: Query, w: nat)
    requires q.step > 0 && q.start < q.end && Aligned(w, q.step) && 0 < w < q.end && q.start < w + q.step
    ensures Served(q, w) || AtEdge(q, w)
  {
  }

  /** An answer has points only at windows the query meets. */
  lemma PointsMeetQuery(store: Store, buckets: seq<Bucket>, q: Query, boundary: nat, cached: Option<Data>,
                        missing: seq<TimeRange>, results: seq<Data>, merged: Data, id: Id, p: Point)
    requires q.step > 0 && Answered(store, buckets, q, boundary, cached, missing, results, merged)
    requires HasPoint(merged, id, p)
    ensures Aligned(p.ts, q.step) && 0 < p.ts < q.end && q.start < p.ts + q.step
  {
    InputsAreWellFormed(store, buckets, q, boundary, cached, missing, results, merged);
    LookupIsTrue(store, buckets, q, cached);
    MergedPoints(cached, results, Some(merged), id, p);
    if i :| 0 <= i < |results| && HasPoint(results[i], id, p) {
      assert DirectPoint(store, id, missing[i].from, missing[i].to, q.step, p);
    }
  }

  lemma AgreesEverywhere(store: Store, buckets: seq<Bucket>, q: Query, boundary: nat, cached: Option<Data>,
                         missing: seq<TimeRange>, results: seq<Data>, merged: Data)
    requires q.step > 0 && q.start < q.end && Answered(store, buckets, q, boundary, cached, missing, results, merged)
    requires forall w :: AtEdge(q, w) ==> AgreesAt(store, q, w, merged)
    ensures SamePoints(store, q, merged)
  {
    MergedIsFaithful(store, buckets, q, cached, boundary, missing, results, Some(merged));
    forall id: Id, p: Point ensures HasPoint(merged, id, p) <==> DirectPoint(store, id, q.start, q.end, q.step, p) {
      if HasPoint(merged, id, p) {
        PointsMeetQuery(store, buckets, q, boundary, cached, missing, results, merged, id, p);
      }
      if Aligned(p.ts, q.step) && 0 < p.ts < q.end && q.start < p.ts + q.step {
        EveryWindow(q, p.ts);
        assert AtEdge(q, p.ts) ==> AgreesFor(store, q, p.ts, merged, id);
      }
    }
  }

  /** No window that sticks out is touched by the buckets or split at the boundary. */
  ghost predicate EdgesAreClear(buckets: seq<Bucket>, q: Query, boundary: nat) {
    forall w :: AtEdge(q, w) ==> !Touched(buckets, q, w) && !Splits(buckets, q, boundary, w)
  }

  lemma ClearEdgesAgree(store: Store, buckets: seq<Bucket>, q: Query, boundary: nat, cached: Option<Data>,
                        missing: seq<TimeRange>, results: seq<Data>, merged: Data)
    requires q.step > 0 && q.start < q.end && Answered(store, buckets, q, boundary, cached, missing, results, merged)
    requires EdgesAreClear(buckets, q, boundary)
    ensures SamePoints(store, q, merged)
  {
    forall w | AtEdge(q, w) ensures AgreesAt(store, q, w, merged) {
      EdgeAgrees(store, buckets, q, boundary, cached, missing, results, merged, w);
    }
    AgreesEverywhere(store, buckets, q, boundary, cached, missing, results, merged);
  }

  /** Answering from the cache is querying directly, point for point, whatever the log and whatever is
      stored for these spans, exactly when no edge window is touched or split. */
  lemma CacheIsExact(spans: seq<Bucket>, q: Query, boundary: nat, missing: seq<TimeRange>)
    requires q.step > 0 && q.start < q.end && BucketsNonEmpty(spans) && BucketsAligned(spans, q.step)
    requires IsMissing(spans, q, boundary, missing)
    ensures (forall store, buckets, cached, results, merged ::
               SameSpans(spans, buckets) && Answered(store, buckets, q, boundary, cached, missing, results, merged)
               ==> SamePoints(store, q, merged))
            <==> EdgesAreClear(spans, q, boundary)
  {
    if w :| AtEdge(q, w) && (Touched(spans, q, w) || Splits(spans, q, boundary, w)) {
      var store, buckets, cached, results, merged := EdgeDisagrees(spans, q, boundary, missing, w);
      assert SamePoints(store, q, merged) ==> forall id :: AgreesFor(store, q, w, merged, id);
    } else {
      forall store, buckets, cached, results, merged
        | SameSpans(spans, buckets) && Answered(store, buckets, q, boundary, cached, missing, results, merged)
        ensures SamePoints(store, q, merged)
      {
        forall w ensures (Touched(spans, q, w) <==> Touched(buckets, q, w))
                         && (Splits(spans, q, boundary, w) <==> Splits(buckets, q, boundary, w)) {
          EdgesOfSpans(spans, buckets, q, boundary, w);
        }
        ClearEdgesAgree(store, buckets, q, boundary, cached, missing, results, merged);
      }
    }
  }

  // ----- one input for each way to disagree -----

  lemma OneBucketCovers(spans: seq<Bucket>, q: Query)
    requires q.step > 0 && q.start < q.end && (q.start + q.step <= q.end ==> Aligned(q.start, q.step))
    requires |spans| == 1 && spans[0].start <= q.start && q.end <= spans[0].end
    ensures IsMissing(spans, q, 100, [])
  {
    forall t | q.start <= t < q.end ensures InBuckets(spans, t) {
      BucketHolds(spans, 0, t);
    }
    assert InBuckets(spans, q.end - 1);
    if Aligned(q.start, q.step) {
      AlignedIsOwnMultiple(q.start, q.step);
    }
  }

  /** Step 10, query [13, 18), bucket [10, 20), two events at 15: the query has a point, the cached path
      none. */
  lemma StoredLeadIsDropped() returns (buckets: seq<Bucket>, cached: Option<Data>, results: seq<Data>, merged: Data)
    ensures var store, q, id := CountingStore(15, 15), Query("", 13, 18, 10), Id(0, "");
            SameSpans([Bucket(10, 20, Data([]))], buckets)
            && Answered(store, buckets, q, 100, cached, [], results, merged)
            && DirectPoint(store, id, q.start, q.end, q.step, Point(10, 2.0, true))
            && forall p: Point | p.ts == 10 :: !HasPoint(merged, id, p)
  {
    var store, q, id := CountingStore(15, 15), Query("", 13, 18, 10), Id(0, "");
    var spans := [Bucket(10, 20, Data([]))];
    OneBucketCovers(spans, q);
    buckets, cached, results, merged := AnswerOf(store, spans, q, 100, []);
    EdgesOfSpans(spans, buckets, q, 100, 10);
    TouchedLead(store, buckets, q, 100, cached, [], results, merged, 10, id);
    CountOfTwo(15, 15, 13, 18);
  }

  /** Step 10, query [12, 21), flux boundary 15, one far bucket, events at 13 and 17: the query counts
      two, the cached path one. */
  lemma SplitLeadIsCutShort() returns (buckets: seq<Bucket>, cached: Option<Data>, results: seq<Data>, merged: Data)
    ensures var store, q, id := CountingStore(13, 17), Query("", 12, 21, 10), Id(0, "");
            SameSpans([Bucket(30, 40, Data([]))], buckets)
            && Answered(store, buckets, q, 15, cached, [TimeRange(12, 15), TimeRange(15, 21)], results, merged)
            && DirectPoint(store, id, q.start, q.end, q.step, Point(10, 2.0, true))
            && HasPoint(merged, id, Point(10, 1.0, true)) && !HasPoint(merged, id, Point(10, 2.0, true))
  {
    var store, q, id := CountingStore(13, 17), Query("", 12, 21, 10), Id(0, "");
    var spans, missing := [Bucket(30, 40, Data([]))], [TimeRange(12, 15), TimeRange(15, 21)];
    SplitIsMissing(spans, q, missing);
    buckets, cached, results, merged := AnswerOf(store, spans, q, 15, missing);
    EdgesOfSpans(spans, buckets, q, 15, 10);
    CountsOfSplit(q);
    UntouchedPoints(store, buckets, q, 15, cached, missing, results, merged, 10, id, 1.0);
  }

  lemma CountsOfSplit(q: Query)
    requires q == Query("", 12, 21, 10)
    ensures HalvesValue(CountingStore(13, 17), Id(0, ""), q, 15, 10) == Some(1.0)
    ensures DirectPoint(CountingStore(13, 17), Id(0, ""), 12, 21, 10, Point(10, 2.0, true))
  {
    CountOfTwo(13, 17, 12, 15);
    CountOfTwo(13, 17, 12, 20);
  }

  lemma UntouchedPoints(store: Store, buckets: seq<Bucket>, q: Query, boundary: nat, cached: Option<Data>,
                        missing: seq<TimeRange>, results: seq<Data>, merged: Data, w: nat, id: Id, v: real)
    requires AtEdge(q, w) && Answered(store, buckets, q, boundary, cached, missing, results, merged)
    requires !Touched(buckets, q, w) && Splits(buckets, q, boundary, w) && HalvesValue(store, id, q, boundary, w) == Some(v)
    ensures forall x :: HasPoint(merged, id, Point(w, x, true)) <==> x == v
  {
    UntouchedWindow(store, buckets, q, boundary, cached, missing, results, merged, w, id);
  }

  lemma SplitIsMissing(spans: seq<Bucket>, q: Query, missing: seq<TimeRange>)
    requires spans == [Bucket(30, 40, Data([]))] && q == Query("", 12, 21, 10)
    requires missing == [TimeRange(12, 15), TimeRange(15, 21)]
    ensures IsMissing(spans, q, 15, missing)
  {
    forall t | 12 <= t < 21 ensures InRanges(missing, t) && !InBuckets(spans, t) {
      assert if t < 15 then missing[0].from <= t < missing[0].to else missing[1].from <= t < missing[1].to;
    }
    assert missing[..0] + [TimeRange(12, 21)] == [TimeRange(12, 21)];
  }

  /** Step 10, query [0, 15), bucket [0, 20), events at 12 and 18: the query counts one and flags it, the
      cached path has the whole window's two. */
  lemma StoredTailIsWhole() returns (buckets: seq<Bucket>, cached: Option<Data>, results: seq<Data>, merged: Data)
    ensures var store, q, id := CountingStore(12, 18), Query("", 0, 15, 10), Id(0, "");
            SameSpans([Bucket(0, 20, Data([]))], buckets)
            && Answered(store, buckets, q, 100, cached, [], results, merged)
            && DirectPoint(store, id, q.start, q.end, q.step, Point(10, 1.0, true))
            && HasPoint(merged, id, Point(10, 2.0, false))
            && !DirectPoint(store, id, q.start, q.end, q.step, Point(10, 2.0, false))
  {
    var store, q := CountingStore(12, 18), Query("", 0, 15, 10);
    var spans := [Bucket(0, 20, Data([]))];
    OneBucketCovers(spans, q);
    buckets, cached, results, merged := AnswerOf(store, spans, q, 100, []);
    CountsOfTail();
    TouchedTailDisagrees(store, spans, q, 100, cached, [], results, merged, 10, 2.0);
  }

  lemma CountsOfTail()
    ensures Truth(CountingStore(12, 18), Id(0, ""), 10, 10) == Some(2.0)
    ensures DirectPoint(CountingStore(12, 18), Id(0, ""), 0, 15, 10, Point(10, 1.0, true))
  {
    CountOfTwo(12, 18, 10, 20);
    CountOfTwo(12, 18, 10, 15);
  }
}
