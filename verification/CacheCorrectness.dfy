/** Why answering from the cache agrees with querying directly: what is true of stored buckets, of
    the answer to a lookup, of the merged result, and of what is written back. */
module CacheCorrectness {
  import opened TimeSteps
  import opened Options
  import opened TimeSeries
  import opened MissingRanges
  import opened BucketMerge
  import opened BucketCache
  import opened EventStore

  // ----- the merged result -----

  /** The entries of the fresh results in order. */
  function FreshEntries(results: seq<Data>): seq<Entry> {
    if results == [] then []
    else FreshEntries(results[..|results| - 1]) + Entries(results[|results| - 1].aggregations)
  }

  /** All entries a merge of cached and fresh results walks. */
  function ResultEntries(cached: Option<Data>, results: seq<Data>): seq<Entry> {
    (if cached.Some? then Entries(cached.value.aggregations) else []) + FreshEntries(results)
  }

  /** The aggregation indexes the merge has met, whether or not they hold series. */
  ghost function ResultIndexes(cached: Option<Data>, results: seq<Data>): set<nat> {
    (if cached.Some? then set a | a in cached.value.aggregations :: a.index else {})
    + set r, a | r in results && a in r.aggregations :: a.index
  }

  /** What merging the cached and the fresh results may return. */
  ghost predicate IsMergedResult(cached: Option<Data>, results: seq<Data>, merged: Option<Data>) {
    if cached.None? && |results| == 0 then merged == None
    else if cached.None? && |results| == 1 then merged == Some(results[0])
    else if cached.Some? && |results| == 0 then merged == cached
    else merged.Some?
         && Renders(merged.value, ResultIndexes(cached, results), Absorbed(ResultEntries(cached, results)))
  }

  ghost predicate InputHasPoint(cached: Option<Data>, results: seq<Data>, id: Id, p: Point) {
    (cached.Some? && HasPoint(cached.value, id, p))
    || exists i :: 0 <= i < |results| && HasPoint(results[i], id, p)
  }

  lemma {:induction false} FreshEntryMembers(results: seq<Data>, e: Entry)
    ensures e in FreshEntries(results) <==> exists r :: r in results && e in Entries(r.aggregations)
  {
    if results != [] {
      var n := |results| - 1;
      FreshEntryMembers(results[..n], e);
      assert results == results[..n] + [results[n]];
    }
  }

  lemma HasPointByEntry(d: Data, id: Id, p: Point)
    ensures HasPoint(d, id, p) <==> exists e :: e in Entries(d.aggregations) && e.id == id && p in e.values
  {
    var es := Entries(d.aggregations);
    if e :| e in es && e.id == id && p in e.values {
      var k :| 0 <= k < |es| && es[k] == e;
    }
    if k :| 0 <= k < |es| && es[k].id == id && p in es[k].values {
      assert es[k] in es;
    }
  }

  /** The walk of the merge meets a point exactly when one of the inputs has it. */
  lemma WalkedPoints(cached: Option<Data>, results: seq<Data>, id: Id, p: Point)
    ensures SomeHasPoint(ResultEntries(cached, results), id, p) <==> InputHasPoint(cached, results, id, p)
  {
    var es := ResultEntries(cached, results);
    if k :| 0 <= k < |es| && es[k].id == id && p in es[k].values {
      var e := es[k];
      if cached.Some? && e in Entries(cached.value.aggregations) {
        HasPointByEntry(cached.value, id, p);
      } else {
        assert e in FreshEntries(results);
        FreshEntryMembers(results, e);
        var r :| r in results && e in Entries(r.aggregations);
        HasPointByEntry(r, id, p);
        var i :| 0 <= i < |results| && results[i] == r;
      }
    }
    if InputHasPoint(cached, results, id, p) {
      var e := InputEntry(cached, results, id, p);
      var k :| 0 <= k < |es| && es[k] == e;
    }
  }

  lemma InputEntry(cached: Option<Data>, results: seq<Data>, id: Id, p: Point) returns (e: Entry)
    requires InputHasPoint(cached, results, id, p)
    ensures e in ResultEntries(cached, results) && e.id == id && p in e.values
  {
    if cached.Some? && HasPoint(cached.value, id, p) {
      HasPointByEntry(cached.value, id, p);
      e :| e in Entries(cached.value.aggregations) && e.id == id && p in e.values;
    } else {
      var i :| 0 <= i < |results| && HasPoint(results[i], id, p);
      HasPointByEntry(results[i], id, p);
      e :| e in Entries(results[i].aggregations) && e.id == id && p in e.values;
      FreshEntryMembers(results, e);
    }
  }

  ghost predicate AllWellFormed(cached: Option<Data>, results: seq<Data>) {
    (cached.Some? ==> WellFormed(cached.value)) && forall i :: 0 <= i < |results| ==> WellFormed(results[i])
  }

  lemma WalkedDistinct(cached: Option<Data>, results: seq<Data>)
    requires AllWellFormed(cached, results)
    ensures forall e :: e in ResultEntries(cached, results) ==> DistinctTs(e.values)
  {
    forall e | e in ResultEntries(cached, results) ensures DistinctTs(e.values) {
      if e in FreshEntries(results) {
        FreshEntryMembers(results, e);
        var r :| r in results && e in Entries(r.aggregations);
        var i :| 0 <= i < |results| && results[i] == r;
      }
    }
  }

  /** The points of a merged result: a subset of the inputs' points that has every timestamp the
      inputs have, and every point at a timestamp on which the inputs agree. */
  lemma MergedPoints(cached: Option<Data>, results: seq<Data>, merged: Option<Data>, id: Id, p: Point)
    requires IsMergedResult(cached, results, merged) && merged.Some?
    requires AllWellFormed(cached, results)
    ensures WellFormed(merged.value)
    ensures HasPoint(merged.value, id, p) ==> InputHasPoint(cached, results, id, p)
    ensures InputHasPoint(cached, results, id, p)
            && (forall q :: InputHasPoint(cached, results, id, q) && q.ts == p.ts ==> q == p)
            ==> HasPoint(merged.value, id, p)
  {
    if |results| == 0 || (cached.None? && |results| == 1) {
      if cached.None? {
        assert HasPoint(results[0], id, p) <==> HasPoint(merged.value, id, p);
      }
    } else {
      var es := ResultEntries(cached, results);
      WalkedDistinct(cached, results);
      MergeMeaning(merged.value, ResultIndexes(cached, results), es);
      WalkedPoints(cached, results, id, p);
      if k :| FirstAt(es, id, p, k) {
        assert SomeHasPoint(es, id, p);
      }
      if InputHasPoint(cached, results, id, p)
         && forall q :: InputHasPoint(cached, results, id, q) && q.ts == p.ts ==> q == p {
        var k :| 0 <= k < |es| && es[k].id == id && p in es[k].values;
        OnlyCandidateWins(cached, results, id, p, k);
      }
    }
  }

  lemma OnlyCandidateWins(cached: Option<Data>, results: seq<Data>, id: Id, p: Point, k: nat)
    requires var es := ResultEntries(cached, results);
             k < |es| && es[k].id == id && p in es[k].values
    requires forall q :: InputHasPoint(cached, results, id, q) && q.ts == p.ts ==> q == p
    ensures FirstWins(ResultEntries(cached, results), id, p)
  {
    var es := ResultEntries(cached, results);
    var i :| 0 <= i < |es[k].values| && es[k].values[i] == p;
    var f := EarliestEntry(es, id, p.ts, k);
    var j :| 0 <= j < |es[f].values| && es[f].values[j].ts == p.ts;
    var q := es[f].values[j];
    assert q in es[f].values;
    WalkedPoints(cached, results, id, q);
    assert SomeHasPoint(es, id, q);
    assert FirstAt(es, id, p, f);
  }

  // ----- what stored buckets promise -----

  /** Every stored point is the true aggregate of a complete window. */
  ghost predicate TruePoints(store: Store, step: nat, d: Data)
    requires step > 0
  {
    forall id: Id, p: Point :: HasPoint(d, id, p) ==> !p.partial && Aligned(p.ts, step) && Truth(store, id, p.ts, step) == Some(p.value)
  }

  /** Every non-empty window starting in the range of the bucket has its point. */
  ghost predicate CompletePoints(store: Store, step: nat, b: Bucket)
    requires step > 0
  {
    forall id: Id, p: Point :: b.start <= p.ts < b.end && Aligned(p.ts, step) && !p.partial
                    && Truth(store, id, p.ts, step) == Some(p.value)
                    ==> HasPoint(b.value, id, p)
  }

  /** No point lies outside the bucket. One at its very end can: results are trimmed before their end
      is rounded. */
  ghost predicate PointsInside(b: Bucket) {
    forall id: Id, p: Point :: HasPoint(b.value, id, p) ==> b.start <= p.ts <= b.end
  }

  ghost predicate ValidBucket(store: Store, step: nat, b: Bucket)
    requires step > 0
  {
    Aligned(b.start, step) && Aligned(b.end, step) && b.start < b.end
    && WellFormed(b.value)
    && PointsInside(b)
    && TruePoints(store, step, b.value)
    && CompletePoints(store, step, b)
  }

  ghost predicate ValidBuckets(store: Store, step: nat, buckets: seq<Bucket>)
    requires step > 0
  {
    forall b :: b in buckets ==> ValidBucket(store, step, b)
  }

  lemma ValidShape(store: Store, step: nat, buckets: seq<Bucket>)
    requires step > 0 && ValidBuckets(store, step, buckets)
    ensures BucketsNonEmpty(buckets) && BucketsAligned(buckets, step)
  {
    forall i | 0 <= i < |buckets|
      ensures buckets[i].start < buckets[i].end && Aligned(buckets[i].start, step) && Aligned(buckets[i].end, step)
    {
      assert buckets[i] in buckets;
    }
  }

  // ----- what a lookup promises -----

  /** The cached part of an answer: true points inside the range, and all of them for the windows
      of the range that start in a bucket. */
  ghost predicate CachedIsTrue(store: Store, buckets: seq<Bucket>, q: Query, cached: Option<Data>)
    requires q.step > 0
  {
    (cached.Some? ==> WellFormed(cached.value) && TruePoints(store, q.step, cached.value)
                      && forall id: Id, p: Point :: HasPoint(cached.value, id, p) ==> q.start <= p.ts < q.end)
    && forall id: Id, p: Point :: q.start <= p.ts && p.ts + q.step <= q.end && Aligned(p.ts, q.step) && !p.partial
                       && InBuckets(buckets, p.ts) && Truth(store, id, p.ts, q.step) == Some(p.value)
                       ==> cached.Some? && HasPoint(cached.value, id, p)
  }

  /** The series of a bucket list are met in the walk of its merge. */
  lemma {:induction false} BucketEntryMembers(buckets: seq<Bucket>, e: Entry)
    ensures e in BucketEntries(buckets) <==> exists b :: b in buckets && e in Entries(b.value.aggregations)
  {
    if buckets != [] {
      var n := |buckets| - 1;
      BucketEntryMembers(buckets[..n], e);
      assert buckets == buckets[..n] + [buckets[n]];
    }
  }

  lemma LookupIsTrue(store: Store, buckets: seq<Bucket>, q: Query, cached: Option<Data>)
    requires q.step > 0 && ValidBuckets(store, q.step, buckets)
    requires IsCached(buckets, q, cached)
    ensures CachedIsTrue(store, buckets, q, cached)
  {
    var relevant, merged :| CachedVia(relevant, merged, buckets, q, cached);
    if cached.Some? {
      RelevantIsTrue(store, q.step, relevant, merged);
      ClippedPoints(merged, q.start, q.end);
    }
    forall id: Id, p: Point | q.start <= p.ts && p.ts + q.step <= q.end && Aligned(p.ts, q.step) && !p.partial
                   && InBuckets(buckets, p.ts) && Truth(store, id, p.ts, q.step) == Some(p.value)
      ensures cached.Some? && HasPoint(cached.value, id, p)
    {
      StoredPointIsCached(store, buckets, q, relevant, merged, cached, id, p);
    }
  }

  /** A whole window of the range that is stored is found. */
  lemma StoredPointIsCached(store: Store, buckets: seq<Bucket>, q: Query, relevant: seq<Bucket>, merged: Data, cached: Option<Data>, id: Id, p: Point)
    requires q.step > 0 && ValidBuckets(store, q.step, buckets) && CachedVia(relevant, merged, buckets, q, cached)
    requires q.start <= p.ts && p.ts + q.step <= q.end && Aligned(p.ts, q.step) && !p.partial
    requires InBuckets(buckets, p.ts) && Truth(store, id, p.ts, q.step) == Some(p.value)
    ensures cached.Some? && HasPoint(cached.value, id, p)
  {
    var i :| 0 <= i < |buckets| && buckets[i].start <= p.ts < buckets[i].end;
    assert buckets[i] in buckets && Overlaps(buckets[i], q.start, q.end);
    BucketPointIsCached(store, buckets, q, relevant, merged, cached, buckets[i], id, p);
  }

  /** So is any point of the range that an overlapping bucket holds. */
  lemma BucketPointIsCached(store: Store, buckets: seq<Bucket>, q: Query, relevant: seq<Bucket>, merged: Data, cached: Option<Data>,
                            b: Bucket, id: Id, p: Point)
    requires q.step > 0 && ValidBuckets(store, q.step, buckets) && CachedVia(relevant, merged, buckets, q, cached)
    requires b in buckets && Overlaps(b, q.start, q.end) && HasPoint(b.value, id, p) && q.start <= p.ts < q.end
    ensures cached.Some? && HasPoint(cached.value, id, p)
  {
    assert b in relevant;
    RelevantPointIsMerged(store, q.step, relevant, b, id, p);
    RelevantIsTrue(store, q.step, relevant, merged);
    ClippedPoints(merged, q.start, q.end);
  }

  /** And nothing else is found. */
  lemma CachedPointIsOfBucket(store: Store, buckets: seq<Bucket>, q: Query, cached: Option<Data>, id: Id, p: Point) returns (b: Bucket)
    requires q.step > 0 && ValidBuckets(store, q.step, buckets) && IsCached(buckets, q, cached)
    requires cached.Some? && HasPoint(cached.value, id, p)
    ensures b in buckets && Overlaps(b, q.start, q.end) && HasPoint(b.value, id, p)
  {
    var relevant, merged :| CachedVia(relevant, merged, buckets, q, cached);
    RelevantIsTrue(store, q.step, relevant, merged);
    ClippedPoints(merged, q.start, q.end);
    var es := BucketEntries(relevant);
    var k :| FirstAt(es, id, p, k);
    BucketEntryMembers(relevant, es[k]);
    b :| b in relevant && es[k] in Entries(b.value.aggregations);
    HasPointByEntry(b.value, id, p);
  }

  /** What the relevant buckets merge into: true points, and exactly the first ones met. */
  lemma RelevantIsTrue(store: Store, step: nat, relevant: seq<Bucket>, merged: Data)
    requires step > 0 && ValidBuckets(store, step, relevant)
    requires Renders(merged, AggIndexes(Absorbed(BucketEntries(relevant))), Absorbed(BucketEntries(relevant)))
    ensures WellFormed(merged) && TruePoints(store, step, merged)
    ensures forall id, p :: HasPoint(merged, id, p) <==> FirstWins(BucketEntries(relevant), id, p)
  {
    var es := BucketEntries(relevant);
    forall e | e in es ensures DistinctTs(e.values) {
      BucketEntryMembers(relevant, e);
    }
    MergeMeaning(merged, AggIndexes(Absorbed(es)), es);
    forall id: Id, p: Point | HasPoint(merged, id, p) ensures !p.partial && Aligned(p.ts, step) && Truth(store, id, p.ts, step) == Some(p.value) {
      var k :| FirstAt(es, id, p, k);
      RelevantPointIsTrue(store, step, relevant, es[k], p);
    }
  }

  lemma RelevantPointIsTrue(store: Store, step: nat, relevant: seq<Bucket>, e: Entry, p: Point)
    requires step > 0 && ValidBuckets(store, step, relevant)
    requires e in BucketEntries(relevant) && p in e.values
    ensures !p.partial && Aligned(p.ts, step) && Truth(store, e.id, p.ts, step) == Some(p.value)
  {
    BucketEntryMembers(relevant, e);
    var b :| b in relevant && e in Entries(b.value.aggregations);
    HasPointByEntry(b.value, e.id, p);
  }

  lemma RelevantPointIsMerged(store: Store, step: nat, relevant: seq<Bucket>, b: Bucket, id: Id, p: Point)
    requires step > 0 && ValidBuckets(store, step, relevant) && b in relevant
    requires HasPoint(b.value, id, p)
    ensures FirstWins(BucketEntries(relevant), id, p)
  {
    var es := BucketEntries(relevant);
    HasPointByEntry(b.value, id, p);
    var e :| e in Entries(b.value.aggregations) && e.id == id && p in e.values;
    BucketEntryMembers(relevant, e);
    var k :| 0 <= k < |es| && es[k] == e;
    var i :| 0 <= i < |e.values| && e.values[i] == p;
    var f := EarliestEntry(es, id, p.ts, k);
    var j :| 0 <= j < |es[f].values| && es[f].values[j].ts == p.ts;
    assert es[f] in es && es[f].values[j] in es[f].values;
    RelevantPointIsTrue(store, step, relevant, es[f], es[f].values[j]);
    RelevantPointIsTrue(store, step, relevant, e, p);
    assert FirstAt(es, id, p, f);
  }

  // ----- agreement with the direct query -----

  /** The windows for which a cached answer is held to the direct one: those inside the range, and
      the leading partial window when the range is at least one step long. */
  predicate Served(q: Query, w: nat)
    requires q.step > 0
  {
    w + q.step <= q.end && q.start < w + q.step && q.start + q.step <= q.end
  }

  /** On every served window the result has exactly the points of the direct query. */
  ghost predicate Agrees(store: Store, q: Query, result: Data)
    requires q.step > 0
  {
    forall id: Id, p: Point :: Aligned(p.ts, q.step) && Served(q, p.ts) ==>
      (HasPoint(result, id, p) <==> DirectPoint(store, id, q.start, q.end, q.step, p))
  }

  /** Only partial points may be wrong anywhere, or lie before the query. */
  ghost predicate WholePointsTrue(store: Store, q: Query, result: Data)
    requires q.step > 0
  {
    forall id: Id, p: Point :: HasPoint(result, id, p) ==>
      Aligned(p.ts, q.step)
      && (!p.partial ==> q.start <= p.ts && Truth(store, id, p.ts, q.step) == Some(p.value))
  }

  ghost predicate Faithful(store: Store, q: Query, result: Data)
    requires q.step > 0
  {
    WellFormed(result) && Agrees(store, q, result) && WholePointsTrue(store, q, result)
  }

  lemma DirectIsFaithful(store: Store, q: Query, result: Data)
    requires q.step > 0 && IsDirect(store, q.start, q.end, q.step, result)
    ensures Faithful(store, q, result)
  {
    forall id: Id, p: Point | HasPoint(result, id, p)
      ensures Aligned(p.ts, q.step) && (!p.partial ==> q.start <= p.ts && Truth(store, id, p.ts, q.step) == Some(p.value))
    {
      WholePointIsTrue(store, id, q.start, q.end, q.step, p);
    }
  }

  /** The fresh results are direct queries of the missing ranges, in order. */
  ghost predicate FreshIsDirect(store: Store, step: nat, missing: seq<TimeRange>, results: seq<Data>)
    requires step > 0
  {
    |results| == |missing|
    && forall i :: 0 <= i < |missing| ==> IsDirect(store, missing[i].from, missing[i].to, step, results[i])
  }

  /** A missing range that meets a served window has the same events in it as the whole query. */
  lemma RangeSeesWindow(q: Query, missing: seq<TimeRange>, i: nat, w: nat)
    requires q.step > 0 && Aligned(w, q.step) && Served(q, w)
    requires Chained(missing, q.start, q.end) && CutAtSteps(missing, q.start, q.end, q.step)
    requires i < |missing| && missing[i].from < w + q.step && w < missing[i].to
    ensures Max(w, missing[i].from) == Max(w, q.start)
    ensures Min(w + q.step, missing[i].to) == Min(w + q.step, q.end)
    ensures missing[i].from <= w <==> q.start <= w
  {
    var r := missing[i];
    ShiftAligned(w, q.step);
    if r.to != q.end {
      AlignedGap(w, r.to, q.step);
    }
    if r.from != q.start && r.from > w {
      AlignedGap(w, r.from, q.step);
    }
  }

  lemma RangePointIsQueryPoint(store: Store, q: Query, missing: seq<TimeRange>, i: nat, id: Id, p: Point)
    requires q.step > 0 && Aligned(p.ts, q.step) && Served(q, p.ts)
    requires Chained(missing, q.start, q.end) && CutAtSteps(missing, q.start, q.end, q.step)
    requires i < |missing| && missing[i].from < p.ts + q.step && p.ts < missing[i].to
    ensures DirectPoint(store, id, missing[i].from, missing[i].to, q.step, p)
            <==> DirectPoint(store, id, q.start, q.end, q.step, p)
  {
    var r := missing[i];
    RangeSeesWindow(q, missing, i, p.ts);
    PartialMeaning(p.ts, r.from, r.to, q.step);
    PartialMeaning(p.ts, q.start, q.end, q.step);
  }

  lemma CachedPointIsQueryPoint(store: Store, buckets: seq<Bucket>, q: Query, cached: Option<Data>, id: Id, p: Point)
    requires q.step > 0 && CachedIsTrue(store, buckets, q, cached)
    requires Aligned(p.ts, q.step) && Served(q, p.ts)
    requires cached.Some? && HasPoint(cached.value, id, p)
    ensures DirectPoint(store, id, q.start, q.end, q.step, p)
  {
    TruthIsDirect(store, id, q.start, q.end, q.step, p);
  }

  /** Each input's points on a served window are the direct query's. */
  lemma InputPointIsDirect(store: Store, buckets: seq<Bucket>, q: Query, cached: Option<Data>,
                           boundary: nat, missing: seq<TimeRange>, results: seq<Data>, id: Id, p: Point)
    requires q.step > 0
    requires ValidBuckets(store, q.step, buckets) && IsMissing(buckets, q, boundary, missing)
    requires CachedIsTrue(store, buckets, q, cached) && FreshIsDirect(store, q.step, missing, results)
    requires Aligned(p.ts, q.step) && Served(q, p.ts)
    requires InputHasPoint(cached, results, id, p)
    ensures DirectPoint(store, id, q.start, q.end, q.step, p)
  {
    ValidShape(store, q.step, buckets);
    if cached.Some? && HasPoint(cached.value, id, p) {
      CachedPointIsQueryPoint(store, buckets, q, cached, id, p);
    } else {
      var i :| 0 <= i < |results| && HasPoint(results[i], id, p);
      assert DirectPoint(store, id, missing[i].from, missing[i].to, q.step, p);
      RangePointIsQueryPoint(store, q, missing, i, id, p);
    }
  }

  /** The direct query's points on served windows are all found in some input. */
  lemma DirectPointIsInput(store: Store, buckets: seq<Bucket>, q: Query, cached: Option<Data>,
                           boundary: nat, missing: seq<TimeRange>, results: seq<Data>, id: Id, p: Point)
    requires q.step > 0
    requires ValidBuckets(store, q.step, buckets) && IsMissing(buckets, q, boundary, missing)
    requires CachedIsTrue(store, buckets, q, cached) && FreshIsDirect(store, q.step, missing, results)
    requires Aligned(p.ts, q.step) && Served(q, p.ts)
    requires DirectPoint(store, id, q.start, q.end, q.step, p)
    ensures InputHasPoint(cached, results, id, p)
  {
    ValidShape(store, q.step, buckets);
    var t := Max(p.ts, q.start);
    if i :| 0 <= i < |missing| && missing[i].from <= t < missing[i].to {
      RangePointIsQueryPoint(store, q, missing, i, id, p);
      assert HasPoint(results[i], id, p);
    } else {
      assert !InRanges(missing, t);
      if p.ts < q.start {
        LeadingWindowIsMissing(q, p.ts);
        assert false;
      }
      assert InBuckets(buckets, p.ts);
      TruthIsDirect(store, id, q.start, q.end, q.step, p);
      PartialMeaning(p.ts, q.start, q.end, q.step);
    }
  }

  lemma LeadingWindowIsMissing(q: Query, w: nat)
    requires q.step > 0 && Aligned(w, q.step) && w < q.start < w + q.step
    ensures q.start < LeadEnd(q.start, q.step)
  {
    WindowOf(q.start, w, q.step);
    if Aligned(q.start, q.step) {
      WindowOf(q.start, q.start, q.step);
    }
  }

  lemma InputPointIsTrue(store: Store, buckets: seq<Bucket>, q: Query, cached: Option<Data>,
                         missing: seq<TimeRange>, results: seq<Data>, id: Id, p: Point)
    requires q.step > 0 && Covered(buckets, missing, q.start, q.end, q.end)
    requires CachedIsTrue(store, buckets, q, cached) && FreshIsDirect(store, q.step, missing, results)
    requires InputHasPoint(cached, results, id, p)
    ensures Aligned(p.ts, q.step)
    ensures !p.partial ==> q.start <= p.ts && Truth(store, id, p.ts, q.step) == Some(p.value)
  {
    if i :| 0 <= i < |results| && HasPoint(results[i], id, p) {
      WholePointIsTrue(store, id, missing[i].from, missing[i].to, q.step, p);
    }
  }

  /** Merging the cached part with direct results for the missing ranges agrees with the direct query. */
  lemma MergedIsFaithful(store: Store, buckets: seq<Bucket>, q: Query, cached: Option<Data>,
                         boundary: nat, missing: seq<TimeRange>, results: seq<Data>, merged: Option<Data>)
    requires q.step > 0
    requires ValidBuckets(store, q.step, buckets)
    requires IsMissing(buckets, q, boundary, missing) && IsCached(buckets, q, cached)
    requires FreshIsDirect(store, q.step, missing, results)
    requires IsMergedResult(cached, results, merged) && merged.Some?
    ensures Faithful(store, q, merged.value)
  {
    LookupIsTrue(store, buckets, q, cached);
    MergedPoints(cached, results, merged, Id(0, ""), Point(0, 0.0, false));
    forall id: Id, p: Point | HasPoint(merged.value, id, p)
      ensures Aligned(p.ts, q.step) && (!p.partial ==> q.start <= p.ts && Truth(store, id, p.ts, q.step) == Some(p.value))
    {
      MergedPoints(cached, results, merged, id, p);
      InputPointIsTrue(store, buckets, q, cached, missing, results, id, p);
    }
    forall id: Id, p: Point | Aligned(p.ts, q.step) && Served(q, p.ts)
      ensures HasPoint(merged.value, id, p) <==> DirectPoint(store, id, q.start, q.end, q.step, p)
    {
      ServedAgrees(store, buckets, q, cached, boundary, missing, results, merged, id, p);
    }
  }

  lemma ServedAgrees(store: Store, buckets: seq<Bucket>, q: Query, cached: Option<Data>,
                     boundary: nat, missing: seq<TimeRange>, results: seq<Data>, merged: Option<Data>, id: Id, p: Point)
    requires q.step > 0 && ValidBuckets(store, q.step, buckets)
    requires IsMissing(buckets, q, boundary, missing) && CachedIsTrue(store, buckets, q, cached)
    requires FreshIsDirect(store, q.step, missing, results)
    requires IsMergedResult(cached, results, merged) && merged.Some?
    requires Aligned(p.ts, q.step) && Served(q, p.ts)
    ensures HasPoint(merged.value, id, p) <==> DirectPoint(store, id, q.start, q.end, q.step, p)
  {
    MergedPoints(cached, results, merged, id, p);
    if InputHasPoint(cached, results, id, p) {
      InputPointIsDirect(store, buckets, q, cached, boundary, missing, results, id, p);
    }
    if DirectPoint(store, id, q.start, q.end, q.step, p) {
      DirectPointIsInput(store, buckets, q, cached, boundary, missing, results, id, p);
      OnlyDirectPoint(store, buckets, q, cached, boundary, missing, results, id, p);
    }
  }

  /** No input has another point at the timestamp of a served direct point. */
  lemma OnlyDirectPoint(store: Store, buckets: seq<Bucket>, q: Query, cached: Option<Data>,
                        boundary: nat, missing: seq<TimeRange>, results: seq<Data>, id: Id, p: Point)
    requires q.step > 0 && ValidBuckets(store, q.step, buckets)
    requires IsMissing(buckets, q, boundary, missing) && CachedIsTrue(store, buckets, q, cached)
    requires FreshIsDirect(store, q.step, missing, results)
    requires Aligned(p.ts, q.step) && Served(q, p.ts)
    requires DirectPoint(store, id, q.start, q.end, q.step, p)
    ensures forall x :: InputHasPoint(cached, results, id, x) && x.ts == p.ts ==> x == p
  {
    forall x | InputHasPoint(cached, results, id, x) && x.ts == p.ts ensures x == p {
      InputPointIsDirect(store, buckets, q, cached, boundary, missing, results, id, x);
    }
  }

  /** A lookup with nothing missing always has a cached result: the merge never comes back empty. */
  lemma NothingMissingMeansCached(buckets: seq<Bucket>, q: Query, cached: Option<Data>, boundary: nat, missing: seq<TimeRange>)
    requires q.start < q.end
    requires IsMissing(buckets, q, boundary, missing) && IsCached(buckets, q, cached)
    requires missing == []
    ensures cached.Some?
  {
    SomethingIsRelevant(buckets, q, boundary, missing);
    var relevant, merged :| CachedVia(relevant, merged, buckets, q, cached);
    assert RelevantOf(relevant, buckets, q.start, q.end);
  }

  lemma SomethingIsRelevant(buckets: seq<Bucket>, q: Query, boundary: nat, missing: seq<TimeRange>)
    requires q.start < q.end && IsMissing(buckets, q, boundary, missing) && missing == []
    ensures forall relevant :: RelevantOf(relevant, buckets, q.start, q.end) ==> relevant != []
  {
    assert InBuckets(buckets, q.start);
    var i :| 0 <= i < |buckets| && buckets[i].start <= q.start < buckets[i].end;
    forall relevant | RelevantOf(relevant, buckets, q.start, q.end) ensures relevant != [] {
      assert buckets[i] in relevant;
    }
  }

  // ----- what a write keeps -----

  /** The windows inside the cachable part are exactly those inside the query and below the flux boundary. */
  lemma CachableWindows(q: Query, boundary: nat, w: nat)
    requires q.step > 0 && Aligned(w, q.step)
    ensures CachableStart(q) <= w && w + q.step <= CachableEnd(q, boundary)
            <==> q.start <= w && w + q.step <= Min(q.end, boundary)
  {
    if q.start <= w {
      NoMultipleBetween(q.start, w, q.step);
    }
    var e := Min(q.end, boundary);
    if w + q.step <= e {
      ShiftAligned(w, q.step);
      if FloorTo(e, q.step) < w + q.step {
        AlignedGap(FloorTo(e, q.step), w + q.step, q.step);
      }
    }
  }

  lemma AddedIsValid(store: Store, q: Query, boundary: nat, result: Data)
    requires q.step > 0 && Faithful(store, q, result)
    requires CachableStart(q) < CachableEnd(q, boundary)
    ensures ValidBuckets(store, q.step, AddedBuckets(q, boundary, result))
  {
    if result.aggregations != [] {
      var limit := Min(q.end, boundary);
      var b := AddedBuckets(q, boundary, result)[0];
      TrimmedPoints(result, limit);
      forall id: Id, p: Point | b.start <= p.ts < b.end && Aligned(p.ts, q.step) && !p.partial
                     && Truth(store, id, p.ts, q.step) == Some(p.value)
        ensures HasPoint(b.value, id, p)
      {
        AlignedGap(p.ts, b.end, q.step);
        CachableWindows(q, boundary, p.ts);
        TruthIsDirect(store, id, q.start, q.end, q.step, p);
        assert Served(q, p.ts);
      }
      forall id: Id, p: Point | HasPoint(b.value, id, p) ensures b.start <= p.ts <= b.end {
        NoMultipleBetween(q.start, p.ts, q.step);
        NotAfterFloor(p.ts, limit, q.step);
      }
    }
  }

  lemma NotAfterFloor(t: nat, limit: nat, step: nat)
    requires step > 0 && Aligned(t, step) && t <= limit
    ensures t <= FloorTo(limit, step)
  {
    if t > FloorTo(limit, step) {
      AlignedGap(FloorTo(limit, step), t, step);
    }
  }

  /** Writing back a faithful result keeps every stored bucket valid. */
  lemma WriteKeepsValid(store: Store, q: Query, boundary: nat, existing: seq<Bucket>, result: Data, updated: seq<Bucket>)
    requires q.step > 0 && ValidBuckets(store, q.step, existing)
    requires Faithful(store, q, result)
    requires WritesBack(existing, q, boundary, result)
    requires Deduplicated(updated, existing, AddedBuckets(q, boundary, result))
    ensures ValidBuckets(store, q.step, updated)
  {
    AddedIsValid(store, q, boundary, result);
    forall b | b in updated ensures ValidBucket(store, q.step, b) {
      KeptFromInputs(updated, existing, AddedBuckets(q, boundary, result), b);
    }
  }

  // ----- hits -----

  /** A range that starts on a step and lies in stored buckets needs no query at all. */
  lemma CoveredNeedsNoQuery(buckets: seq<Bucket>, q: Query, boundary: nat, missing: seq<TimeRange>)
    requires q.step > 0 && Aligned(q.start, q.step) && q.start + q.step <= q.end
    requires BucketsAligned(buckets, q.step) && IsMissing(buckets, q, boundary, missing)
    requires forall t | q.start <= t < q.end :: InBuckets(buckets, t)
    ensures missing == []
  {
    AlignedIsOwnMultiple(q.start, q.step);
    assert missing != [] ==> InRanges(missing, missing[0].from);
  }

  /** After a result has been written back, asking again for any step-aligned part of what was
      cachable needs no query. */
  lemma WriteThenHit(store: Store, q: Query, boundary: nat, existing: seq<Bucket>, result: Data, updated: seq<Bucket>,
                     again: Query, later: nat, missing: seq<TimeRange>)
    requires q.step > 0 && again.step == q.step && ValidBuckets(store, q.step, existing) && Faithful(store, q, result)
    requires WritesBack(existing, q, boundary, result) && result.aggregations != []
    requires Deduplicated(updated, existing, AddedBuckets(q, boundary, result))
    requires CachableStart(q) <= again.start < again.end <= CachableEnd(q, boundary)
    requires Aligned(again.start, again.step) && Aligned(again.end, again.step)
    requires IsMissing(updated, again, later, missing)
    ensures missing == []
  {
    WriteKeepsValid(store, q, boundary, existing, result, updated);
    ValidShape(store, q.step, updated);
    AlignedGap(again.start, again.end, again.step);
    var added := AddedBuckets(q, boundary, result);
    var b := added[0];
    assert (existing + added)[|existing|] == b;
    assert LastWithSpan(existing + added, b);
    var i :| 0 <= i < |updated| && updated[i] == b;
    CoveredNeedsNoQuery(updated, again, later, missing);
  }
}
