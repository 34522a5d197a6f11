/** What a query costs: what is settled is answered without the database, and otherwise only the missing
    ranges are asked for. */
module Executions {
  import opened TimeSteps
  import opened Options
  import opened TimeSeries
  import opened MissingRanges
  import opened BucketMerge
  import opened EdgeWindows
  import opened BucketCache
  import opened CacheCorrectness
  import opened EventStore
  import opened Querier
  import opened Answers
  import opened FluxInterval
  import opened CacheRuns

  /** A query of whole steps whose range lies in the buckets. */
  ghost predicate Covers(buckets: seq<Bucket>, q: Query)
    requires q.step > 0
  {
    Aligned(q.start, q.step) && q.start + q.step <= q.end && forall t | q.start <= t < q.end :: InBuckets(buckets, t)
  }

  /** Such a query is answered from the cache, whatever the database would say, and even if it fails. */
  lemma CoveredNeedsNoDatabase(store: Store, buckets: seq<Bucket>, q: Query, boundary: nat, cached: Option<Data>,
                               missing: seq<TimeRange>, full: Outcome, ranged: TimeRange -> Outcome, r: Outcome)
    requires q.step > 0 && ValidBuckets(store, q.step, buckets) && Covers(buckets, q)
    requires IsAnswer(Some(buckets), q, boundary, cached, missing)
    requires IsExecution(q, cached, missing, full, ranged, r)
    ensures r.Ok? && Faithful(store, q, r.data)
  {
    ValidShape(store, q.step, buckets);
    CoveredNeedsNoQuery(buckets, q, boundary, missing);
    NothingMissingMeansCached(buckets, q, cached, boundary, missing);
    MergedIsFaithful(store, buckets, q, cached, boundary, missing, [], cached);
  }

  /** After a result has been written, every query of whole steps up to its limit is answered so. */
  lemma SettledNeedsNoDatabase(store: Store, before: map<CacheKey, seq<Bucket>>, after: map<CacheKey, seq<Bucket>>, q: Query, now: nat,
                               fluxInterval: nat, limit: nat, result: Data, again: Query, later: nat, cached: Option<Data>,
                               missing: seq<TimeRange>, full: Outcome, ranged: TimeRange -> Outcome, r: Outcome)
    requires q.step > 0 && IsLimit(q, now, fluxInterval, limit) && result.aggregations != []
    requires KeepsOutOfFlux(before, after, q, limit, result, true)
    requires q.key in after ==> ValidBuckets(store, q.step, after[q.key])
    requires again.step == q.step && Aligned(again.start, q.step) && Aligned(again.end, q.step)
    requires q.start <= again.start < again.end <= limit
    requires q.key in after ==> IsAnswer(Some(after[q.key]), again, later, cached, missing)
    requires IsExecution(again, cached, missing, full, ranged, r)
    ensures r.Ok? && Faithful(store, again, r.data)
  {
    SettledIsHit(store, before, after, q, now, fluxInterval, limit, result, again, later, missing);
    NothingMissingMeansCached(after[q.key], again, cached, later, missing);
    AlignedGap(again.start, again.end, q.step);
    MergedIsFaithful(store, after[q.key], again, cached, later, missing, [], cached);
  }

  /** With something in the cache, or less than everything missing, the answer depends on the missing
      ranges alone: as long as these are answered, the whole query and all other ranges could fail. */
  lemma OnlyMissingRangesMatter(q: Query, cached: Option<Data>, missing: seq<TimeRange>, full: Outcome, ranged: TimeRange -> Outcome,
                                full': Outcome, ranged': TimeRange -> Outcome, r: Outcome)
    requires cached.Some? || missing != [TimeRange(q.start, q.end)]
    requires forall i :: 0 <= i < |missing| ==> ranged(missing[i]).Ok? && ranged'(missing[i]) == ranged(missing[i])
    requires IsExecution(q, cached, missing, full, ranged, r)
    ensures r.Ok? && IsExecution(q, cached, missing, full', ranged', r)
  {
    if !(missing == [] && cached.Some?) {
      var results :| AllFetched(missing, ranged, results) && IsMergedResult(cached, results, Some(r.data));
      assert AllFetched(missing, ranged', results);
    }
  }

  /** When everything is missing, or a missing range fails, the answer is that of the whole query. */
  lemma WholeQueryDecides(q: Query, cached: Option<Data>, missing: seq<TimeRange>, full: Outcome, ranged: TimeRange -> Outcome,
                          r: Outcome)
    requires (cached.None? && missing == [TimeRange(q.start, q.end)])
             || exists i :: 0 <= i < |missing| && ranged(missing[i]).Failed?
    requires IsExecution(q, cached, missing, full, ranged, r)
    ensures r == full
  {
  }

  /** t is in the window that q starts inside of. */
  ghost predicate InFirstWindow(q: Query, t: nat)
    requires q.step > 0
  {
    exists w: nat :: Aligned(w, q.step) && w < q.start && t < w + q.step
  }

  /** Of a query of at least a step exactly what no bucket holds is asked for again, and the rest of the
      window it starts inside of. */
  lemma OnlyNeededIsMissing(buckets: seq<Bucket>, q: Query, boundary: nat, missing: seq<TimeRange>, t: nat)
    requires q.step > 0 && q.start + q.step <= q.end && BucketsAligned(buckets, q.step)
    requires IsMissing(buckets, q, boundary, missing) && q.start <= t < q.end
    ensures InRanges(missing, t) <==> !InBuckets(buckets, t) || InFirstWindow(q, t)
  {
    if t < LeadEnd(q.start, q.step) {
      if Aligned(q.start, q.step) {
        AlignedIsOwnMultiple(q.start, q.step);
      } else {
        var w := FloorTo(q.start, q.step);
        ShiftAligned(w, q.step);
        AlignedGap(w, LeadEnd(q.start, q.step), q.step);
        assert t < w + q.step;
      }
    } else if w: nat :| Aligned(w, q.step) && w < q.start && t < w + q.step {
      ShiftAligned(w, q.step);
      AlignedGap(w, LeadEnd(q.start, q.step), q.step);
    }
  }

  /** What is served from the cache comes from buckets that share an instant with the query, and from its range. */
  lemma CachedIsFromSharers(store: Store, buckets: seq<Bucket>, q: Query, cached: Data, id: Id, p: Point)
    requires q.step > 0 && q.start < q.end && ValidBuckets(store, q.step, buckets)
    requires IsCached(buckets, q, Some(cached)) && HasPoint(cached, id, p)
    ensures q.start <= p.ts < q.end
    ensures exists b, t :: b in buckets && HasPoint(b.value, id, p) && SharesInstant(b, q.start, q.end, t)
  {
    LookupIsTrue(store, buckets, q, Some(cached));
    CachedPointIsStored(store, buckets, q, Some(cached), id, p);
    var b :| b in buckets && Overlaps(b, q.start, q.end) && HasPoint(b.value, id, p);
    ValidShape(store, q.step, buckets);
    OverlapIsShared(b, q.start, q.end);
  }

  /** In runs too: a query whose range is covered when it looks up is done at once, with no fetch. */
  lemma CoveredIsDoneAtOnce(env: Setting, s: System, p: Proc)
    requires env.step > 0 && Inv(env, s) && s.entry.Some? && Admitted(env, p.q)
    requires Covers(s.entry.value, p.q) && LookedUp(env, s, true, p)
    ensures p.Done?
  {
    var buckets := s.entry.value;
    var boundary := FluxBoundary(s.now, env.fluxInterval);
    ValidShape(env.store, env.step, buckets);
    match p
    case Whole(q) => CoveredNeedsNoQuery(buckets, q, boundary, [TimeRange(q.start, q.end)]);
    case Fetching(q, _, _, cached, missing, _, _) =>
      CoveredNeedsNoQuery(buckets, q, boundary, missing);
      NothingMissingMeansCached(buckets, q, cached, boundary, missing);
    case _ =>
  }

  lemma NothingIsMissing(buckets: seq<Bucket>, q: Query, boundary: nat)
    requires q.step > 0 && Covers(buckets, q)
    ensures IsMissing(buckets, q, boundary, [])
  {
    AlignedIsOwnMultiple(q.start, q.step);
  }

  /** And it can look up: there always is such an answer. */
  lemma CoveredCanLookUp(env: Setting, s: System, q: Query) returns (p: Proc)
    requires env.step > 0 && Inv(env, s) && s.entry.Some? && Admitted(env, q)
    requires Covers(s.entry.value, q)
    ensures p.q == q && LookedUp(env, s, true, p)
  {
    var buckets := s.entry.value;
    var boundary := FluxBoundary(s.now, env.fluxInterval);
    var cached := CachedExists(buckets, q);
    NothingIsMissing(buckets, q, boundary);
    NothingMissingMeansCached(buckets, q, cached, boundary, []);
    p := Done(q, cached.value, Lookup(buckets, boundary));
  }
}
