/** Which parts of a queried range no cached bucket covers: the plain algorithm and the one that
    respects step intervals. */
module MissingRanges {
  import opened TimeSteps
  import opened Sorting
  import opened TimeSeries

  datatype TimeRange = TimeRange(from: nat, to: nat)

  datatype Bucket = Bucket(start: nat, end: nat, value: Data)

  ghost predicate InBuckets(buckets: seq<Bucket>, t: int) {
    exists i :: 0 <= i < |buckets| && buckets[i].start <= t < buckets[i].end
  }

  ghost predicate InRanges(ranges: seq<TimeRange>, t: int) {
    exists i :: 0 <= i < |ranges| && ranges[i].from <= t < ranges[i].to
  }

  predicate BucketsNonEmpty(buckets: seq<Bucket>) {
    forall i :: 0 <= i < |buckets| ==> buckets[i].start < buckets[i].end
  }

  predicate BucketsAligned(buckets: seq<Bucket>, step: nat)
    requires step > 0
  {
    forall i :: 0 <= i < |buckets| ==> Aligned(buckets[i].start, step) && Aligned(buckets[i].end, step)
  }

  predicate SortedByStart(buckets: seq<Bucket>) {
    forall i, j :: 0 <= i < j < |buckets| ==> buckets[i].start <= buckets[j].start
  }

  /** Sorted, disjoint, non-empty, and inside [start, end). */
  predicate Chained(ranges: seq<TimeRange>, start: nat, end: nat) {
    (forall i :: 0 <= i < |ranges| ==> start <= ranges[i].from < ranges[i].to <= end)
    && forall i, j :: 0 <= i < j < |ranges| ==> ranges[i].to <= ranges[j].from
  }

  /** Cut only at multiples of step, or at the ends of the query itself. */
  predicate CutAtSteps(ranges: seq<TimeRange>, start: nat, end: nat, step: nat)
    requires step > 0
  {
    forall i :: 0 <= i < |ranges| ==>
      (ranges[i].from == start || Aligned(ranges[i].from, step))
      && (ranges[i].to == end || Aligned(ranges[i].to, step))
  }

  method SortBucketsIfNeeded(buckets: seq<Bucket>) returns (sorted: seq<Bucket>)
    ensures SortedByStart(sorted) && multiset(sorted) == multiset(buckets)
  {
    sorted := SortIfNeeded(buckets, (b: Bucket) => b.start);
  }

  lemma SameBuckets(a: seq<Bucket>, b: seq<Bucket>)
    requires multiset(a) == multiset(b)
    ensures |a| == |b|
    ensures forall t :: InBuckets(a, t) <==> InBuckets(b, t)
    ensures BucketsNonEmpty(a) <==> BucketsNonEmpty(b)
    ensures forall step | step > 0 :: BucketsAligned(a, step) <==> BucketsAligned(b, step)
  {
    assert |multiset(a)| == |a| && |multiset(b)| == |b|;
    SomeBucketOf(a, b);
    SomeBucketOf(b, a);
  }

  lemma SomeBucketOf(a: seq<Bucket>, b: seq<Bucket>)
    requires multiset(a) == multiset(b)
    ensures forall t :: InBuckets(a, t) ==> InBuckets(b, t)
    ensures BucketsNonEmpty(b) ==> BucketsNonEmpty(a)
    ensures forall step | step > 0 :: BucketsAligned(b, step) ==> BucketsAligned(a, step)
  {
    forall i | 0 <= i < |a| ensures exists j :: 0 <= j < |b| && b[j] == a[i] {
      assert a[i] in multiset(a);
      assert a[i] in b;
    }
  }

  // ----- what a growing list of ranges covers -----

  lemma AddRange(ranges: seq<TimeRange>, r: TimeRange)
    ensures forall t :: InRanges(ranges + [r], t) <==> InRanges(ranges, t) || r.from <= t < r.to
  {
    forall t ensures InRanges(ranges + [r], t) <==> InRanges(ranges, t) || r.from <= t < r.to {
      if InRanges(ranges, t) {
        var i :| 0 <= i < |ranges| && ranges[i].from <= t < ranges[i].to;
        assert (ranges + [r])[i] == ranges[i];
      }
      if r.from <= t < r.to {
        assert (ranges + [r])[|ranges|] == r;
      }
    }
  }

  /** The state of either walk: ranges end by `current`, and below it every instant is in a range
      or in a bucket. */
  ghost predicate Walked(buckets: seq<Bucket>, ranges: seq<TimeRange>, start: nat, current: nat, end: nat) {
    Chained(ranges, start, end)
    && (forall i :: 0 <= i < |ranges| ==> ranges[i].to <= current)
    && forall t :: start <= t < current && t < end ==> InRanges(ranges, t) || InBuckets(buckets, t)
  }

  lemma AppendGap(buckets: seq<Bucket>, ranges: seq<TimeRange>, start: nat, current: nat, to: nat, end: nat)
    requires Walked(buckets, ranges, start, current, end)
    requires start <= current < to <= end
    ensures Walked(buckets, ranges + [TimeRange(current, to)], start, to, end)
  {
    AddRange(ranges, TimeRange(current, to));
  }

  // ----- the plain algorithm -----

  /** The boundary falls strictly inside a gap that runs to the end of the range. */
  ghost predicate CutsLastGap(buckets: seq<Bucket>, start: nat, end: nat, boundary: nat) {
    start < boundary < end && forall t | boundary - 1 <= t < end :: !InBuckets(buckets, t)
  }

  /** Ranges are whole gaps: they start and end where buckets end and start. */
  ghost predicate WholeGaps(buckets: seq<Bucket>, ranges: seq<TimeRange>, start: nat, end: nat) {
    forall i :: 0 <= i < |ranges| ==>
      (ranges[i].from == start || InBuckets(buckets, ranges[i].from - 1))
      && (ranges[i].to == end || InBuckets(buckets, ranges[i].to))
  }

  /** Ranges are whole gaps, except that the last gap is cut in two at a boundary inside it. */
  ghost predicate CutAtBoundary(buckets: seq<Bucket>, ranges: seq<TimeRange>, start: nat, end: nat, boundary: nat) {
    if CutsLastGap(buckets, start, end, boundary)
    then |ranges| >= 2 && ranges[|ranges| - 2].to == boundary && ranges[|ranges| - 1] == TimeRange(boundary, end)
         && WholeGaps(buckets, ranges[..|ranges| - 2] + [TimeRange(ranges[|ranges| - 2].from, end)], start, end)
    else WholeGaps(buckets, ranges, start, end)
  }

  /** The gaps that the buckets leave in the range, in order. */
  ghost predicate Gaps(buckets: seq<Bucket>, ranges: seq<TimeRange>, start: nat, end: nat, boundary: nat) {
    Chained(ranges, start, end)
    && (forall t | start <= t < end :: InRanges(ranges, t) <==> !InBuckets(buckets, t))
    && CutAtBoundary(buckets, ranges, start, end, boundary)
  }

  /** Sorted, disjoint, non-empty ranges whose union is exactly the range minus the buckets: its gaps,
      the last of them cut at the flux boundary if that falls inside it. */
  method FindMissingRangesBasic(buckets: seq<Bucket>, start: nat, end: nat, fluxBoundary: nat)
    returns (missing: seq<TimeRange>)
    requires BucketsNonEmpty(buckets)
    ensures Gaps(buckets, missing, start, end, fluxBoundary)
  {
    var sorted := SortBucketsIfNeeded(buckets);
    SameBuckets(sorted, buckets);
    missing := [];
    var current: nat := start;
    var i: nat := 0;
    while i < |sorted|
      invariant GapWalk(sorted, i, missing, start, current, end)
    {
      var b := sorted[i];
      if b.end <= start {
        i := i + 1;
        continue;
      }
      if b.start >= end {
        break;
      }
      PassGap(sorted, i, missing, start, current, end);
      if current < b.start {
        missing := missing + [TimeRange(current, Min(b.start, end))];
      }
      current := Max(current, Min(b.end, end));
      i := i + 1;
    }
    LastGap(sorted, i, missing, start, current, end, fluxBoundary);
    missing := AppendLastGap(missing, current, end, fluxBoundary);
    SameGaps(sorted, buckets, missing, start, end, fluxBoundary);
  }

  /** What is behind the last bucket, cut at the flux boundary when it reaches beyond it. */
  method AppendLastGap(missing: seq<TimeRange>, current: nat, end: nat, fluxBoundary: nat) returns (all: seq<TimeRange>)
    ensures all == WithLastGap(missing, current, end, fluxBoundary)
  {
    all := missing;
    if current < end {
      if current < fluxBoundary {
        all := all + [TimeRange(current, Min(end, fluxBoundary))];
        if end > fluxBoundary {
          all := all + [TimeRange(fluxBoundary, end)];
        }
      } else {
        all := all + [TimeRange(current, end)];
      }
    }
  }

  /** What holds of the plain walk after i buckets. */
  ghost predicate GapWalk(sorted: seq<Bucket>, i: nat, missing: seq<TimeRange>, start: nat, current: nat, end: nat) {
    GapsUpTo(sorted, i, missing, start, current, end) && (current == start || InBuckets(sorted, current - 1))
  }

  ghost predicate GapsUpTo(sorted: seq<Bucket>, i: nat, missing: seq<TimeRange>, start: nat, current: nat, end: nat) {
    i <= |sorted| && start <= current <= Max(start, end)
    && Walked(sorted, missing, start, current, end)
    && (forall t | start <= t < end && InRanges(missing, t) :: !InBuckets(sorted, t))
    && (forall j | 0 <= j < i :: sorted[j].end <= current || end <= current)
    && WholeGaps(sorted, missing, start, end)
  }

  /** A bucket that starts by now moves the walk to its end. */
  lemma PassBucketAt(sorted: seq<Bucket>, i: nat, missing: seq<TimeRange>, start: nat, current: nat, end: nat)
    requires GapsUpTo(sorted, i, missing, start, current, end)
    requires i < |sorted| && sorted[i].start <= current
    ensures GapsUpTo(sorted, i + 1, missing, start, Max(current, Min(sorted[i].end, end)), end)
  {
    forall t | current <= t < Min(sorted[i].end, end) ensures InBuckets(sorted, t) {
      BucketHolds(sorted, i, t);
    }
  }

  /** The gap before a bucket. */
  lemma GapBefore(sorted: seq<Bucket>, i: nat, missing: seq<TimeRange>, start: nat, current: nat, end: nat)
    requires SortedByStart(sorted) && BucketsNonEmpty(sorted)
    requires GapWalk(sorted, i, missing, start, current, end)
    requires i < |sorted| && current < sorted[i].start < end
    ensures GapsUpTo(sorted, i, missing + [TimeRange(current, sorted[i].start)], start, sorted[i].start, end)
  {
    var to := sorted[i].start;
    BucketHolds(sorted, i, to);
    NothingBetween(sorted, i, current, end);
    AppendGap(sorted, missing, start, current, to, end);
    AddRange(missing, TimeRange(current, to));
    OneMoreGap(sorted, missing, current, to, start, end);
  }

  lemma PassGap(sorted: seq<Bucket>, i: nat, missing: seq<TimeRange>, start: nat, current: nat, end: nat)
    requires SortedByStart(sorted) && BucketsNonEmpty(sorted)
    requires GapWalk(sorted, i, missing, start, current, end)
    requires i < |sorted| && sorted[i].end > start && sorted[i].start < end
    ensures GapWalk(sorted, i + 1,
                    if current < sorted[i].start then missing + [TimeRange(current, Min(sorted[i].start, end))] else missing,
                    start, Max(current, Min(sorted[i].end, end)), end)
  {
    var b := sorted[i];
    BucketHolds(sorted, i, Min(b.end, end) - 1);
    if current < b.start {
      GapBefore(sorted, i, missing, start, current, end);
      PassBucketAt(sorted, i, missing + [TimeRange(current, b.start)], start, b.start, end);
    } else {
      PassBucketAt(sorted, i, missing, start, current, end);
    }
  }

  lemma BucketHolds(buckets: seq<Bucket>, i: nat, t: int)
    requires i < |buckets| && buckets[i].start <= t < buckets[i].end
    ensures InBuckets(buckets, t)
  {
  }

  lemma OneMoreGap(buckets: seq<Bucket>, ranges: seq<TimeRange>, from: nat, to: nat, start: nat, end: nat)
    requires WholeGaps(buckets, ranges, start, end)
    requires from == start || InBuckets(buckets, from - 1)
    requires to == end || InBuckets(buckets, to)
    ensures WholeGaps(buckets, ranges + [TimeRange(from, to)], start, end)
  {
  }

  /** Before the next bucket starts there is none. */
  lemma NothingBetween(sorted: seq<Bucket>, i: nat, current: nat, end: nat)
    requires SortedByStart(sorted) && i < |sorted| && current < end
    requires forall j | 0 <= j < i :: sorted[j].end <= current || end <= current
    ensures forall t | current <= t < sorted[i].start :: !InBuckets(sorted, t)
  {
  }

  /** Behind the last bucket is one more gap, which the boundary may cut. */
  lemma LastGap(sorted: seq<Bucket>, i: nat, missing: seq<TimeRange>, start: nat, current: nat, end: nat, boundary: nat)
    requires SortedByStart(sorted) && GapWalk(sorted, i, missing, start, current, end)
    requires i < |sorted| ==> sorted[i].start >= end
    ensures Gaps(sorted, WithLastGap(missing, current, end, boundary), start, end, boundary)
  {
    if current >= end {
      NoLastGap(sorted, i, missing, start, current, end, boundary);
    } else {
      assert forall j | i <= j < |sorted| :: sorted[j].start >= end;
      NothingBehind(sorted, i, current, end);
      LastGapCovers(sorted, missing, start, current, end, boundary);
      LastGapIsCut(sorted, i, missing, start, current, end, boundary);
    }
  }

  lemma NoLastGap(sorted: seq<Bucket>, i: nat, missing: seq<TimeRange>, start: nat, current: nat, end: nat, boundary: nat)
    requires GapWalk(sorted, i, missing, start, current, end) && current >= end
    ensures Gaps(sorted, missing, start, end, boundary)
  {
    if start < end {
      assert InBuckets(sorted, end - 1);
    }
  }

  lemma LastGapIsCut(sorted: seq<Bucket>, i: nat, missing: seq<TimeRange>, start: nat, current: nat, end: nat, boundary: nat)
    requires GapWalk(sorted, i, missing, start, current, end) && current < end
    requires forall t | current <= t < end :: !InBuckets(sorted, t)
    ensures CutAtBoundary(sorted, WithLastGap(missing, current, end, boundary), start, end, boundary)
  {
    OneMoreGap(sorted, missing, current, end, start, end);
    if current < boundary < end {
      var all := WithLastGap(missing, current, end, boundary);
      assert all[..|all| - 2] == missing;
    } else if current > start {
      assert InBuckets(sorted, current - 1);
    }
  }

  function WithLastGap(missing: seq<TimeRange>, current: nat, end: nat, boundary: nat): seq<TimeRange> {
    if current >= end then missing
    else if current < boundary < end then missing + [TimeRange(current, boundary)] + [TimeRange(boundary, end)]
    else missing + [TimeRange(current, end)]
  }

  lemma LastGapCovers(sorted: seq<Bucket>, missing: seq<TimeRange>, start: nat, current: nat, end: nat, boundary: nat)
    requires start <= current < end && Walked(sorted, missing, start, current, end)
    requires forall t | start <= t < end && InRanges(missing, t) :: !InBuckets(sorted, t)
    requires forall t | current <= t < end :: !InBuckets(sorted, t)
    ensures var all := WithLastGap(missing, current, end, boundary);
            Chained(all, start, end) && forall t | start <= t < end :: InRanges(all, t) <==> !InBuckets(sorted, t)
  {
    if current < boundary < end {
      AppendGap(sorted, missing, start, current, boundary, end);
      AddRange(missing, TimeRange(current, boundary));
      var cut := missing + [TimeRange(current, boundary)];
      AppendGap(sorted, cut, start, boundary, end, end);
      AddRange(cut, TimeRange(boundary, end));
    } else {
      AppendGap(sorted, missing, start, current, end, end);
      AddRange(missing, TimeRange(current, end));
    }
  }

  lemma NothingBehind(sorted: seq<Bucket>, i: nat, current: nat, end: nat)
    requires i <= |sorted| && current < end
    requires forall j | 0 <= j < i :: sorted[j].end <= current || end <= current
    requires forall j | i <= j < |sorted| :: sorted[j].start >= end
    ensures forall t | current <= t < end :: !InBuckets(sorted, t)
  {
  }

  lemma SameGaps(a: seq<Bucket>, b: seq<Bucket>, ranges: seq<TimeRange>, start: nat, end: nat, boundary: nat)
    requires forall t :: InBuckets(a, t) <==> InBuckets(b, t)
    ensures Gaps(a, ranges, start, end, boundary) <==> Gaps(b, ranges, start, end, boundary)
  {
  }

  // ----- the algorithm that keeps steps whole -----

  /** Where the leading partial window of a range ends; start itself when start is a multiple of step. */
  function LeadEnd(start: nat, step: nat): nat
    requires step > 0
  {
    CeilTo(start, step)
  }

  /** The ranges are the leading partial window plus exactly the rest of the query minus the buckets. */
  ghost predicate LeadAndGaps(buckets: seq<Bucket>, ranges: seq<TimeRange>, start: nat, end: nat, step: nat)
    requires step > 0
  {
    forall t | start <= t < end :: InRanges(ranges, t) <==> (t < LeadEnd(start, step) || !InBuckets(buckets, t))
  }

  ghost predicate Covered(buckets: seq<Bucket>, ranges: seq<TimeRange>, start: nat, current: nat, end: nat) {
    (forall i :: 0 <= i < |ranges| ==> start <= ranges[i].from < ranges[i].to <= end)
    && forall t :: start <= t < current && t < end ==> InRanges(ranges, t) || InBuckets(buckets, t)
  }

  /** What holds of the walk over aligned buckets. */
  ghost predicate StepWalked(buckets: seq<Bucket>, ranges: seq<TimeRange>, start: nat, current: nat, end: nat, step: nat)
    requires step > 0
  {
    Walked(buckets, ranges, start, current, end)
    && CutAtSteps(ranges, start, end, step)
    && (Aligned(current, step) || current == end)
    && (forall t | start <= t < end && InRanges(ranges, t) :: t < LeadEnd(start, step) || !InBuckets(buckets, t))
    && (forall t | start <= t < LeadEnd(start, step) :: InRanges(ranges, t))
  }

  /** The partial window in front of the first multiple of step, when start is not one itself. */
  method LeadingPartialWindow(ghost buckets: seq<Bucket>, start: nat, end: nat, step: nat)
    returns (missing: seq<TimeRange>, current: nat)
    requires step > 0 && start + step <= end
    ensures current == LeadEnd(start, step) <= end
    ensures missing == if current == start then [] else [TimeRange(start, current)]
    ensures StepWalked(buckets, missing, start, current, end, step)
    ensures Covered(buckets, missing, start, current, end)
  {
    missing := [];
    current := start;
    if start % step != 0 {
      RoundDown(start, step);
      var nextAggStart := start - start % step + step;
      AppendLead(buckets, start, nextAggStart, end, step);
      missing := missing + [TimeRange(start, Min(nextAggStart, end))];
      current := nextAggStart;
    }
  }

  method FindMissingRangesWithStep(buckets: seq<Bucket>, start: nat, end: nat, step: nat, fluxBoundary: nat)
    returns (missing: seq<TimeRange>)
    requires BucketsNonEmpty(buckets)
    ensures Covered(buckets, missing, start, end, end)
    ensures step > 0 && start + step <= end && BucketsAligned(buckets, step) ==>
              && Chained(missing, start, end)
              && CutAtSteps(missing, start, end, step)
              && LeadAndGaps(buckets, missing, start, end, step)
    ensures step == 0 || start + step > end ==> Gaps(buckets, missing, start, end, fluxBoundary)
  {
    if step == 0 || start + step > end {
      missing := FindMissingRangesBasic(buckets, start, end, fluxBoundary);
      return;
    }
    if |buckets| == 0 {
      var current: nat;
      missing, current := LeadingPartialWindow(buckets, start, end, step);
      if current < end {
        AppendStepGap(buckets, missing, start, current, end, end, step);
        missing := missing + [TimeRange(current, end)];
      }
      return;
    }
    var sorted := SortBucketsIfNeeded(buckets);
    SameBuckets(sorted, buckets);
    var current: nat;
    missing, current := LeadingPartialWindow(sorted, start, end, step);
    var i := 0;
    while i < |sorted|
      invariant 0 <= i <= |sorted|
      invariant StepLoop(sorted, i, missing, start, current, end, step)
    {
      var b := sorted[i];
      if b.end <= current {
        i := i + 1;
        continue;
      }
      if b.start >= end {
        break;
      }
      VisitBucket(sorted, i, missing, start, current, end, step);
      missing, current := PassBucket(b, missing, current, end, step);
      i := i + 1;
    }
    FinishWalk(sorted, i, missing, start, current, end, step);
    if current < end {
      missing := missing + [TimeRange(current, end)];
    }
  }

  ghost predicate StepLoop(sorted: seq<Bucket>, i: nat, missing: seq<TimeRange>, start: nat, current: nat, end: nat, step: nat)
    requires step > 0
  {
    i <= |sorted| && start <= current <= end
    && Covered(sorted, missing, start, current, end)
    && (BucketsAligned(sorted, step) ==>
          StepWalked(sorted, missing, start, current, end, step)
          && forall j | 0 <= j < i :: sorted[j].end <= current || current == end)
  }

  /** The gap in front of a bucket, cut where the bucket's first whole step begins. */
  function WithGapBefore(missing: seq<TimeRange>, b: Bucket, current: nat, end: nat, step: nat): seq<TimeRange>
    requires step > 0
  {
    if current < CeilTo(b.start, step) && current < end
    then missing + [TimeRange(current, Min(CeilTo(b.start, step), end))]
    else missing
  }

  /** How far a bucket moves the walk: to the end of the query, or to the bucket's last whole step. */
  function StepEnd(b: Bucket, end: nat, step: nat): nat
    requires step > 0
  {
    if b.end < end then FloorTo(b.end, step) else end
  }

  /** One bucket of the walk: its boundaries are moved to step multiples, the gap in front of it is
      recorded, and the walk continues behind it. */
  method PassBucket(b: Bucket, missing: seq<TimeRange>, current: nat, end: nat, step: nat)
    returns (grown: seq<TimeRange>, next: nat)
    requires step > 0
    ensures grown == WithGapBefore(missing, b, current, end, step)
    ensures next == Max(current, StepEnd(b, end, step))
  {
    RoundDown(b.start, step);
    var alignedBucketStart := b.start;
    if b.start % step != 0 {
      alignedBucketStart := b.start - b.start % step + step;
    }
    grown := missing;
    if current < alignedBucketStart && current < end {
      grown := missing + [TimeRange(current, Min(alignedBucketStart, end))];
    }
    var bucketEnd := Min(b.end, end);
    RoundDown(bucketEnd, step);
    if bucketEnd % step != 0 && bucketEnd < end {
      bucketEnd := bucketEnd - bucketEnd % step;
    } else if bucketEnd < end {
      AlignedIsOwnMultiple(bucketEnd, step);
    }
    next := Max(current, bucketEnd);
  }

  lemma VisitBucket(sorted: seq<Bucket>, i: nat, missing: seq<TimeRange>, start: nat, current: nat, end: nat, step: nat)
    requires step > 0 && SortedByStart(sorted) && BucketsNonEmpty(sorted)
    requires StepLoop(sorted, i, missing, start, current, end, step)
    requires i < |sorted| && current < sorted[i].end && sorted[i].start < end
    ensures StepLoop(sorted, i + 1, WithGapBefore(missing, sorted[i], current, end, step), start,
                     Max(current, StepEnd(sorted[i], end, step)), end, step)
  {
    var b := sorted[i];
    var to := Min(CeilTo(b.start, step), end);
    AddRange(missing, TimeRange(current, to));
    if BucketsAligned(sorted, step) {
      AlignedIsOwnMultiple(b.start, step);
      AlignedIsOwnMultiple(b.end, step);
      if current < to {
        AppendStepGap(sorted, missing, start, current, to, end, step);
      }
    }
  }

  lemma AlignedIsOwnMultiple(t: nat, step: nat)
    requires step > 0 && Aligned(t, step)
    ensures FloorTo(t, step) == t && CeilTo(t, step) == t
  {
    WindowOf(t, t, step);
  }

  /** When the walk is over, the rest of the query is one last gap. */
  lemma FinishWalk(sorted: seq<Bucket>, i: nat, missing: seq<TimeRange>, start: nat, current: nat, end: nat, step: nat)
    requires step > 0 && SortedByStart(sorted)
    requires StepLoop(sorted, i, missing, start, current, end, step)
    requires i < |sorted| ==> sorted[i].start >= end
    ensures var all := if current < end then missing + [TimeRange(current, end)] else missing;
            Covered(sorted, all, start, end, end)
            && (BucketsAligned(sorted, step) ==> StepWalked(sorted, all, start, end, end, step))
  {
    AddRange(missing, TimeRange(current, end));
    if BucketsAligned(sorted, step) && current < end {
      AppendStepGap(sorted, missing, start, current, end, end, step);
    }
  }

  lemma AppendLead(buckets: seq<Bucket>, start: nat, next: nat, end: nat, step: nat)
    requires step > 0 && !Aligned(start, step) && start + step <= end
    requires next == FloorTo(start, step) + step
    ensures start < next <= end && LeadEnd(start, step) == next
    ensures StepWalked(buckets, [TimeRange(start, Min(next, end))], start, next, end, step)
    ensures Covered(buckets, [TimeRange(start, Min(next, end))], start, next, end)
    ensures [] + [TimeRange(start, Min(next, end))] == [TimeRange(start, Min(next, end))]
  {
    NextMultiple(start, step);
    AddRange([], TimeRange(start, Min(next, end)));
    assert [] + [TimeRange(start, Min(next, end))] == [TimeRange(start, Min(next, end))];
  }

  lemma AppendStepGap(buckets: seq<Bucket>, ranges: seq<TimeRange>, start: nat, current: nat, to: nat, end: nat, step: nat)
    requires step > 0
    requires StepWalked(buckets, ranges, start, current, end, step)
    requires start <= current < to <= end && (to == end || Aligned(to, step))
    requires forall t | current <= t < to :: !InBuckets(buckets, t)
    ensures StepWalked(buckets, ranges + [TimeRange(current, to)], start, to, end, step)
    ensures Covered(buckets, ranges + [TimeRange(current, to)], start, to, end)
  {
    AppendGap(buckets, ranges, start, current, to, end);
    AddRange(ranges, TimeRange(current, to));
  }
}
