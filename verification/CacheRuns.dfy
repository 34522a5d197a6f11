/** Whole runs of concurrent queries that share one cache key over a fixed log. A query looks up,
    fetches its missing ranges in parallel, merges, and writes back in two separate steps, a read
    and a write; entries may be evicted and writes lost or overtaken at any time. */
module CacheRuns {
  import opened TimeSteps
  import opened Options
  import opened TimeSeries
  import opened MissingRanges
  import opened BucketMerge
  import opened BucketCache
  import opened CacheCorrectness
  import opened EventStore
  import opened Querier
  import opened Answers
  import opened EdgeWindows
  import PF = ParallelFetch

  /** The fixed surroundings: the log, the step and flux interval every query of the key shares. */
  datatype Setting = Setting(store: Store, key: CacheKey, step: nat, fluxInterval: nat)

  /** Where a result comes from: the buckets a lookup found and the flux boundary at that time, or one
      query of the whole range. */
  datatype Origin = Lookup(buckets: seq<Bucket>, boundary: nat) | WholeQuery

  /** seen is what the lookup found under the key, at a time with that flux boundary; answers[i] is what range i's query gives. */
  datatype Proc =
    | Fetching(q: Query, seen: Option<seq<Bucket>>, boundary: nat, cached: Option<Data>, missing: seq<TimeRange>,
               answers: seq<Outcome>, fetch: PF.Fetch<Outcome>)
    | Whole(q: Query)
    | Putting(q: Query, result: Data, origin: Origin)
    | Writing(q: Query, result: Data, origin: Origin, existing: seq<Bucket>, boundary: nat)
    | Done(q: Query, result: Data, origin: Origin)
    | Errored(q: Query)
    | Crashed(q: Query)

  type Pid = nat

  /** now is what the clock reads. */
  datatype System = System(entry: Option<seq<Bucket>>, procs: map<Pid, Proc>, now: nat)

  ghost predicate Init(s: System) {
    s == System(None, map[], s.now)
  }

  /** Requests are validated to start before they end, and the step is part of the key. */
  predicate Admitted(env: Setting, q: Query) {
    q.key == env.key && q.step == env.step && q.start < q.end
  }

  /** Each range's query gives the direct result of that range, or fails. */
  ghost predicate PossibleAnswers(env: Setting, missing: seq<TimeRange>, answers: seq<Outcome>)
    requires env.step > 0
  {
    |answers| == |missing|
    && forall i :: 0 <= i < |missing| && answers[i].Ok? ==>
         IsDirect(env.store, missing[i].from, missing[i].to, env.step, answers[i].data)
  }

  /** Where a query goes once its lookup has answered. */
  ghost predicate AfterLookup(env: Setting, q: Query, boundary: nat, seen: Option<seq<Bucket>>, p: Proc)
    requires env.step > 0
  {
    match p
    case Done(q', result, origin) =>
      q' == q && IsAnswer(seen, q, boundary, Some(result), []) && seen.Some? && origin == Lookup(seen.value, boundary)
    case Whole(q') => q' == q && IsAnswer(seen, q, boundary, None, [TimeRange(q.start, q.end)])
    case Fetching(q', seen', boundary', cached, missing, answers, fetch) =>
      q' == q && seen' == seen && boundary' == boundary && IsAnswer(seen, q, boundary, cached, missing)
      && !(missing == [] && cached.Some?) && !(cached.None? && missing == [TimeRange(q.start, q.end)])
      && PossibleAnswers(env, missing, answers) && fetch == PF.Start(|missing|)
    case _ => false
  }

  ghost predicate LookedUp(env: Setting, s: System, readable: bool, p: Proc)
    requires env.step > 0
  {
    AfterLookup(env, p.q, FluxBoundary(s.now, env.fluxInterval), if readable then s.entry else None, p)
  }

  /** A lookup, which finds nothing when the store does not answer. */
  ghost predicate StartQuery(env: Setting, s: System, s': System, pid: Pid)
    requires env.step > 0
  {
    pid !in s.procs && pid in s'.procs && s' == s.(procs := s.procs[pid := s'.procs[pid]])
    && var q := s'.procs[pid].q;
       Admitted(env, q)
       && exists readable :: LookedUp(env, s, readable, s'.procs[pid])
  }

  ghost predicate FetchStep(s: System, s': System, pid: Pid) {
    pid in s.procs && s.procs[pid].Fetching?
    && var p := s.procs[pid];
       exists step :: PF.Enabled(p.fetch, p.answers, step)
                      && s' == s.(procs := s.procs[pid := p.(fetch := PF.Apply(p.fetch, p.answers, step))])
  }

  ghost predicate SomeSlotFailed(slots: seq<Option<Outcome>>) {
    exists i :: 0 <= i < |slots| && slots[i].Some? && slots[i].value.Failed?
  }

  /** The slots hold exactly these results. */
  ghost predicate SlotsHold(slots: seq<Option<Outcome>>, results: seq<Data>) {
    |slots| == |results| && forall i :: 0 <= i < |slots| ==> slots[i] == Some(Ok(results[i]))
  }

  /** After the wait: fall back to the whole query on any error, else merge. Without a merged
      result the code would dereference nil. */
  ghost predicate AfterWait(p: Proc, p': Proc)
    requires p.Fetching?
  {
    if SomeSlotFailed(p.fetch.slots) then p' == Whole(p.q)
    else exists results, merged ::
           SlotsHold(p.fetch.slots, results) && IsMergedResult(p.cached, results, merged)
           && p' == if merged.Some? then Putting(p.q, merged.value, OriginOf(p)) else Crashed(p.q)
  }

  function OriginOf(p: Proc): Origin
    requires p.Fetching?
  {
    if p.seen.Some? then Lookup(p.seen.value, p.boundary) else WholeQuery
  }

  ghost predicate Wait(s: System, s': System, pid: Pid) {
    pid in s.procs && s.procs[pid].Fetching? && PF.Finished(s.procs[pid].fetch)
    && pid in s'.procs && AfterWait(s.procs[pid], s'.procs[pid])
    && s' == s.(procs := s.procs[pid := s'.procs[pid]])
  }

  ghost predicate RunWhole(env: Setting, s: System, s': System, pid: Pid)
    requires env.step > 0
  {
    pid in s.procs && s.procs[pid].Whole?
    && pid in s'.procs && s' == s.(procs := s.procs[pid := s'.procs[pid]])
    && var q := s.procs[pid].q;
       var p' := s'.procs[pid];
       (p' == Errored(q)
        || (p'.Putting? && p'.q == q && p'.origin == WholeQuery && IsDirect(env.store, q.start, q.end, env.step, p'.result)))
  }

  /** The read half of a write: it sees the current entry, or nothing when the read fails. */
  ghost predicate PutRead(env: Setting, s: System, s': System, pid: Pid, readable: bool) {
    pid in s.procs && s.procs[pid].Putting?
    && var p := s.procs[pid];
       var boundary := FluxBoundary(s.now, env.fluxInterval);
       var existing := if readable && s.entry.Some? then s.entry.value else [];
       s' == s.(procs := s.procs[pid :=
         if WritesBack(existing, p.q, boundary, p.result) then Writing(p.q, p.result, p.origin, existing, boundary)
         else Done(p.q, p.result, p.origin)])
  }

  /** The write half replaces whatever is stored by then, or is lost. */
  ghost predicate PutWrite(s: System, s': System, pid: Pid) {
    pid in s.procs && s.procs[pid].Writing?
    && var p := s.procs[pid];
       s'.procs == s.procs[pid := Done(p.q, p.result, p.origin)] && s'.now == s.now
       && (s'.entry == s.entry
           || (s'.entry.Some? && Deduplicated(s'.entry.value, p.existing, AddedBuckets(p.q, p.boundary, p.result))))
  }

  ghost predicate Evict(s: System, s': System) {
    s' == s.(entry := None)
  }

  /** The clock moves, forwards or backwards. */
  ghost predicate Tick(s: System, s': System) {
    s' == s.(now := s'.now)
  }

  ghost predicate Next(env: Setting, s: System, s': System)
    requires env.step > 0
  {
    Evict(s, s') || Tick(s, s')
    || exists pid :: StepOf(env, s, s', pid)
  }

  ghost predicate StepOf(env: Setting, s: System, s': System, pid: Pid)
    requires env.step > 0
  {
    StartQuery(env, s, s', pid) || FetchStep(s, s', pid) || Wait(s, s', pid) || RunWhole(env, s, s', pid)
    || (exists readable :: PutRead(env, s, s', pid, readable))
    || PutWrite(s, s', pid)
  }

  // ----- the invariant -----

  /** A result has exactly the direct query's points, unless it comes from a lookup whose buckets touch,
      or whose boundary splits, a window that sticks out of the query. */
  ghost predicate ExactUnlessEdges(env: Setting, q: Query, result: Data, origin: Origin)
    requires q.step > 0
  {
    (origin.Lookup? ==> EdgesAreClear(origin.buckets, q, origin.boundary)) ==> SamePoints(env.store, q, result)
  }

  /** At the windows that stick out, a result of a lookup has what its buckets and boundary say. */
  ghost predicate EdgesAre(env: Setting, q: Query, result: Data, origin: Origin) {
    origin.Lookup? ==>
      forall w, id :: AtEdge(q, w) ==> EdgeIs(env.store, origin.buckets, q, origin.boundary, result, w, id)
  }

  /** What is known of a result. */
  ghost predicate IsResult(env: Setting, q: Query, result: Data, origin: Origin)
    requires q.step > 0
  {
    Faithful(env.store, q, result) && ExactUnlessEdges(env, q, result, origin) && EdgesAre(env, q, result, origin)
  }

  ghost predicate ProcOk(env: Setting, p: Proc)
    requires env.step > 0
  {
    Admitted(env, p.q)
    && match p
       case Fetching(q, seen, boundary, cached, missing, answers, fetch) =>
         IsAnswer(seen, q, boundary, cached, missing)
         && !(cached.None? && missing == [TimeRange(q.start, q.end)])
         && (seen.Some? ==> ValidBuckets(env.store, env.step, seen.value))
         && PossibleAnswers(env, missing, answers) && PF.Inv(fetch, answers)
       case Whole(q) => true
       case Putting(q, result, origin) => IsResult(env, q, result, origin)
       case Writing(q, result, origin, existing, boundary) =>
         IsResult(env, q, result, origin)
         && ValidBuckets(env.store, env.step, existing) && WritesBack(existing, q, boundary, result)
       case Done(q, result, origin) => IsResult(env, q, result, origin)
       case Errored(q) => true
       case Crashed(q) => false
  }

  ghost predicate Inv(env: Setting, s: System)
    requires env.step > 0
  {
    (s.entry.Some? ==> ValidBuckets(env.store, env.step, s.entry.value))
    && forall pid :: pid in s.procs ==> ProcOk(env, s.procs[pid])
  }

  lemma LookupKeepsOk(env: Setting, q: Query, boundary: nat, seen: Option<seq<Bucket>>, p: Proc)
    requires env.step > 0 && Admitted(env, q)
    requires seen.Some? ==> ValidBuckets(env.store, env.step, seen.value)
    requires AfterLookup(env, q, boundary, seen, p)
    ensures ProcOk(env, p)
  {
    match p
    case Done(_, result, origin) =>
      LookupIsExact(env, q, boundary, seen.value, Some(result), [], [], result);
    case Fetching(_, _, _, _, missing, answers, _) =>
      PF.StartsWell(answers);
    case Whole(_) =>
  }

  /** What a lookup and direct results of its missing ranges merge into. */
  lemma LookupIsExact(env: Setting, q: Query, boundary: nat, buckets: seq<Bucket>, cached: Option<Data>,
                      missing: seq<TimeRange>, results: seq<Data>, merged: Data)
    requires env.step > 0 && Admitted(env, q)
    requires Answered(env.store, buckets, q, boundary, cached, missing, results, merged)
    ensures IsResult(env, q, merged, Lookup(buckets, boundary))
  {
    MergedIsFaithful(env.store, buckets, q, cached, boundary, missing, results, Some(merged));
    if EdgesAreClear(buckets, q, boundary) {
      ClearEdgesAgree(env.store, buckets, q, boundary, cached, missing, results, merged);
    }
    forall w, id | AtEdge(q, w) ensures EdgeIs(env.store, buckets, q, boundary, merged, w, id) {
      EdgeContent(env.store, buckets, q, boundary, cached, missing, results, merged, w, id);
    }
  }

  lemma WaitKeepsOk(env: Setting, p: Proc, p': Proc)
    requires env.step > 0 && ProcOk(env, p) && p.Fetching? && PF.Finished(p.fetch) && AfterWait(p, p')
    ensures ProcOk(env, p')
  {
    if !SomeSlotFailed(p.fetch.slots) {
      var results, merged :| SlotsHold(p.fetch.slots, results) && IsMergedResult(p.cached, results, merged)
                             && p' == if merged.Some? then Putting(p.q, merged.value, OriginOf(p)) else Crashed(p.q);
      SlotsAreDirect(env, p, results);
      if p.missing == [] {
        NothingMissingMeansCached(p.seen.value, p.q, p.cached, p.boundary, p.missing);
      }
      LookupIsExact(env, p.q, p.boundary, p.seen.value, p.cached, p.missing, results, merged.value);
    }
  }

  lemma SlotsAreDirect(env: Setting, p: Proc, results: seq<Data>)
    requires env.step > 0 && ProcOk(env, p) && p.Fetching? && PF.Finished(p.fetch)
    requires SlotsHold(p.fetch.slots, results)
    ensures FreshIsDirect(env.store, env.step, p.missing, results)
  {
    forall i | 0 <= i < |p.missing|
      ensures IsDirect(env.store, p.missing[i].from, p.missing[i].to, env.step, results[i])
    {
      assert p.fetch.phases[i] == PF.Gone;
      assert p.fetch.slots[i] == Some(p.answers[i]);
    }
  }

  lemma PutReadKeepsOk(env: Setting, s: System, s': System, pid: Pid, readable: bool)
    requires env.step > 0 && Inv(env, s) && PutRead(env, s, s', pid, readable)
    ensures Inv(env, s')
  {
    assert ProcOk(env, s.procs[pid]);
    forall x | x in s'.procs ensures ProcOk(env, s'.procs[x]) {
      assert x != pid ==> s'.procs[x] == s.procs[x];
    }
  }

  lemma OthersKeepOk(env: Setting, s: System, s': System, pid: Pid)
    requires env.step > 0 && Inv(env, s)
    requires pid in s'.procs && s' == s.(procs := s.procs[pid := s'.procs[pid]])
    requires ProcOk(env, s'.procs[pid])
    ensures Inv(env, s')
  {
    forall x | x in s'.procs ensures ProcOk(env, s'.procs[x]) {
      assert x != pid ==> s'.procs[x] == s.procs[x];
    }
  }

  lemma PutWriteKeepsInv(env: Setting, s: System, s': System, pid: Pid)
    requires env.step > 0 && Inv(env, s) && PutWrite(s, s', pid)
    ensures Inv(env, s')
  {
    var p := s.procs[pid];
    assert ProcOk(env, p);
    if s'.entry != s.entry {
      WriteKeepsValid(env.store, p.q, p.boundary, p.existing, p.result, s'.entry.value);
    }
    forall x | x in s'.procs ensures ProcOk(env, s'.procs[x]) {
      assert x != pid ==> s'.procs[x] == s.procs[x];
    }
  }

  lemma StepOfKeepsInv(env: Setting, s: System, s': System, pid: Pid)
    requires env.step > 0 && Inv(env, s) && StepOf(env, s, s', pid)
    ensures Inv(env, s')
  {
    if StartQuery(env, s, s', pid) {
      var q := s'.procs[pid].q;
      var readable :| LookedUp(env, s, readable, s'.procs[pid]);
      LookupKeepsOk(env, q, FluxBoundary(s.now, env.fluxInterval), if readable then s.entry else None, s'.procs[pid]);
      OthersKeepOk(env, s, s', pid);
    } else if FetchStep(s, s', pid) {
      var p := s.procs[pid];
      var step :| PF.Enabled(p.fetch, p.answers, step)
                  && s' == s.(procs := s.procs[pid := p.(fetch := PF.Apply(p.fetch, p.answers, step))]);
      assert ProcOk(env, p);
      PF.StepKeepsInv(p.fetch, p.answers, step);
      OthersKeepOk(env, s, s', pid);
    } else if Wait(s, s', pid) {
      WaitKeepsOk(env, s.procs[pid], s'.procs[pid]);
      OthersKeepOk(env, s, s', pid);
    } else if RunWhole(env, s, s', pid) {
      var q := s.procs[pid].q;
      assert ProcOk(env, s.procs[pid]);
      if s'.procs[pid].Putting? {
        DirectIsFaithful(env.store, q, s'.procs[pid].result);
      }
      OthersKeepOk(env, s, s', pid);
    } else if PutWrite(s, s', pid) {
      PutWriteKeepsInv(env, s, s', pid);
    } else {
      var readable :| PutRead(env, s, s', pid, readable);
      PutReadKeepsOk(env, s, s', pid, readable);
    }
  }

  /** Every step of the system keeps every stored bucket true and complete. */
  lemma NextKeepsInv(env: Setting, s: System, s': System)
    requires env.step > 0 && Inv(env, s) && Next(env, s, s')
    ensures Inv(env, s')
  {
    if !Evict(s, s') && !Tick(s, s') {
      var pid :| StepOf(env, s, s', pid);
      StepOfKeepsInv(env, s, s', pid);
    }
  }

  ghost predicate IsRun(env: Setting, run: seq<System>)
    requires env.step > 0
  {
    run != [] && Init(run[0]) && forall i :: 0 <= i < |run| - 1 ==> Next(env, run[i], run[i + 1])
  }

  lemma {:induction false} RunKeepsInv(env: Setting, run: seq<System>, i: nat)
    requires env.step > 0 && IsRun(env, run) && i < |run|
    ensures Inv(env, run[i])
  {
    if i > 0 {
      RunKeepsInv(env, run, i - 1);
      assert Next(env, run[i - 1], run[i - 1 + 1]);
      NextKeepsInv(env, run[i - 1], run[i]);
    }
  }

  /** Cache transparency: in every run, what a finished query returned has, on every step window that
      ends inside the range and meets it, exactly the points of any direct query of the range; and on
      all windows, if it comes from a whole query or from a lookup that leaves the edges clear. */
  lemma CacheIsTransparent(env: Setting, run: seq<System>, i: nat, pid: Pid, direct: Data)
    requires env.step > 0 && IsRun(env, run) && i < |run|
    requires pid in run[i].procs && run[i].procs[pid].Done?
    requires var q := run[i].procs[pid].q; IsDirect(env.store, q.start, q.end, env.step, direct)
    ensures var q, result := run[i].procs[pid].q, run[i].procs[pid].result;
            (forall id: Id, p: Point | Aligned(p.ts, env.step) && q.start < p.ts + env.step <= q.end && q.start + env.step <= q.end
               :: HasPoint(result, id, p) <==> HasPoint(direct, id, p))
            && forall id: Id, p: Point | HasPoint(result, id, p) && !p.partial
                 :: Truth(env.store, id, p.ts, env.step) == Some(p.value)
    ensures var Done(q, result, origin) := run[i].procs[pid];
            origin.WholeQuery? || EdgesAreClear(origin.buckets, q, origin.boundary)
            ==> forall id: Id, p: Point :: HasPoint(result, id, p) <==> HasPoint(direct, id, p)
  {
    RunKeepsInv(env, run, i);
    assert ProcOk(env, run[i].procs[pid]);
  }

  /** And at every window that sticks out of its range, what a finished query returned is settled by
      what its lookup found: the stored point, nothing, or the value of the query's part. */
  lemma EdgesInRuns(env: Setting, run: seq<System>, i: nat, pid: Pid, w: nat, id: Id)
    requires env.step > 0 && IsRun(env, run) && i < |run|
    requires pid in run[i].procs && run[i].procs[pid].Done? && run[i].procs[pid].origin.Lookup?
    requires AtEdge(run[i].procs[pid].q, w)
    ensures var Done(q, result, origin) := run[i].procs[pid];
            EdgeIs(env.store, origin.buckets, q, origin.boundary, result, w, id)
  {
    RunKeepsInv(env, run, i);
    assert ProcOk(env, run[i].procs[pid]);
  }

  // ----- the flux interval -----

  ghost predicate AllBy(buckets: seq<Bucket>, limit: int) {
    forall b :: b in buckets ==>
      b.end <= limit && forall id: Id, p: Point :: HasPoint(b.value, id, p) ==> p.ts <= limit
  }

  /** Nothing that is stored, or about to be, is later than the limit. */
  ghost predicate SettledBy(s: System, limit: int) {
    (s.entry.Some? ==> AllBy(s.entry.value, limit))
    && forall pid :: pid in s.procs ==> ProcBy(s.procs[pid], limit)
  }

  lemma AddedBy(q: Query, boundary: nat, result: Data, limit: int)
    requires q.step > 0 && boundary <= limit
    ensures AllBy(AddedBuckets(q, boundary, result), limit)
  {
    if result.aggregations != [] {
      AddedEndsBehind(q, boundary, result);
    }
  }

  lemma WrittenBy(p: Proc, updated: seq<Bucket>, limit: int)
    requires p.Writing? && p.q.step > 0 && p.boundary <= limit && AllBy(p.existing, limit)
    requires Deduplicated(updated, p.existing, AddedBuckets(p.q, p.boundary, p.result))
    ensures AllBy(updated, limit)
  {
    AddedBy(p.q, p.boundary, p.result, limit);
    forall b | b in updated ensures b in p.existing || b in AddedBuckets(p.q, p.boundary, p.result) {
      KeptFromInputs(updated, p.existing, AddedBuckets(p.q, p.boundary, p.result), b);
    }
  }

  /** A process is about to write nothing later than the limit. */
  ghost predicate ProcBy(p: Proc, limit: int) {
    p.Writing? ==> p.boundary <= limit && AllBy(p.existing, limit)
  }

  lemma EntryStaysSettled(env: Setting, s: System, s': System, pid: Pid, limit: int)
    requires env.step > 0 && Inv(env, s) && StepOf(env, s, s', pid) && SettledBy(s, limit)
    ensures s'.entry.Some? ==> AllBy(s'.entry.value, limit)
  {
    if s'.entry != s.entry {
      assert PutWrite(s, s', pid);
      assert ProcOk(env, s.procs[pid]);
      WrittenBy(s.procs[pid], s'.entry.value, limit);
    }
  }

  lemma ProcStaysSettled(env: Setting, s: System, s': System, pid: Pid, limit: int)
    requires env.step > 0 && StepOf(env, s, s', pid) && SettledBy(s, limit)
    requires env.fluxInterval <= s.now <= limit + env.fluxInterval
    ensures pid in s'.procs && ProcBy(s'.procs[pid], limit) && s'.procs == s.procs[pid := s'.procs[pid]]
  {
    if s'.procs[pid].Writing? {
      var readable :| PutRead(env, s, s', pid, readable);
      assert s'.procs[pid].boundary == FluxBoundary(s.now, env.fluxInterval);
    }
  }

  /** While the clock reads at least the flux interval and at most that much more than the limit. */
  lemma StaysSettled(env: Setting, s: System, s': System, limit: int)
    requires env.step > 0 && Inv(env, s) && Next(env, s, s') && SettledBy(s, limit)
    requires env.fluxInterval <= s.now <= limit + env.fluxInterval
    ensures SettledBy(s', limit)
  {
    if !Evict(s, s') && !Tick(s, s') {
      var pid :| StepOf(env, s, s', pid);
      EntryStaysSettled(env, s, s', pid, limit);
      ProcStaysSettled(env, s, s', pid, limit);
      forall x | x in s'.procs ensures ProcBy(s'.procs[x], limit) {
        assert x != pid ==> s'.procs[x] == s.procs[x];
      }
    }
  }

  /** In every run, no stored bucket and no stored point is later than the flux interval before the
      latest time the clock has shown. */
  lemma {:induction false} NothingInFlux(env: Setting, run: seq<System>, i: nat, latest: nat)
    requires env.step > 0 && IsRun(env, run) && i < |run|
    requires forall j :: 0 <= j <= i ==> env.fluxInterval <= run[j].now <= latest
    ensures SettledBy(run[i], latest - env.fluxInterval)
  {
    if i > 0 {
      NothingInFlux(env, run, i - 1, latest);
      RunKeepsInv(env, run, i - 1);
      assert Next(env, run[i - 1], run[i - 1 + 1]);
      StaysSettled(env, run[i - 1], run[i], latest - env.fluxInterval);
    }
  }

  /** No query of any run dereferences a missing merge result. */
  lemma NeverCrashes(env: Setting, run: seq<System>, i: nat, pid: Pid)
    requires env.step > 0 && IsRun(env, run) && i < |run| && pid in run[i].procs
    ensures !run[i].procs[pid].Crashed?
  {
    RunKeepsInv(env, run, i);
    assert ProcOk(env, run[i].procs[pid]);
  }
}
