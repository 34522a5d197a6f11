/** Bounded parallel fetching as a step system: one goroutine per missing range, a semaphore of
    four, one result slot per goroutine, and a wait group that every goroutine leaves last. */
module ParallelFetch {
  import opened Options

  const PARALLELISM: nat := 4

  /** Where a goroutine is: not started, blocked on the semaphore, running its query, finished with
      its slot written, the semaphore given back, or gone from the wait group. */
  datatype Phase = Unspawned | Waiting | Running | Written | Released | Gone

  datatype Fetch<T> = Fetch(phases: seq<Phase>, slots: seq<Option<T>>, permits: nat)

  datatype Step = Spawn(i: nat) | Acquire(i: nat) | Write(i: nat) | Release(i: nat) | Leave(i: nat)

  function Start<T>(n: nat): Fetch<T> {
    Fetch(seq(n, _ => Unspawned), seq(n, _ => None), 0)
  }

  /** answers[i] is what the query of range i gives when it is run. */
  ghost predicate Enabled<T>(f: Fetch<T>, answers: seq<T>, step: Step) {
    step.i < |f.phases| == |f.slots| == |answers|
    && match step
       case Spawn(i) => f.phases[i] == Unspawned && forall j :: 0 <= j < i ==> f.phases[j] != Unspawned
       case Acquire(i) => f.phases[i] == Waiting && f.permits < PARALLELISM
       case Write(i) => f.phases[i] == Running
       case Release(i) => f.phases[i] == Written && f.permits > 0
       case Leave(i) => f.phases[i] == Released
  }

  ghost function Apply<T>(f: Fetch<T>, answers: seq<T>, step: Step): Fetch<T>
    requires Enabled(f, answers, step)
  {
    match step
    case Spawn(i) => f.(phases := f.phases[i := Waiting])
    case Acquire(i) => f.(phases := f.phases[i := Running], permits := f.permits + 1)
    case Write(i) => f.(phases := f.phases[i := Written], slots := f.slots[i := Some(answers[i])])
    case Release(i) => f.(phases := f.phases[i := Released], permits := f.permits - 1)
    case Leave(i) => f.(phases := f.phases[i := Gone])
  }

  /** The wait is over: the loop has started every goroutine and each has left the wait group. */
  predicate Finished<T>(f: Fetch<T>) {
    forall i :: 0 <= i < |f.phases| ==> f.phases[i] == Gone
  }

  predicate HoldsPermit(p: Phase) { p == Running || p == Written }

  predicate HasWritten(p: Phase) { p == Written || p == Released || p == Gone }

  function Count(phases: seq<Phase>, what: Phase -> bool): nat {
    if phases == [] then 0 else (if what(phases[0]) then 1 else 0) + Count(phases[1..], what)
  }

  function Steps(p: Phase): nat {
    match p
    case Unspawned => 5
    case Waiting => 4
    case Running => 3
    case Written => 2
    case Released => 1
    case Gone => 0
  }

  /** How many steps are left over all goroutines. */
  function StepsLeft(phases: seq<Phase>): nat {
    if phases == [] then 0 else Steps(phases[0]) + StepsLeft(phases[1..])
  }

  ghost predicate Inv<T>(f: Fetch<T>, answers: seq<T>) {
    |f.phases| == |f.slots| == |answers|
    && f.permits == Count(f.phases, HoldsPermit) <= PARALLELISM
    && forall i :: 0 <= i < |f.phases| ==> f.slots[i] == if HasWritten(f.phases[i]) then Some(answers[i]) else None
  }

  lemma {:induction false} CountUpdate(phases: seq<Phase>, what: Phase -> bool, i: nat, p: Phase)
    requires i < |phases|
    ensures Count(phases[i := p], what) + (if what(phases[i]) then 1 else 0)
            == Count(phases, what) + (if what(p) then 1 else 0)
  {
    var u := phases[i := p];
    if i == 0 {
      assert u[1..] == phases[1..];
    } else {
      CountUpdate(phases[1..], what, i - 1, p);
      assert u[1..] == phases[1..][i - 1 := p];
    }
  }

  lemma {:induction false} StepsUpdate(phases: seq<Phase>, i: nat, p: Phase)
    requires i < |phases|
    ensures StepsLeft(phases[i := p]) + Steps(phases[i]) == StepsLeft(phases) + Steps(p)
  {
    var u := phases[i := p];
    if i == 0 {
      assert u[1..] == phases[1..];
    } else {
      StepsUpdate(phases[1..], i - 1, p);
      assert u[1..] == phases[1..][i - 1 := p];
    }
  }

  lemma {:induction false} NothingStarted(phases: seq<Phase>)
    requires forall i :: 0 <= i < |phases| ==> phases[i] == Unspawned
    ensures Count(phases, HoldsPermit) == 0 && StepsLeft(phases) == 5 * |phases|
  {
    if phases != [] {
      NothingStarted(phases[1..]);
    }
  }

  lemma StartsWell<T>(answers: seq<T>)
    ensures Inv(Start(|answers|), answers)
    ensures StepsLeft(Start<T>(|answers|).phases) == 5 * |answers|
  {
    NothingStarted(Start<T>(|answers|).phases);
  }

  /** Every step of every interleaving keeps the invariant, uses up exactly one of the remaining
      steps, and never touches a slot that is already written. */
  lemma StepKeepsInv<T>(f: Fetch<T>, answers: seq<T>, step: Step)
    requires Inv(f, answers) && Enabled(f, answers, step)
    ensures Inv(Apply(f, answers, step), answers)
    ensures StepsLeft(Apply(f, answers, step).phases) == StepsLeft(f.phases) - 1
    ensures forall i :: 0 <= i < |f.slots| && f.slots[i].Some? ==> Apply(f, answers, step).slots[i] == f.slots[i]
  {
    var p := Apply(f, answers, step).phases[step.i];
    CountUpdate(f.phases, HoldsPermit, step.i, p);
    StepsUpdate(f.phases, step.i, p);
  }

  lemma {:induction false} SomeHolder(phases: seq<Phase>, what: Phase -> bool) returns (i: nat)
    requires Count(phases, what) > 0
    ensures i < |phases| && what(phases[i])
  {
    if what(phases[0]) {
      i := 0;
    } else {
      var j := SomeHolder(phases[1..], what);
      i := j + 1;
    }
  }

  /** There is no deadlock: until the wait is over some step can be taken. */
  lemma Progress<T>(f: Fetch<T>, answers: seq<T>) returns (step: Step)
    requires Inv(f, answers) && !Finished(f)
    ensures Enabled(f, answers, step)
  {
    if i: nat :| i < |f.phases| && f.phases[i] == Released {
      step := Leave(i);
    } else if f.permits > 0 {
      var i := SomeHolder(f.phases, HoldsPermit);
      step := if f.phases[i] == Running then Write(i) else Release(i);
    } else if i: nat :| i < |f.phases| && f.phases[i] == Waiting {
      step := Acquire(i);
    } else {
      var i :| 0 <= i < |f.phases| && f.phases[i] != Gone;
      NoHolder(f.phases, HoldsPermit, i);
      var first := FirstUnspawned(f.phases, i);
      step := Spawn(first);
    }
  }

  /** The semaphore holds nobody back for nothing: while fewer than four run, any that waits can start. */
  lemma FourCanRun<T>(f: Fetch<T>, answers: seq<T>, i: nat)
    requires Inv(f, answers) && i < |f.phases| && f.phases[i] == Waiting
    ensures Enabled(f, answers, Acquire(i)) <==> Count(f.phases, HoldsPermit) < 4
  {
  }

  lemma {:induction false} NoHolder(phases: seq<Phase>, what: Phase -> bool, i: nat)
    requires Count(phases, what) == 0 && i < |phases|
    ensures !what(phases[i])
  {
    if i > 0 {
      NoHolder(phases[1..], what, i - 1);
    }
  }

  lemma {:induction false} FirstUnspawned(phases: seq<Phase>, i: nat) returns (first: nat)
    requires i < |phases| && phases[i] == Unspawned
    ensures first <= i && phases[first] == Unspawned && forall j :: 0 <= j < first ==> phases[j] != Unspawned
    decreases i
  {
    if j: nat :| j < i && phases[j] == Unspawned {
      first := FirstUnspawned(phases, j);
    } else {
      first := i;
    }
  }

  /** A schedule is any list of enabled steps. */
  ghost predicate Schedule<T>(f: Fetch<T>, answers: seq<T>, steps: seq<Step>)
    decreases |steps|
  {
    steps == [] || (Enabled(f, answers, steps[0]) && Schedule(Apply(f, answers, steps[0]), answers, steps[1..]))
  }

  ghost function Run<T>(f: Fetch<T>, answers: seq<T>, steps: seq<Step>): Fetch<T>
    requires Schedule(f, answers, steps)
    decreases |steps|
  {
    if steps == [] then f else Run(Apply(f, answers, steps[0]), answers, steps[1..])
  }

  lemma {:induction false} RunKeepsInv<T>(f: Fetch<T>, answers: seq<T>, steps: seq<Step>)
    requires Inv(f, answers) && Schedule(f, answers, steps)
    ensures Inv(Run(f, answers, steps), answers)
    ensures StepsLeft(Run(f, answers, steps).phases) == StepsLeft(f.phases) - |steps|
    decreases |steps|
  {
    if steps != [] {
      StepKeepsInv(f, answers, steps[0]);
      RunKeepsInv(Apply(f, answers, steps[0]), answers, steps[1..]);
    }
  }

  lemma {:induction false} FinishedMeansNoStepsLeft(phases: seq<Phase>)
    ensures StepsLeft(phases) == 0 <==> forall i :: 0 <= i < |phases| ==> phases[i] == Gone
  {
    if phases != [] {
      FinishedMeansNoStepsLeft(phases[1..]);
      assert phases[0] == Gone <==> Steps(phases[0]) == 0;
      if forall i :: 0 <= i < |phases| ==> phases[i] == Gone {
        forall i | 0 <= i < |phases[1..]| ensures phases[1..][i] == Gone {
          assert phases[1..][i] == phases[i + 1];
        }
      }
      if StepsLeft(phases) == 0 {
        forall i | 0 <= i < |phases| ensures phases[i] == Gone {
          assert i > 0 ==> phases[i] == phases[1..][i - 1];
        }
      }
    }
  }

  /** Over every schedule: at most four queries run at once, the wait is over after exactly five
      steps per range and not before, and then slot i holds the answer of range i. */
  lemma EveryScheduleFillsTheSlots<T>(answers: seq<T>, steps: seq<Step>)
    requires Schedule(Start(|answers|), answers, steps)
    ensures var f := Run(Start(|answers|), answers, steps);
            Count(f.phases, HoldsPermit) <= 4
            && |steps| <= 5 * |answers|
            && (Finished(f) <==> |steps| == 5 * |answers|)
            && (Finished(f) ==> |f.slots| == |answers| && forall i :: 0 <= i < |answers| ==> f.slots[i] == Some(answers[i]))
  {
    var f0 := Start<T>(|answers|);
    StartsWell(answers);
    RunKeepsInv(f0, answers, steps);
    FinishedMeansNoStepsLeft(Run(f0, answers, steps).phases);
  }
}
