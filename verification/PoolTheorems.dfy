/**
 What the pool of crates/armillary/src/pool.rs guarantees over whole runs, and how far the two
 promises in its opening comment hold: that no job is stranded behind busy workers, and that
 the number of threads is bounded by the peak number of concurrent jobs.
 */
module PoolTheorems {
  import opened Wrappers
  import opened Pool

  lemma {:induction false} PrefixRuns(steps: seq<Step>, k: nat)
    requires RunTo(steps).Some? && k <= |steps|
    ensures RunTo(steps[..k]).Some?
    decreases |steps|
  {
    if k < |steps| {
      PrefixRuns(steps[..|steps| - 1], k);
      assert steps[..|steps| - 1][..k] == steps[..k];
    } else {
      assert steps[..k] == steps;
    }
  }

  lemma StepAfterPrefix(steps: seq<Step>, k: nat)
    requires RunTo(steps).Some? && k < |steps|
    ensures RunTo(steps[..k]).Some? && Enabled(RunTo(steps[..k]).value, steps[k])
    ensures RunTo(steps[..k + 1]) == Some(Apply(RunTo(steps[..k]).value, steps[k]))
  {
    PrefixRuns(steps, k);
    PrefixRuns(steps, k + 1);
    assert steps[..k + 1][..k] == steps[..k];
  }

  // ---------- Order and conservation ----------

  /** What had started at an earlier moment is a prefix of what has started. */
  lemma {:induction false} StartedOnlyGrows(steps: seq<Step>, k: nat)
    requires RunTo(steps).Some? && k <= |steps|
    ensures RunTo(steps[..k]).Some? && RunTo(steps[..k]).value.started <= RunTo(steps).value.started
    decreases |steps|
  {
    if k < |steps| {
      var before := steps[..|steps| - 1];
      StartedOnlyGrows(before, k);
      assert before[..k] == steps[..k];
    } else {
      assert steps[..k] == steps;
    }
  }

  /**
   Jobs start in the order they were submitted, each once, none lost: what has started is a
   prefix of what was submitted, the rest is queued, and every job submitted is queued, on a
   worker or finished, as many times as it was submitted.
   */
  lemma JobsStartInOrder(steps: seq<Step>)
    requires RunTo(steps).Some?
    ensures var s := RunTo(steps).value;
            && s.submitted == s.started + s.queue
            && multiset(s.submitted) == OnWorkers(s.workers) + s.finished + multiset(s.queue)
  {
    RunsKeepInvariants(steps);
    var s := RunTo(steps).value;
    assert multiset(s.started + s.queue) == multiset(s.started) + multiset(s.queue);
  }

  // ---------- No lost wake-up ----------

  lemma NoLostWakeup(steps: seq<Step>)
    requires RunTo(steps).Some?
    ensures var s := RunTo(steps).value;
            && s.idle == Asleep(s) + Waking(s)
            && (Asleep(s) > 0 ==> |s.queue| <= s.notifies + Waking(s) + Arriving(s))
            && (s.queue != [] ==> s.notifies + Waking(s) + Arriving(s) + Busy(s) > 0)
  {
    RunsKeepInvariants(steps);
    WorkersByPhase(RunTo(steps).value.workers);
  }

  /** A step that neither submits a job nor ends one. */
  predicate Quiet(step: Step) {
    !step.Submit? && !step.Finish?
  }

  ghost function RunFrom(s: State, steps: seq<Step>): Option<State>
    decreases |steps|
  {
    if steps == [] then Some(s)
    else if Enabled(s, steps[0]) then RunFrom(Apply(s, steps[0]), steps[1..])
    else None
  }

  ghost predicate HeadStarts(s: State, steps: seq<Step>)
    requires s.queue != []
  {
    && (forall i :: 0 <= i < |steps| ==> Quiet(steps[i]))
    && RunFrom(s, steps).Some?
    && RunFrom(s, steps).value.started == s.started + [s.queue[0]]
  }

  lemma {:induction false} AllBusyStays(s: State, steps: seq<Step>)
    requires forall w :: 0 <= w < |s.workers| ==> s.workers[w].Running?
    requires (forall i :: 0 <= i < |steps| ==> Quiet(steps[i])) && RunFrom(s, steps).Some?
    ensures RunFrom(s, steps).value.started == s.started
    decreases |steps|
  {
    if steps != [] {
      AllBusyStays(Apply(s, steps[0]), steps[1..]);
    }
  }

  lemma {:induction false} AllBusy(workers: seq<Phase>)
    ensures Weigh(workers, BUSY) <= |workers|
    ensures Weigh(workers, BUSY) == |workers| ==> forall w :: 0 <= w < |workers| ==> workers[w].Running?
  {
    if workers != [] {
      AllBusy(workers[1..]);
      assert forall w :: 0 < w < |workers| ==> workers[w] == workers[1..][w - 1];
    }
  }

  lemma TakesHead(s: State, w: nat)
    requires s.queue != [] && Enabled(s, TakeLock(w))
    ensures HeadStarts(s, [TakeLock(w)])
  {
    assert [TakeLock(w)][1..] == [];
  }

  lemma WakesAndTakesHead(s: State, w: nat)
    requires s.queue != [] && Enabled(s, Notify(w))
    ensures HeadStarts(s, [Notify(w), TakeLock(w)])
  {
    var steps := [Notify(w), TakeLock(w)];
    assert steps[1..] == [TakeLock(w)];
    var t := Apply(s, Notify(w));
    TakesHead(t, w);
  }

  /**
   A queued job can be started without any running job ending exactly when some worker is not
   running one.
   */
  lemma HeadStartsUnlessAllBusy(steps: seq<Step>)
    requires RunTo(steps).Some? && RunTo(steps).value.queue != []
    ensures (exists quiet :: HeadStarts(RunTo(steps).value, quiet))
            <==> Busy(RunTo(steps).value) < |RunTo(steps).value.workers|
  {
    var s := RunTo(steps).value;
    RunsKeepInvariants(steps);
    AllBusy(s.workers);
    WorkersByPhase(s.workers);
    if Busy(s) < |s.workers| {
      if Waking(s) > 0 {
        var w := WeighPositive(s.workers, WAKING);
        TakesHead(s, w);
      } else if Arriving(s) > 0 {
        var w := WeighPositive(s.workers, ARRIVING);
        TakesHead(s, w);
      } else {
        var w := WeighPositive(s.workers, ASLEEP);
        WakesAndTakesHead(s, w);
      }
    } else {
      forall quiet ensures !HeadStarts(s, quiet) {
        if HeadStarts(s, quiet) {
          AllBusyStays(s, quiet);
          assert false;
        }
      }
    }
  }

  // ---------- Stranding ----------

  /** Workers that are not running a job. */
  function Free(s: State): int {
    |s.workers| - Busy(s)
  }

  /** More jobs are queued than workers can take before some job ends. */
  predicate Stranding(s: State) {
    |s.queue| > Free(s)
  }

  /** The submit grows the pool, or finds fewer jobs queued than workers free. */
  predicate Provided(s: State, step: Step) {
    step.Submit? ==> s.idle == 0 || |s.queue| < Free(s)
  }

  lemma StepStrands(s: State, step: Step)
    requires Awaited(s) && Enabled(s, step) && !Stranding(s)
    ensures Stranding(Apply(s, step)) <==> !Provided(s, step)
  {
    match step
    case Submit(job) => Spawned(s.workers);
    case Notify(w) => PhaseChange(s, w, Woken);
    case NotifyNobody =>
    case TakeLock(w) => PhaseChange(s, w, if s.queue == [] then Sleeping else Running(s.queue[0]));
    case WakeSpuriously(w) => PhaseChange(s, w, Woken);
    case Finish(w) => PhaseChange(s, w, Returning);
  }

  /**
   A run never strands a job exactly when every submit in it grew the pool or found fewer jobs
   queued than workers free. The source grows only when nobody is idle, which is less.
   */
  lemma {:induction false} NeverStrandsIffProvided(steps: seq<Step>)
    requires RunTo(steps).Some?
    ensures (forall k :: 0 <= k <= |steps| ==> RunTo(steps[..k]).Some? && !Stranding(RunTo(steps[..k]).value))
            <==> (forall k :: 0 <= k < |steps| ==>
                RunTo(steps[..k]).Some? && Provided(RunTo(steps[..k]).value, steps[k]))
  {
    forall k | 0 <= k <= |steps| ensures RunTo(steps[..k]).Some? && Awaited(RunTo(steps[..k]).value) {
      PrefixRuns(steps, k);
      RunsKeepInvariants(steps[..k]);
    }
    if forall k :: 0 <= k <= |steps| ==> !Stranding(RunTo(steps[..k]).value) {
      forall k | 0 <= k < |steps| ensures Provided(RunTo(steps[..k]).value, steps[k]) {
        StepAfterPrefix(steps, k);
        StepStrands(RunTo(steps[..k]).value, steps[k]);
        assert !Stranding(RunTo(steps[..k + 1]).value);
      }
    }
    if forall k :: 0 <= k < |steps| ==> Provided(RunTo(steps[..k]).value, steps[k]) {
      forall k | 0 <= k <= |steps| ensures !Stranding(RunTo(steps[..k]).value) {
        ProvidedUpTo(steps, k);
      }
    }
  }

  lemma {:induction false} ProvidedUpTo(steps: seq<Step>, k: nat)
    requires RunTo(steps).Some? && k <= |steps|
    requires forall j :: 0 <= j < k ==> RunTo(steps[..j]).Some? && Provided(RunTo(steps[..j]).value, steps[j])
    ensures RunTo(steps[..k]).Some? && !Stranding(RunTo(steps[..k]).value)
  {
    if k == 0 {
      assert steps[..0] == [];
    } else {
      ProvidedUpTo(steps, k - 1);
      StepAfterPrefix(steps, k - 1);
      RunsKeepInvariants(steps[..k - 1]);
      StepStrands(RunTo(steps[..k - 1]).value, steps[k - 1]);
    }
  }

  lemma RunOn(steps: seq<Step>, step: Step)
    requires RunTo(steps).Some? && Enabled(RunTo(steps).value, step)
    ensures RunTo(steps + [step]) == Some(Apply(RunTo(steps).value, step))
  {
    assert (steps + [step])[..|steps|] == steps;
  }

  /** A run that has the first worker running the first job. */
  lemma BusyRun() returns (steps: seq<Step>)
    ensures RunTo(steps) == Some(State([], 0, [Running(0)], 0, [0], [0], multiset{}))
  {
    steps := Extend([], Submit(0), State([0], 0, [Starting], 1, [0], [], multiset{}));
    steps := Extend(steps, NotifyNobody, State([0], 0, [Starting], 0, [0], [], multiset{}));
    steps := Extend(steps, TakeLock(0), State([], 0, [Running(0)], 0, [0], [0], multiset{}));
  }

  /** A run that leaves one worker asleep and nothing queued. */
  lemma IdleRun() returns (steps: seq<Step>)
    ensures RunTo(steps) == Some(State([], 1, [Sleeping], 0, [0], [0], multiset{0}))
  {
    steps := BusyRun();
    steps := Extend(steps, Finish(0), State([], 0, [Returning], 0, [0], [0], multiset{0}));
    steps := Extend(steps, TakeLock(0), State([], 1, [Sleeping], 0, [0], [0], multiset{0}));
  }

  /**
   A run that strands a job with the only worker busy: two submits both count a woken worker
   that has not yet retaken the lock as idle.
   */
  lemma StrandedRun() returns (steps: seq<Step>)
    ensures RunTo(steps).Some?
    ensures var s := RunTo(steps).value; s.queue == [2] && s.workers == [Running(1)] && s.notifies == 0
  {
    steps := IdleRun();
    steps := Extend(steps, Submit(1), State([1], 1, [Sleeping], 1, [0, 1], [0], multiset{0}));
    steps := Extend(steps, Notify(0), State([1], 1, [Woken], 0, [0, 1], [0], multiset{0}));
    steps := Extend(steps, Submit(2), State([1, 2], 1, [Woken], 1, [0, 1, 2], [0], multiset{0}));
    steps := Extend(steps, TakeLock(0), State([2], 0, [Running(1)], 1, [0, 1, 2], [0, 1], multiset{0}));
    steps := Extend(steps, NotifyNobody, State([2], 0, [Running(1)], 0, [0, 1, 2], [0, 1], multiset{0}));
  }

  lemma Extend(steps: seq<Step>, step: Step, expected: State) returns (longer: seq<Step>)
    requires RunTo(steps).Some? && Enabled(RunTo(steps).value, step)
    requires Apply(RunTo(steps).value, step) == expected
    ensures RunTo(longer) == Some(expected)
  {
    RunOn(steps, step);
    longer := steps + [step];
  }

  // ---------- Threads ----------

  /** Jobs handed over and not yet ended. */
  function Outstanding(s: State): nat {
    |s.queue| + Busy(s)
  }

  /** The run is legal and at no moment has more than one job outstanding. */
  ghost predicate OneAtATime(steps: seq<Step>) {
    RunTo(steps).Some? && forall k :: 0 <= k <= |steps| ==>
      RunTo(steps[..k]).Some? && Outstanding(RunTo(steps[..k]).value) <= 1
  }

  lemma OneMore(steps: seq<Step>, step: Step)
    requires OneAtATime(steps) && Enabled(RunTo(steps).value, step)
    requires Outstanding(Apply(RunTo(steps).value, step)) <= 1
    ensures OneAtATime(steps + [step])
    ensures RunTo(steps + [step]) == Some(Apply(RunTo(steps).value, step))
  {
    RunOn(steps, step);
    var longer := steps + [step];
    forall k | 0 <= k <= |longer|
      ensures RunTo(longer[..k]).Some? && Outstanding(RunTo(longer[..k]).value) <= 1
    {
      if k <= |steps| { assert longer[..k] == steps[..k]; } else { assert longer[..k] == longer; }
    }
  }

  lemma {:induction false} AllReturning(workers: seq<Phase>)
    requires forall w :: 0 <= w < |workers| ==> workers[w] == Returning
    ensures Weigh(workers, BUSY) == 0
  {
    if workers != [] {
      assert forall w :: 0 <= w < |workers[1..]| ==> workers[1..][w] == workers[w + 1];
      AllReturning(workers[1..]);
    }
  }

  /** An idle-free pool whose workers have all just ended their jobs. */
  ghost predicate JustEnded(s: State) {
    && s.queue == [] && s.idle == 0 && s.notifies == 0
    && (forall w :: 0 <= w < |s.workers| ==> s.workers[w] == Returning)
  }

  /** From there, one more job brings one more worker. */
  /** From workers that all just returned, a submit and its job's whole life add one such worker. */
  lemma ThreadStarts(steps: seq<Step>, job: Job) returns (longer: seq<Step>)
    requires OneAtATime(steps) && JustEnded(RunTo(steps).value)
    ensures OneAtATime(longer)
    ensures RunTo(longer).value == RunTo(steps).value.(workers := RunTo(steps).value.workers + [Running(job)],
              submitted := RunTo(steps).value.submitted + [job], started := RunTo(steps).value.started + [job],
              notifies := 1)
  {
    var workers := RunTo(steps).value.workers;
    var n := |workers|;
    AllReturning(workers);
    WeighAppend(workers, BUSY, Starting);
    OneMore(steps, Submit(job));
    longer := steps + [Submit(job)];
    WeighUpdate(workers + [Starting], BUSY, n, Running(job));
    OneMore(longer, TakeLock(n));
    longer := longer + [TakeLock(n)];
    assert RunTo(longer).value.workers == workers + [Running(job)];
  }

  lemma OneMoreThread(steps: seq<Step>, job: Job) returns (longer: seq<Step>)
    requires OneAtATime(steps) && JustEnded(RunTo(steps).value)
    ensures OneAtATime(longer) && JustEnded(RunTo(longer).value)
    ensures |RunTo(longer).value.workers| == |RunTo(steps).value.workers| + 1
  {
    var workers := RunTo(steps).value.workers;
    var n := |workers|;
    longer := ThreadStarts(steps, job);
    AllReturning(workers);
    WeighAppend(workers, BUSY, Running(job));
    WeighUpdate(workers + [Running(job)], BUSY, n, Returning);
    OneMore(longer, Finish(n));
    longer := longer + [Finish(n)];
    assert RunTo(longer).value.workers == workers + [Returning];
    OneMore(longer, NotifyNobody);
    longer := longer + [NotifyNobody];
  }

  /**
   Threads are not bounded by peak concurrency: for every n some run has one job outstanding at
   a time and ends with n workers, because a worker whose job has ended is not idle until it
   takes the lock again.
   */
  lemma {:induction false} ThreadsExceedPeak(n: nat) returns (steps: seq<Step>)
    ensures OneAtATime(steps) && JustEnded(RunTo(steps).value)
    ensures |RunTo(steps).value.workers| == n
  {
    steps := [];
    if n > 0 {
      steps := ThreadsExceedPeak(n - 1);
      steps := OneMoreThread(steps, n);
    }
  }

  /** The submit does not grow the pool, or finds no more arriving workers than queued jobs. */
  predicate Settled(s: State, step: Step) {
    step.Submit? && s.idle == 0 ==> Arriving(s) <= |s.queue|
  }

  /** A submit that grows the pool leaves at most one worker per outstanding job exactly when settled. */
  lemma GrowthIsOutstanding(s: State, step: Step)
    requires Awaited(s) && Enabled(s, step)
    ensures var t := Apply(s, step);
            if step.Submit? && s.idle == 0
            then |t.workers| <= Outstanding(t) <==> Settled(s, step)
            else |t.workers| == |s.workers|
  {
    if step.Submit? {
      WorkersByPhase(s.workers);
      Spawned(s.workers);
    }
  }

  /** The most jobs outstanding at any moment of the first `n` steps. */
  ghost function Peak(steps: seq<Step>, n: nat): nat
    requires RunTo(steps).Some? && n <= |steps|
    decreases n
  {
    PrefixRuns(steps, n);
    var now := Outstanding(RunTo(steps[..n]).value);
    if n == 0 then now
    else
      var before := Peak(steps, n - 1);
      if before >= now then before else now
  }

  ghost function Threads(steps: seq<Step>, n: nat): nat
    requires RunTo(steps).Some? && n <= |steps|
  {
    PrefixRuns(steps, n);
    |RunTo(steps[..n]).value.workers|
  }

  /**
   Step `j` does not grow the pool, or is settled, or comes after a moment that already had more
   jobs outstanding than there are workers before it.
   */
  ghost predicate Justified(steps: seq<Step>, j: nat)
    requires RunTo(steps).Some? && j < |steps|
  {
    PrefixRuns(steps, j);
    Settled(RunTo(steps[..j]).value, steps[j]) || Peak(steps, j) > Threads(steps, j)
  }

  /** A step takes the threads past the peak exactly when it is not justified. */
  lemma StepWithinPeak(steps: seq<Step>, j: nat)
    requires RunTo(steps).Some? && j < |steps| && Threads(steps, j) <= Peak(steps, j)
    ensures Threads(steps, j + 1) <= Peak(steps, j + 1) <==> Justified(steps, j)
  {
    StepAfterPrefix(steps, j);
    RunsKeepInvariants(steps[..j]);
    GrowthIsOutstanding(RunTo(steps[..j]).value, steps[j]);
    var s := RunTo(steps[..j]).value;
    assert steps[j].Submit? && s.idle == 0 ==> Threads(steps, j + 1) == Threads(steps, j) + 1;
  }

  lemma {:induction false} WithinPeakUpTo(steps: seq<Step>, n: nat)
    requires RunTo(steps).Some? && n <= |steps|
    requires forall j :: 0 <= j < n ==> Justified(steps, j)
    ensures Threads(steps, n) <= Peak(steps, n)
  {
    if n == 0 {
      assert steps[..0] == [];
    } else {
      WithinPeakUpTo(steps, n - 1);
      StepWithinPeak(steps, n - 1);
    }
  }

  /**
   The threads stay within the peak of outstanding jobs throughout a run exactly when every
   submit of it that grows the pool is settled, or comes after a moment that had more jobs
   outstanding than there were workers.
   */
  lemma WithinPeakIffJustified(steps: seq<Step>)
    requires RunTo(steps).Some?
    ensures (forall n :: 0 <= n <= |steps| ==> Threads(steps, n) <= Peak(steps, n))
            <==> (forall j :: 0 <= j < |steps| ==> Justified(steps, j))
  {
    if forall n :: 0 <= n <= |steps| ==> Threads(steps, n) <= Peak(steps, n) {
      forall j | 0 <= j < |steps| ensures Justified(steps, j) {
        assert Threads(steps, j) <= Peak(steps, j) && Threads(steps, j + 1) <= Peak(steps, j + 1);
        StepWithinPeak(steps, j);
      }
    }
    if forall j :: 0 <= j < |steps| ==> Justified(steps, j) {
      forall n | 0 <= n <= |steps| ensures Threads(steps, n) <= Peak(steps, n) {
        WithinPeakUpTo(steps, n);
      }
    }
  }
}
