/**
 The worker pool of crates/armillary/src/pool.rs as a step system. Each critical section of
 the mutex is one step; the notify that `submit` issues after releasing the lock is a step of
 its own; a condition variable may wake a worker for no reason.

 A worker that has been woken but has not taken the lock again still counts as idle, so
 `Sleeping` and `Woken` are kept apart.
 */
module Pool {
  import opened Wrappers

  type Job = nat

  datatype Phase =
    | Starting          // spawned, has not taken the lock yet
    | Sleeping          // waiting on the condition variable, not notified
    | Woken             // notified or spuriously woken, has not retaken the lock
    | Running(job: Job)
    | Returning         // its job ended, has not retaken the lock

  datatype State = State(
    queue: seq<Job>,
    idle: int,              // decremented on every wake; that it never goes below zero is proved
    workers: seq<Phase>,
    notifies: nat,          // submits that have released the lock and not yet notified
    submitted: seq<Job>,    // history: in the order of the pushes
    started: seq<Job>,      // history: in the order of the pops
    finished: multiset<Job>)

  const INITIAL := State([], 0, [], 0, [], [], multiset{})

  datatype Step =
    | Submit(job: Job)      // the locked section: grow if nobody is idle, then push
    | Notify(worker: nat)   // notify_one with somebody sleeping
    | NotifyNobody          // notify_one with nobody sleeping: the notification is lost
    | TakeLock(worker: nat) // pop and run, or register idle and sleep
    | WakeSpuriously(worker: nat)
    | Finish(worker: nat)

  predicate Enabled(s: State, step: Step) {
    match step
    case Submit(_) => true
    case Notify(w) => s.notifies > 0 && w < |s.workers| && s.workers[w] == Sleeping
    case NotifyNobody => s.notifies > 0 && Sleeping !in s.workers
    case TakeLock(w) => w < |s.workers| && s.workers[w] in {Starting, Woken, Returning}
    case WakeSpuriously(w) => w < |s.workers| && s.workers[w] == Sleeping
    case Finish(w) => w < |s.workers| && s.workers[w].Running?
  }

  function Apply(s: State, step: Step): State
    requires Enabled(s, step)
  {
    match step
    case Submit(job) =>
      s.(workers := if s.idle == 0 then s.workers + [Starting] else s.workers,
         queue := s.queue + [job],
         submitted := s.submitted + [job],
         notifies := s.notifies + 1)
    case Notify(w) =>
      s.(workers := s.workers[w := Woken], notifies := s.notifies - 1)
    case NotifyNobody =>
      s.(notifies := s.notifies - 1)
    case TakeLock(w) =>
      var idle := if s.workers[w].Woken? then s.idle - 1 else s.idle;
      if s.queue == [] then
        s.(idle := idle + 1, workers := s.workers[w := Sleeping])
      else
        s.(idle := idle, workers := s.workers[w := Running(s.queue[0])],
           queue := s.queue[1..], started := s.started + [s.queue[0]])
    case WakeSpuriously(w) =>
      s.(workers := s.workers[w := Woken])
    case Finish(w) =>
      s.(workers := s.workers[w := Returning], finished := s.finished + multiset{s.workers[w].job})
  }

  /** The state a run reaches from the empty pool, if every step was possible when taken. */
  function RunTo(steps: seq<Step>): Option<State> {
    if steps == [] then Some(INITIAL)
    else
      var before := RunTo(steps[..|steps| - 1]);
      var step := steps[|steps| - 1];
      if before.Some? && Enabled(before.value, step) then Some(Apply(before.value, step)) else None
  }

  // ---------- Counting workers ----------

  function Weigh(workers: seq<Phase>, weight: Phase -> nat): nat {
    if workers == [] then 0 else weight(workers[0]) + Weigh(workers[1..], weight)
  }

  lemma {:induction false} WeighUpdate(workers: seq<Phase>, weight: Phase -> nat, w: nat, p: Phase)
    requires w < |workers|
    ensures Weigh(workers[w := p], weight) == Weigh(workers, weight) - weight(workers[w]) + weight(p)
    ensures Weigh(workers, weight) >= weight(workers[w])
  {
    if w == 0 {
      assert workers[0 := p][1..] == workers[1..];
    } else {
      assert workers[w := p][1..] == workers[1..][w - 1 := p];
      WeighUpdate(workers[1..], weight, w - 1, p);
    }
  }

  lemma {:induction false} WeighAppend(workers: seq<Phase>, weight: Phase -> nat, p: Phase)
    ensures Weigh(workers + [p], weight) == Weigh(workers, weight) + weight(p)
  {
    if workers == [] {
      assert (workers + [p])[1..] == [];
    } else {
      assert (workers + [p])[1..] == workers[1..] + [p];
      WeighAppend(workers[1..], weight, p);
    }
  }

  lemma {:induction false} WeighPositive(workers: seq<Phase>, weight: Phase -> nat) returns (w: nat)
    requires Weigh(workers, weight) > 0
    ensures w < |workers| && weight(workers[w]) > 0
  {
    if weight(workers[0]) > 0 {
      w := 0;
    } else {
      w := WeighPositive(workers[1..], weight);
      w := w + 1;
    }
  }

  const ASLEEP: Phase -> nat := (p: Phase) => if p.Sleeping? then 1 else 0
  const WAKING: Phase -> nat := (p: Phase) => if p.Woken? then 1 else 0
  const BUSY: Phase -> nat := (p: Phase) => if p.Running? then 1 else 0
  const ARRIVING: Phase -> nat := (p: Phase) => if p.Starting? || p.Returning? then 1 else 0

  function Asleep(s: State): nat { Weigh(s.workers, ASLEEP) }
  function Waking(s: State): nat { Weigh(s.workers, WAKING) }
  function Busy(s: State): nat { Weigh(s.workers, BUSY) }
  /** Workers about to take the lock from outside the wait: starting or returning. */
  function Arriving(s: State): nat { Weigh(s.workers, ARRIVING) }

  lemma {:induction false} WorkersByPhase(workers: seq<Phase>)
    ensures |workers| == Weigh(workers, ASLEEP) + Weigh(workers, WAKING) + Weigh(workers, BUSY)
            + Weigh(workers, ARRIVING)
  {
    if workers != [] { WorkersByPhase(workers[1..]); }
  }

  /** The jobs on workers right now. */
  function OnWorkers(workers: seq<Phase>): multiset<Job> {
    if workers == [] then multiset{}
    else JobOf(workers[0]) + OnWorkers(workers[1..])
  }

  function JobOf(p: Phase): multiset<Job> {
    if p.Running? then multiset{p.job} else multiset{}
  }

  lemma Exchange(a: multiset<Job>, r: multiset<Job>, r': multiset<Job>, x: multiset<Job>, y: multiset<Job>)
    requires r' + x == r + y
    ensures (a + r') + x == (a + r) + y
  {
    assert (a + r') + x == a + (r' + x);
    assert (a + r) + y == a + (r + y);
  }

  lemma {:induction false} OnWorkersUpdate(workers: seq<Phase>, w: nat, p: Phase)
    requires w < |workers|
    ensures OnWorkers(workers[w := p]) + JobOf(workers[w]) == OnWorkers(workers) + JobOf(p)
  {
    if w == 0 {
      assert workers[0 := p][1..] == workers[1..];
      assert OnWorkers(workers) == JobOf(workers[0]) + OnWorkers(workers[1..]);
    } else {
      assert workers[w := p][1..] == workers[1..][w - 1 := p];
      OnWorkersUpdate(workers[1..], w - 1, p);
      Exchange(JobOf(workers[0]), OnWorkers(workers[1..]), OnWorkers(workers[1..][w - 1 := p]), JobOf(workers[w]),
               JobOf(p));
    }
  }

  lemma {:induction false} OnWorkersAppend(workers: seq<Phase>, p: Phase)
    ensures OnWorkers(workers + [p]) == OnWorkers(workers) + JobOf(p)
  {
    if workers == [] {
      assert (workers + [p])[1..] == [];
    } else {
      assert (workers + [p])[1..] == workers[1..] + [p];
      OnWorkersAppend(workers[1..], p);
    }
  }

  // ---------- What every step keeps ----------

  /** Nothing is lost, repeated or reordered between submission and completion. */
  ghost predicate Conserved(s: State) {
    && s.submitted == s.started + s.queue
    && multiset(s.started) == OnWorkers(s.workers) + s.finished
  }

  /**
   The idle count is exact, and no wake-up is lost: while a worker sleeps un-notified, every
   queued job is matched by a notification to come or by a worker on its way to the lock.
   */
  ghost predicate Awaited(s: State) {
    && s.idle == Asleep(s) + Waking(s)
    && (Asleep(s) > 0 ==> |s.queue| <= s.notifies + Waking(s) + Arriving(s))
    && (s.submitted != [] ==> s.workers != [])
  }

  /** How one worker changing phase changes every count. */
  lemma PhaseChange(s: State, w: nat, p: Phase)
    requires w < |s.workers|
    ensures var next := s.workers[w := p];
            && Weigh(next, ASLEEP) == Asleep(s) - ASLEEP(s.workers[w]) + ASLEEP(p)
            && Weigh(next, WAKING) == Waking(s) - WAKING(s.workers[w]) + WAKING(p)
            && Weigh(next, BUSY) == Busy(s) - BUSY(s.workers[w]) + BUSY(p)
            && Weigh(next, ARRIVING) == Arriving(s) - ARRIVING(s.workers[w]) + ARRIVING(p)
  {
    WeighUpdate(s.workers, ASLEEP, w, p);
    WeighUpdate(s.workers, WAKING, w, p);
    WeighUpdate(s.workers, BUSY, w, p);
    WeighUpdate(s.workers, ARRIVING, w, p);
  }

  lemma Spawned(workers: seq<Phase>)
    ensures var next := workers + [Starting];
            && Weigh(next, ASLEEP) == Weigh(workers, ASLEEP)
            && Weigh(next, WAKING) == Weigh(workers, WAKING)
            && Weigh(next, BUSY) == Weigh(workers, BUSY)
            && Weigh(next, ARRIVING) == Weigh(workers, ARRIVING) + 1
  {
    WeighAppend(workers, ASLEEP, Starting);
    WeighAppend(workers, WAKING, Starting);
    WeighAppend(workers, BUSY, Starting);
    WeighAppend(workers, ARRIVING, Starting);
  }

  lemma NobodyAsleep(workers: seq<Phase>)
    requires Sleeping !in workers
    ensures Weigh(workers, ASLEEP) == 0
  {
    if Weigh(workers, ASLEEP) > 0 { var w := WeighPositive(workers, ASLEEP); }
  }

  lemma SubmitKeepsAwaited(s: State, job: Job)
    requires Awaited(s)
    ensures Awaited(Apply(s, Submit(job)))
  {
    Spawned(s.workers);
  }

  lemma WakeKeepsAwaited(s: State, step: Step)
    requires Awaited(s) && Enabled(s, step) && (step.Notify? || step.WakeSpuriously?)
    ensures Awaited(Apply(s, step))
  {
    PhaseChange(s, step.worker, Woken);
  }

  lemma TakeLockKeepsAwaited(s: State, w: nat)
    requires Awaited(s) && Enabled(s, TakeLock(w))
    ensures Awaited(Apply(s, TakeLock(w)))
  {
    PhaseChange(s, w, if s.queue == [] then Sleeping else Running(s.queue[0]));
  }

  lemma FinishKeepsAwaited(s: State, w: nat)
    requires Awaited(s) && Enabled(s, Finish(w))
    ensures Awaited(Apply(s, Finish(w)))
  {
    PhaseChange(s, w, Returning);
  }

  lemma StepKeepsAwaited(s: State, step: Step)
    requires Awaited(s) && Conserved(s) && Enabled(s, step)
    ensures Awaited(Apply(s, step))
  {
    match step
    case Submit(job) => SubmitKeepsAwaited(s, job);
    case NotifyNobody => NobodyAsleep(s.workers);
    case TakeLock(w) => TakeLockKeepsAwaited(s, w);
    case Finish(w) => FinishKeepsAwaited(s, w);
    case _ => WakeKeepsAwaited(s, step);
  }

  lemma SubmitKeepsConserved(s: State, job: Job)
    requires Conserved(s)
    ensures Conserved(Apply(s, Submit(job)))
  {
    OnWorkersAppend(s.workers, Starting);
    assert OnWorkers(s.workers) + multiset{} == OnWorkers(s.workers);
    assert s.started + (s.queue + [job]) == s.started + s.queue + [job];
  }

  lemma OneStarted(started: seq<Job>, on: multiset<Job>, finished: multiset<Job>, job: Job)
    requires multiset(started) == on + finished
    ensures multiset(started + [job]) == (on + multiset{job}) + finished
  {
  }

  lemma PopKeepsConserved(s: State, w: nat)
    requires Conserved(s) && Enabled(s, TakeLock(w)) && s.queue != []
    ensures Conserved(Apply(s, TakeLock(w)))
  {
    var job := s.queue[0];
    var on, on' := OnWorkers(s.workers), OnWorkers(s.workers[w := Running(job)]);
    OnWorkersUpdate(s.workers, w, Running(job));
    assert on' == on + multiset{job};
    OneStarted(s.started, on, s.finished, job);
    assert s.started + [job] + s.queue[1..] == s.started + s.queue;
  }

  lemma FinishKeepsConserved(s: State, w: nat)
    requires Conserved(s) && Enabled(s, Finish(w))
    ensures Conserved(Apply(s, Finish(w)))
  {
    var job := s.workers[w].job;
    var on, on' := OnWorkers(s.workers), OnWorkers(s.workers[w := Returning]);
    OnWorkersUpdate(s.workers, w, Returning);
    assert on' + multiset{job} == on;
    assert on + s.finished == on' + (s.finished + multiset{job});
  }

  lemma StepKeepsConserved(s: State, step: Step)
    requires Conserved(s) && Enabled(s, step)
    ensures Conserved(Apply(s, step))
  {
    match step
    case Submit(job) => SubmitKeepsConserved(s, job);
    case Notify(w) => QuietChange(s.workers, w, Woken);
    case NotifyNobody =>
    case TakeLock(w) => if s.queue == [] { QuietChange(s.workers, w, Sleeping); } else { PopKeepsConserved(s, w); }
    case WakeSpuriously(w) => QuietChange(s.workers, w, Woken);
    case Finish(w) => FinishKeepsConserved(s, w);
  }

  lemma QuietChange(workers: seq<Phase>, w: nat, p: Phase)
    requires w < |workers| && !workers[w].Running? && !p.Running?
    ensures OnWorkers(workers[w := p]) == OnWorkers(workers)
  {
    OnWorkersUpdate(workers, w, p);
    assert OnWorkers(workers[w := p]) + multiset{} == OnWorkers(workers[w := p]);
    assert OnWorkers(workers) + multiset{} == OnWorkers(workers);
  }

  lemma {:induction false} RunsKeepInvariants(steps: seq<Step>)
    requires RunTo(steps).Some?
    ensures Conserved(RunTo(steps).value) && Awaited(RunTo(steps).value)
  {
    if steps != [] {
      var before := steps[..|steps| - 1];
      RunsKeepInvariants(before);
      StepKeepsConserved(RunTo(before).value, steps[|steps| - 1]);
      StepKeepsAwaited(RunTo(before).value, steps[|steps| - 1]);
    }
  }
}
