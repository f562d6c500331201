/** The worker pool as a step system: every section under `queue_mutex` is one step, and a notification is a step of
    its own (cannon_proxy/src/thread_pool/ThreadPool.h). */
module ThreadPool {

  type Task = nat

  /** `Awake` is about to take the lock and test the wait condition, `Waiting` is blocked on it. */
  datatype Worker = Awake | Waiting | Running(task: Task) | Exited

  /** `notifies` and `notifyAll` are the notifications that callers still owe. `accepted`, `taken` and `finished`
      only record the past. */
  datatype Pool = Pool(workers: seq<Worker>, tasks: seq<Task>, stop: bool, notifies: nat, notifyAll: bool,
                       accepted: seq<Task>, taken: seq<Task>, finished: multiset<Task>)

  datatype Step =
    | Enqueue(task: Task)
    | RejectEnqueue
    | NotifyOne(w: nat)
    | NotifyNobody
    | Stop
    | NotifyAll
    | Check(w: nat)
    | Finish(w: nat)
    | WakeSpuriously(w: nat)

  predicate Init(p: Pool) {
    p.workers != [] && (forall w | 0 <= w < |p.workers| :: p.workers[w] == Awake)
    && p == Pool(p.workers, [], false, 0, false, [], [], multiset{})
  }

  predicate IsWaiting(p: Pool, w: nat) {
    w < |p.workers| && p.workers[w].Waiting?
  }

  predicate Enabled(p: Pool, step: Step) {
    match step
    case Enqueue(_) => !p.stop
    case RejectEnqueue => p.stop
    case NotifyOne(w) => p.notifies > 0 && IsWaiting(p, w)
    case NotifyNobody => p.notifies > 0 && forall w | 0 <= w < |p.workers| :: !p.workers[w].Waiting?
    case Stop => !p.stop
    case NotifyAll => p.notifyAll
    case Check(w) => w < |p.workers| && p.workers[w].Awake?
    case Finish(w) => w < |p.workers| && p.workers[w].Running?
    case WakeSpuriously(w) => IsWaiting(p, w)
  }

  function Woken(workers: seq<Worker>): seq<Worker> {
    seq(|workers|, w requires 0 <= w < |workers| => if workers[w].Waiting? then Awake else workers[w])
  }

  function After(p: Pool, step: Step): Pool
    requires Enabled(p, step)
  {
    match step
    case Enqueue(t) => p.(tasks := p.tasks + [t], accepted := p.accepted + [t], notifies := p.notifies + 1)
    case RejectEnqueue => p
    case NotifyOne(w) => p.(notifies := p.notifies - 1, workers := p.workers[w := Awake])
    case NotifyNobody => p.(notifies := p.notifies - 1)
    case Stop => p.(stop := true, notifyAll := true)
    case NotifyAll => p.(notifyAll := false, workers := Woken(p.workers))
    case Check(w) =>
      if !p.stop && p.tasks == [] then p.(workers := p.workers[w := Waiting])
      else if p.stop && p.tasks == [] then p.(workers := p.workers[w := Exited])
      else p.(workers := p.workers[w := Running(p.tasks[0])], tasks := p.tasks[1..], taken := p.taken + [p.tasks[0]])
    case Finish(w) => p.(workers := p.workers[w := Awake], finished := p.finished + multiset{p.workers[w].task})
    case WakeSpuriously(w) => p.(workers := p.workers[w := Awake])
  }

  ghost predicate IsRun(pools: seq<Pool>, steps: seq<Step>) {
    && |pools| == |steps| + 1
    && forall i | 0 <= i < |steps| :: Enabled(pools[i], steps[i]) && pools[i + 1] == After(pools[i], steps[i])
  }

  /** Runs start anywhere and go on with any enabled step. */
  lemma RunGoesOn(pools: seq<Pool>, steps: seq<Step>, step: Step)
    requires |pools| == |steps| + 1
    ensures IsRun(pools[..1], [])
    ensures IsRun(pools, steps) && Enabled(pools[|steps|], step) ==>
              IsRun(pools + [After(pools[|steps|], step)], steps + [step])
  {
    hide Enabled, After;
  }

  // ---------------------------------------------------------------- the invariant

  function Runs(w: Worker, t: Task): nat {
    if w == Running(t) then 1 else 0
  }

  /** How many workers are running task `t`. */
  function InProgress(workers: seq<Worker>, t: Task): nat {
    if workers == [] then 0
    else InProgress(workers[..|workers| - 1], t) + Runs(workers[|workers| - 1], t)
  }

  predicate Active(w: Worker) {
    w.Awake? || w.Running?
  }

  ghost predicate SomeActive(workers: seq<Worker>) {
    exists w | 0 <= w < |workers| :: Active(workers[w])
  }

  /** Tasks are taken in the order in which they were accepted, and none is lost or taken twice. */
  ghost predicate Fifo(p: Pool) {
    p.accepted == p.taken + p.tasks && forall t :: multiset(p.taken)[t] == p.finished[t] + InProgress(p.workers, t)
  }

  function Awakes(workers: seq<Worker>): nat {
    if workers == [] then 0
    else Awakes(workers[..|workers| - 1]) + if workers[|workers| - 1].Awake? then 1 else 0
  }

  /** While some worker sleeps, every queued task has an awake worker or a notification of its own on the way. */
  ghost predicate NoLostWakeup(p: Pool) {
    (exists w :: IsWaiting(p, w)) ==> p.notifyAll || |p.tasks| <= p.notifies + Awakes(p.workers)
  }

  /** Workers leave only a stopped pool with an empty queue, and none of them sleeps through the stop. */
  ghost predicate StopOk(p: Pool) {
    && (forall w | 0 <= w < |p.workers| :: p.workers[w].Exited? ==> p.stop && p.tasks == [])
    && (p.notifyAll ==> p.stop)
    && (p.stop && !p.notifyAll ==> forall w | 0 <= w < |p.workers| :: !p.workers[w].Waiting?)
  }

  ghost predicate Inv(p: Pool) {
    p.workers != [] && Fifo(p) && NoLostWakeup(p) && StopOk(p)
  }

  lemma {:induction false} InProgressUpdate(workers: seq<Worker>, w: nat, x: Worker, t: Task)
    requires w < |workers|
    ensures InProgress(workers[w := x], t) + Runs(workers[w], t) == InProgress(workers, t) + Runs(x, t)
  {
    var n := |workers| - 1;
    if w == n {
      assert workers[w := x][..n] == workers[..n];
    } else {
      InProgressUpdate(workers[..n], w, x, t);
      assert workers[w := x][..n] == workers[..n][w := x];
    }
  }

  lemma {:induction false} InProgressWoken(workers: seq<Worker>, t: Task)
    ensures InProgress(Woken(workers), t) == InProgress(workers, t)
  {
    if workers != [] {
      InProgressWoken(workers[..|workers| - 1], t);
      assert Woken(workers)[..|workers| - 1] == Woken(workers[..|workers| - 1]);
    }
  }

  lemma {:induction false} NobodyInProgress(workers: seq<Worker>, t: Task)
    requires forall w | 0 <= w < |workers| :: !workers[w].Running?
    ensures InProgress(workers, t) == 0
  {
    if workers != [] {
      NobodyInProgress(workers[..|workers| - 1], t);
    }
  }

  lemma InitInv(p: Pool)
    requires Init(p)
    ensures Inv(p)
  {
    forall t ensures InProgress(p.workers, t) == 0 {
      NobodyInProgress(p.workers, t);
    }
  }

  /** The step of one worker changes what is in progress by its own task only. */
  lemma WorkerFifo(p: Pool, step: Step, w: nat, x: Worker)
    requires w < |p.workers| && Enabled(p, step) && After(p, step).workers == p.workers[w := x]
    ensures forall t ::
              InProgress(After(p, step).workers, t) + Runs(p.workers[w], t) == InProgress(p.workers, t) + Runs(x, t)
  {
    forall t ensures InProgress(p.workers[w := x], t) + Runs(p.workers[w], t) == InProgress(p.workers, t) + Runs(x, t) {
      InProgressUpdate(p.workers, w, x, t);
    }
  }

  /** Moving the first queued task behind the taken ones keeps the order of both. */
  lemma TakenInOrder(taken: seq<Task>, tasks: seq<Task>)
    requires tasks != []
    ensures taken + [tasks[0]] + tasks[1..] == taken + tasks
  {
  }

  lemma TakenOnce(taken: seq<Task>, task: Task, t: Task)
    ensures multiset(taken + [task])[t] == multiset(taken)[t] + if t == task then 1 else 0
  {
  }

  lemma CheckOrder(p: Pool, w: nat)
    requires Enabled(p, Check(w))
    ensures var q := After(p, Check(w));
            q.taken + q.tasks == p.taken + p.tasks && q.accepted == p.accepted && q.finished == p.finished
  {
    if p.tasks != [] {
      TakenInOrder(p.taken, p.tasks);
    }
  }

  lemma CheckCount(p: Pool, w: nat, t: Task)
    requires Enabled(p, Check(w))
    ensures var q := After(p, Check(w));
            multiset(q.taken)[t] + InProgress(p.workers, t) == multiset(p.taken)[t] + InProgress(q.workers, t)
  {
    hide InProgress;
    InProgressUpdate(p.workers, w, After(p, Check(w)).workers[w], t);
    if p.tasks != [] {
      TakenOnce(p.taken, p.tasks[0], t);
    }
  }

  lemma CheckFifo(p: Pool, w: nat)
    requires Fifo(p) && Enabled(p, Check(w))
    ensures Fifo(After(p, Check(w)))
  {
    hide InProgress, After, Enabled;
    CheckOrder(p, w);
    forall t ensures multiset(After(p, Check(w)).taken)[t] + InProgress(p.workers, t) ==
                     multiset(p.taken)[t] + InProgress(After(p, Check(w)).workers, t)
    {
      CheckCount(p, w, t);
    }
  }

  lemma StepFifo(p: Pool, step: Step)
    requires Inv(p) && Enabled(p, step)
    ensures Fifo(After(p, step))
  {
    hide StopOk, NoLostWakeup, InProgress;
    match step
    case Check(w) => CheckFifo(p, w);
    case Finish(w) => WorkerFifo(p, step, w, Awake);
    case NotifyOne(w) => WorkerFifo(p, step, w, Awake);
    case WakeSpuriously(w) => WorkerFifo(p, step, w, Awake);
    case NotifyAll =>
      forall t ensures InProgress(Woken(p.workers), t) == InProgress(p.workers, t) {
        InProgressWoken(p.workers, t);
      }
    case Enqueue(t) => assert p.taken + (p.tasks + [t]) == p.taken + p.tasks + [t];
    case _ =>
  }

  lemma StepWorkers(p: Pool, step: Step)
    requires p.workers != [] && Enabled(p, step)
    ensures |After(p, step).workers| == |p.workers|
  {
  }

  lemma {:induction false} AwakesUpdate(workers: seq<Worker>, w: nat, x: Worker)
    requires w < |workers|
    ensures Awakes(workers[w := x]) + (if workers[w].Awake? then 1 else 0) == Awakes(workers) + if x.Awake? then 1 else 0
  {
    var n := |workers| - 1;
    if w == n {
      assert workers[w := x][..n] == workers[..n];
    } else {
      AwakesUpdate(workers[..n], w, x);
      assert workers[w := x][..n] == workers[..n][w := x];
    }
  }

  /** Nobody starts to sleep unless the queue is empty. */
  lemma StillWaiting(p: Pool, step: Step, w: nat)
    requires Enabled(p, step) && IsWaiting(After(p, step), w)
    ensures IsWaiting(p, w) || p.tasks == []
  {
  }

  lemma StepNoLostWakeup(p: Pool, step: Step)
    requires Inv(p) && Enabled(p, step)
    ensures NoLostWakeup(After(p, step))
  {
    hide Fifo, StopOk, Awakes;
    if w :| IsWaiting(After(p, step), w) {
      StillWaiting(p, step, w);
      match step
      case NotifyOne(v) => AwakesUpdate(p.workers, v, Awake);
      case Check(v) => AwakesUpdate(p.workers, v, After(p, step).workers[v]);
      case Finish(v) => AwakesUpdate(p.workers, v, Awake);
      case WakeSpuriously(v) => AwakesUpdate(p.workers, v, Awake);
      case _ =>
    }
  }

  lemma {:induction false} AwakeIsActive(workers: seq<Worker>)
    ensures Awakes(workers) > 0 ==> SomeActive(workers)
  {
    if workers != [] {
      var n := |workers| - 1;
      AwakeIsActive(workers[..n]);
      if w :| 0 <= w < n && Active(workers[..n][w]) {
        assert Active(workers[w]);
      }
      assert workers[n].Awake? ==> Active(workers[n]);
    }
  }

  /** So a queued task always has somebody who will look at the queue. */
  lemma SomebodyLooks(p: Pool)
    requires Inv(p) && p.tasks != []
    ensures p.notifies > 0 || p.notifyAll || SomeActive(p.workers)
  {
    AwakeIsActive(p.workers);
    assert !p.workers[0].Exited?;
    if p.workers[0].Waiting? {
      assert IsWaiting(p, 0);
    } else {
      assert Active(p.workers[0]);
    }
  }

  lemma StepStopOk(p: Pool, step: Step)
    requires Inv(p) && Enabled(p, step)
    ensures StopOk(After(p, step))
  {
    hide Fifo, NoLostWakeup;
  }

  /** The invariant holds in every state of every run with at least one worker. */
  lemma {:induction false} RunKeepsInv(pools: seq<Pool>, steps: seq<Step>, i: nat)
    requires IsRun(pools, steps) && Init(pools[0]) && i < |pools|
    ensures Inv(pools[i])
  {
    hide Fifo, NoLostWakeup, StopOk, Enabled, After;
    if i == 0 {
      InitInv(pools[0]);
    } else {
      RunKeepsInv(pools, steps, i - 1);
      StepWorkers(pools[i - 1], steps[i - 1]);
      StepFifo(pools[i - 1], steps[i - 1]);
      StepNoLostWakeup(pools[i - 1], steps[i - 1]);
      StepStopOk(pools[i - 1], steps[i - 1]);
    }
  }

  // ---------------------------------------------------------------- what the calls ask for

  /** The tasks of the accepted calls among the first `i` steps, in the order of the calls. */
  ghost function Submitted(steps: seq<Step>, i: nat): seq<Task>
    requires i <= |steps|
  {
    if i == 0 then []
    else match steps[i - 1]
      case Enqueue(t) => Submitted(steps, i - 1) + [t]
      case _ => Submitted(steps, i - 1)
  }

  /** Each accepted call submits its task, and no other step submits any. */
  lemma SubmittedEach(steps: seq<Step>, j: nat)
    requires j < |steps|
    ensures steps[j].Enqueue? ==> Submitted(steps, j + 1) == Submitted(steps, j) + [steps[j].task]
    ensures !steps[j].Enqueue? ==> Submitted(steps, j + 1) == Submitted(steps, j)
    ensures Submitted(steps, 0) == []
  {
  }

  ghost predicate Stopped(steps: seq<Step>, i: nat)
    requires i <= |steps|
  {
    exists j | 0 <= j < i :: steps[j].Stop?
  }

  /** Only calls add tasks, and only a call stops the pool. */
  lemma StepAccepts(p: Pool, step: Step)
    requires Enabled(p, step)
    ensures After(p, step).accepted == if step.Enqueue? then p.accepted + [step.task] else p.accepted
    ensures After(p, step).stop == (p.stop || step.Stop?)
  {
  }

  /** The pool accepted exactly the tasks submitted to it, in order, and it is stopped exactly when a call stopped it. */
  lemma {:induction false} AcceptedIsSubmitted(pools: seq<Pool>, steps: seq<Step>, i: nat)
    requires IsRun(pools, steps) && Init(pools[0]) && i < |pools|
    ensures pools[i].accepted == Submitted(steps, i)
    ensures pools[i].stop <==> Stopped(steps, i)
  {
    hide After, Enabled;
    if i > 0 {
      AcceptedIsSubmitted(pools, steps, i - 1);
      StepAccepts(pools[i - 1], steps[i - 1]);
      assert Stopped(steps, i) <==> Stopped(steps, i - 1) || steps[i - 1].Stop?;
    }
  }

  /** Calls and wake-ups come at any time: a task is accepted unless a call stopped the pool before, a stopped pool
      refuses it, and a sleeping worker may wake up without a notification. */
  lemma CallsAnyTime(pools: seq<Pool>, steps: seq<Step>, i: nat, task: Task, w: nat)
    requires IsRun(pools, steps) && Init(pools[0]) && i < |pools|
    ensures Enabled(pools[i], Enqueue(task)) <==> !Stopped(steps, i)
    ensures Enabled(pools[i], RejectEnqueue) <==> Stopped(steps, i)
    ensures Enabled(pools[i], Step.Stop) <==> !Stopped(steps, i)
    ensures Enabled(pools[i], WakeSpuriously(w)) <==> w < |pools[i].workers| && pools[i].workers[w] == Waiting
  {
    hide IsRun, Init;
    AcceptedIsSubmitted(pools, steps, i);
  }

  // ---------------------------------------------------------------- every accepted task is run

  /** The steps that the pool and its callers owe, as opposed to new calls and spurious wake-ups. */
  predicate Owed(step: Step) {
    step.NotifyOne? || step.NotifyNobody? || step.NotifyAll? || step.Check? || step.Finish?
  }

  ghost predicate Quiescent(p: Pool) {
    forall step: Step | Owed(step) :: !Enabled(p, step)
  }

  /** When nothing more is owed, every submitted task was run exactly once; the workers all wait, or have all left
      when a call stopped the pool. */
  lemma QuiescentIsDone(pools: seq<Pool>, steps: seq<Step>, i: nat)
    requires IsRun(pools, steps) && Init(pools[0]) && i < |pools| && Quiescent(pools[i])
    ensures pools[i].tasks == [] && pools[i].taken == Submitted(steps, i)
    ensures pools[i].finished == multiset(Submitted(steps, i))
    ensures forall w | 0 <= w < |pools[i].workers| ::
              pools[i].workers[w] == if Stopped(steps, i) then Exited else Waiting
  {
    RunKeepsInv(pools, steps, i);
    AcceptedIsSubmitted(pools, steps, i);
    var p := pools[i];
    QuiescentFacts(p);
    assert !SomeActive(p.workers);
    if p.tasks != [] {
      SomebodyLooks(p);
    }
    NothingInProgress(p);
  }

  lemma NothingInProgress(p: Pool)
    requires Fifo(p) && p.tasks == [] && forall w | 0 <= w < |p.workers| :: !p.workers[w].Running?
    ensures p.taken == p.accepted && p.finished == multiset(p.accepted)
  {
    assert p.taken + [] == p.taken;
    forall t ensures p.finished[t] == multiset(p.taken)[t] {
      NobodyInProgress(p.workers, t);
    }
  }

  lemma QuiescentFacts(p: Pool)
    requires Quiescent(p) && Inv(p)
    ensures p.notifies == 0 && !p.notifyAll
    ensures forall w | 0 <= w < |p.workers| :: p.workers[w].Waiting? || p.workers[w].Exited?
  {
    hide Fifo, NoLostWakeup;
    forall w: nat | w < |p.workers| ensures !Active(p.workers[w]) {
      assert Owed(Check(w)) && Owed(Finish(w));
    }
    assert Owed(NotifyAll) && Owed(NotifyNobody) && forall w: nat :: Owed(NotifyOne(w));
    forall w | 0 <= w < |p.workers| && p.workers[w].Waiting? ensures p.notifies == 0 {
      assert IsWaiting(p, w) && !Enabled(p, NotifyOne(w));
    }
  }

  /** Once all workers have left, the pool was stopped and nothing is left in the queue or unfinished. */
  lemma AllExitedIsDone(pools: seq<Pool>, steps: seq<Step>, i: nat)
    requires IsRun(pools, steps) && Init(pools[0]) && i < |pools|
    requires forall w | 0 <= w < |pools[i].workers| :: pools[i].workers[w].Exited?
    ensures Stopped(steps, i) && pools[i].tasks == [] && pools[i].finished == multiset(Submitted(steps, i))
  {
    RunKeepsInv(pools, steps, i);
    AcceptedIsSubmitted(pools, steps, i);
    assert pools[i].workers[0].Exited?;
    NothingInProgress(pools[i]);
  }

  function Weight(w: Worker): nat {
    match w
    case Awake => 1
    case Running(_) => 2
    case _ => 0
  }

  function Weights(workers: seq<Worker>): nat {
    if workers == [] then 0 else Weights(workers[..|workers| - 1]) + Weight(workers[|workers| - 1])
  }

  /** How many owed steps can still come. */
  function Debt(p: Pool): nat {
    2 * |p.tasks| + Weights(p.workers) + 2 * p.notifies + (if p.notifyAll then |p.workers| + 1 else 0)
  }

  lemma {:induction false} WeightsUpdate(workers: seq<Worker>, w: nat, x: Worker)
    requires w < |workers|
    ensures Weights(workers[w := x]) + Weight(workers[w]) == Weights(workers) + Weight(x)
  {
    var n := |workers| - 1;
    if w == n {
      assert workers[w := x][..n] == workers[..n];
    } else {
      WeightsUpdate(workers[..n], w, x);
      assert workers[w := x][..n] == workers[..n][w := x];
    }
  }

  lemma {:induction false} WeightsWoken(workers: seq<Worker>)
    ensures Weights(Woken(workers)) <= Weights(workers) + |workers|
  {
    if workers != [] {
      WeightsWoken(workers[..|workers| - 1]);
      assert Woken(workers)[..|workers| - 1] == Woken(workers[..|workers| - 1]);
    }
  }

  lemma OwedStepPays(p: Pool, step: Step)
    requires Enabled(p, step) && Owed(step)
    ensures Debt(After(p, step)) < Debt(p)
  {
    match step
    case NotifyOne(w) => WeightsUpdate(p.workers, w, Awake);
    case NotifyAll => WeightsWoken(p.workers);
    case Check(w) => WeightsUpdate(p.workers, w, After(p, step).workers[w]);
    case Finish(w) => WeightsUpdate(p.workers, w, Awake);
    case _ =>
  }

  /** Without new calls and spurious wake-ups the pool comes to rest: no schedule goes on longer than the debt. */
  lemma {:induction false} OwedRunEnds(pools: seq<Pool>, steps: seq<Step>)
    requires IsRun(pools, steps) && forall i | 0 <= i < |steps| :: Owed(steps[i])
    ensures |steps| + Debt(pools[|steps|]) <= Debt(pools[0])
  {
    if steps != [] {
      var n := |steps| - 1;
      OwedRunEnds(pools[..n + 1], steps[..n]);
      OwedStepPays(pools[n], steps[n]);
    }
  }

  /** Without workers the queue is never looked at: one task and nothing owed is a state at rest. */
  lemma NoWorkersNoProgress(task: Task)
    ensures var p := Pool([], [], false, 0, false, [], [], multiset{});
            && Enabled(p, Enqueue(task)) && Enabled(After(p, Enqueue(task)), NotifyNobody)
            && var q := After(After(p, Enqueue(task)), NotifyNobody); Quiescent(q) && q.tasks == [task]
  {
  }
}
