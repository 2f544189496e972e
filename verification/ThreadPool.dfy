/** The thread pool as atomic steps: every critical section under the queue mutex is one step, and so
    is every notification, which the source sends after it has released the mutex. */
module ThreadPool {

  type Task = nat

  /** A worker about to take the mutex and test its wait condition, blocked in the condition variable,
      executing a task outside the mutex, or returned. */
  datatype Worker = Ready | Asleep | Running(task: Task) | Exited

  /** How far the destructor has come: not called, stop flag set, everyone notified, returned. */
  datatype Phase = Open | Stopping | Joining | Returned

  /** `accepted`, `taken` and `finished` record what has happened; `notifies` counts enqueuers that have
      queued their task but not yet called notify_one. */
  datatype Pool = Pool(queue: seq<Task>, workers: seq<Worker>, notifies: nat, phase: Phase,
                       accepted: seq<Task>, taken: seq<Task>, finished: multiset<Task>)

  datatype Event =
    | Enqueue(task: Task)
    | NotifyOne(w: nat)
    | Check(w: nat)
    | Finish(w: nat)
    | Spurious(w: nat)
    | Stop
    | NotifyAll
    | Return

  function Start(n: nat): Pool {
    Pool([], seq(n, _ => Ready), 0, Open, [], [], multiset{})
  }

  predicate NobodyAsleep(s: Pool) { forall i :: 0 <= i < |s.workers| ==> !s.workers[i].Asleep? }

  predicate AllExited(s: Pool) { forall i :: 0 <= i < |s.workers| ==> s.workers[i].Exited? }

  predicate Enabled(s: Pool, e: Event) {
    match e
    case Enqueue(_) => true
    case NotifyOne(w) => s.notifies > 0 && ((w < |s.workers| && s.workers[w].Asleep?) || NobodyAsleep(s))
    case Check(w) => w < |s.workers| && s.workers[w].Ready?
    case Finish(w) => w < |s.workers| && s.workers[w].Running?
    case Spurious(w) => w < |s.workers| && s.workers[w].Asleep?
    case Stop => s.phase.Open?
    case NotifyAll => s.phase.Stopping?
    case Return => s.phase.Joining? && AllExited(s)
  }

  function Wake(w: Worker): Worker { if w.Asleep? then Ready else w }

  function Apply(s: Pool, e: Event): Pool
    requires Enabled(s, e)
  {
    match e
    case Enqueue(t) =>
      if s.phase.Open? then s.(queue := s.queue + [t], accepted := s.accepted + [t], notifies := s.notifies + 1)
      else s // "enqueue on stopped ThreadPool" is thrown
    case NotifyOne(w) =>
      if w < |s.workers| && s.workers[w].Asleep?
      then s.(notifies := s.notifies - 1, workers := s.workers[w := Ready])
      else s.(notifies := s.notifies - 1)
    case Check(w) =>
      if s.phase.Open? && s.queue == [] then s.(workers := s.workers[w := Asleep])
      else if s.queue == [] then s.(workers := s.workers[w := Exited])
      else s.(queue := s.queue[1..], taken := s.taken + [s.queue[0]], workers := s.workers[w := Running(s.queue[0])])
    case Finish(w) =>
      s.(finished := s.finished + multiset{s.workers[w].task}, workers := s.workers[w := Ready])
    case Spurious(w) => s.(workers := s.workers[w := Ready])
    case Stop => s.(phase := Stopping)
    case NotifyAll =>
      s.(phase := Joining, workers := seq(|s.workers|, i requires 0 <= i < |s.workers| => Wake(s.workers[i])))
    case Return => s.(phase := Returned)
  }

  // ---------- Runs ----------

  predicate IsRun(s: Pool, es: seq<Event>)
    decreases |es|
  {
    es == [] || (Enabled(s, es[0]) && IsRun(Apply(s, es[0]), es[1..]))
  }

  function Final(s: Pool, es: seq<Event>): Pool
    requires IsRun(s, es)
    decreases |es|
  {
    if es == [] then s else Final(Apply(s, es[0]), es[1..])
  }

  /** The tasks enqueued before the destructor sets the stop flag, in order: what the callers asked for. */
  function Enqueued(es: seq<Event>): seq<Task> {
    if es == [] || es[0].Stop? then []
    else (if es[0].Enqueue? then [es[0].task] else []) + Enqueued(es[1..])
  }

  lemma AcceptedStep(s: Pool, e: Event)
    requires Enabled(s, e)
    ensures Apply(s, e).accepted == s.accepted + (if s.phase.Open? && e.Enqueue? then [e.task] else [])
    ensures Apply(s, e).phase.Open? <==> s.phase.Open? && !e.Stop?
  {
  }

  /** Exactly these tasks are accepted, each as often and in the order it was enqueued. */
  lemma {:induction false} AcceptedAre(s: Pool, es: seq<Event>)
    requires IsRun(s, es)
    ensures Final(s, es).accepted == s.accepted + (if s.phase.Open? then Enqueued(es) else [])
    decreases |es|
  {
    hide Apply, Enabled;
    if es != [] {
      var e, rest := es[0], es[1..];
      AcceptedStep(s, e);
      AcceptedAre(Apply(s, e), rest);
      Joined(s.accepted, if e.Enqueue? then [e.task] else [], Enqueued(rest));
    }
  }

  lemma Joined(a: seq<Task>, b: seq<Task>, c: seq<Task>)
    ensures (a + b) + c == a + (b + c) && a + [] == a && [] + c == c
  {
  }

  // ---------- The invariant ----------

  function RunningTasks(ws: seq<Worker>): multiset<Task> {
    if ws == [] then multiset{}
    else RunningTasks(ws[1..]) + TaskOf(ws[0])
  }

  predicate Busy(w: Worker) { w.Ready? || w.Running? }

  predicate SomebodyBusy(s: Pool) { exists i :: 0 <= i < |s.workers| && Busy(s.workers[i]) }

  /** Tasks leave the queue in the order they entered it. */
  predicate Fifo(s: Pool) { s.accepted == s.taken + s.queue }

  /** Every task taken is finished or running. */
  predicate Conserved(s: Pool) { multiset(s.taken) == s.finished + RunningTasks(s.workers) }

  /** A worker returns only after the stop flag, with an empty queue; the destructor only after all. */
  predicate ExitsLate(s: Pool) {
    && (forall i :: 0 <= i < |s.workers| && s.workers[i].Exited? ==> !s.phase.Open? && s.queue == [])
    && (s.phase.Returned? ==> AllExited(s))
  }

  /** Nobody sleeps once notify_all has been called, and no wake-up is lost before: work in the queue has
      somebody about to look, or a notification on its way. */
  predicate Awake(s: Pool) {
    && (s.phase.Joining? || s.phase.Returned? ==> NobodyAsleep(s))
    && (s.queue != [] && |s.workers| > 0 ==> s.notifies > 0 || SomebodyBusy(s))
  }

  predicate Inv(s: Pool) { Fifo(s) && Conserved(s) && ExitsLate(s) && Awake(s) }

  function TaskOf(w: Worker): multiset<Task> {
    if w.Running? then multiset{w.task} else multiset{}
  }

  lemma Swap(a: multiset<Task>, b: multiset<Task>, c: multiset<Task>)
    ensures (a + b) + c == (a + c) + b
  {
  }

  lemma {:induction false} RunningUpdate(ws: seq<Worker>, i: nat, w: Worker)
    requires i < |ws|
    ensures RunningTasks(ws[i := w]) + TaskOf(ws[i]) == RunningTasks(ws) + TaskOf(w)
  {
    hide TaskOf;
    var ws' := ws[i := w];
    if i == 0 {
      assert ws'[1..] == ws[1..];
    } else {
      RunningUpdate(ws[1..], i - 1, w);
      assert ws'[1..] == ws[1..][i - 1 := w];
      Swap(RunningTasks(ws'[1..]), TaskOf(ws[0]), TaskOf(ws[i]));
      Swap(RunningTasks(ws[1..]), TaskOf(ws[0]), TaskOf(w));
    }
  }

  lemma {:induction false} RunningWoken(ws: seq<Worker>, ws': seq<Worker>)
    requires |ws| == |ws'| && forall i :: 0 <= i < |ws| ==> ws'[i] == Wake(ws[i])
    ensures RunningTasks(ws') == RunningTasks(ws)
  {
    if ws != [] {
      RunningWoken(ws[1..], ws'[1..]);
    }
  }

  lemma {:induction false} NoneRunning(ws: seq<Worker>)
    requires forall i :: 0 <= i < |ws| ==> !ws[i].Running?
    ensures RunningTasks(ws) == multiset{}
  {
    if ws != [] {
      NoneRunning(ws[1..]);
    }
  }

  lemma StartInv(n: nat)
    ensures Inv(Start(n))
  {
    NoneRunning(Start(n).workers);
  }

  lemma FifoStep(s: Pool, e: Event)
    requires Fifo(s) && Enabled(s, e)
    ensures Fifo(Apply(s, e))
  {
    match e
    case Enqueue(t) => assert (s.taken + s.queue) + [t] == s.taken + (s.queue + [t]);
    case Check(w) =>
      if s.queue != [] {
        assert s.queue == [s.queue[0]] + s.queue[1..];
        assert s.taken + s.queue == (s.taken + [s.queue[0]]) + s.queue[1..];
      }
    case _ =>
  }

  lemma MoveIn(taken: multiset<Task>, done: multiset<Task>, r: multiset<Task>, t: multiset<Task>)
    requires taken == done + r
    ensures taken + t == done + (r + t)
  {
  }

  lemma MoveOut(taken: multiset<Task>, done: multiset<Task>, r: multiset<Task>, t: multiset<Task>)
    requires taken == done + (r + t)
    ensures taken == (done + t) + r
  {
  }

  /** Replacing one worker changes the running tasks by that worker's. */
  lemma ConservedUpdate(s: Pool, w: nat, v: Worker)
    requires w < |s.workers| && (s.workers[w].Running? ==> v == Ready)
    ensures v.Running? ==> RunningTasks(s.workers[w := v]) == RunningTasks(s.workers) + multiset{v.task}
    ensures s.workers[w].Running? ==>
      RunningTasks(s.workers) == RunningTasks(s.workers[w := v]) + multiset{s.workers[w].task}
    ensures !v.Running? && !s.workers[w].Running? ==> RunningTasks(s.workers[w := v]) == RunningTasks(s.workers)
  {
    hide RunningTasks;
    RunningUpdate(s.workers, w, v);
    assert RunningTasks(s.workers) + multiset{} == RunningTasks(s.workers);
    assert RunningTasks(s.workers[w := v]) + multiset{} == RunningTasks(s.workers[w := v]);
  }

  lemma ConservedStep(s: Pool, e: Event)
    requires Conserved(s) && Enabled(s, e)
    ensures Conserved(Apply(s, e))
  {
    hide RunningTasks, NobodyAsleep, AllExited, TaskOf;
    var s' := Apply(s, e);
    match e
    case NotifyOne(w) =>
      if w < |s.workers| && s.workers[w].Asleep? { ConservedUpdate(s, w, Ready); }
    case Check(w) =>
      ConservedUpdate(s, w, s'.workers[w]);
      if s.queue != [] {
        MoveIn(multiset(s.taken), s.finished, RunningTasks(s.workers), multiset{s.queue[0]});
      }
    case Finish(w) =>
      ConservedUpdate(s, w, Ready);
      MoveOut(multiset(s.taken), s.finished, RunningTasks(s'.workers), multiset{s.workers[w].task});
    case Spurious(w) => ConservedUpdate(s, w, Ready);
    case NotifyAll => RunningWoken(s.workers, s'.workers);
    case _ =>
  }

  lemma ExitsLateStep(s: Pool, e: Event)
    requires ExitsLate(s) && Enabled(s, e)
    ensures ExitsLate(Apply(s, e))
  {
  }

  lemma AwakeStep(s: Pool, e: Event)
    requires ExitsLate(s) && Awake(s) && Enabled(s, e)
    ensures Awake(Apply(s, e))
  {
    var s' := Apply(s, e);
    match e
    case NotifyOne(w) =>
      if w < |s.workers| && s.workers[w].Asleep? {
        assert Busy(s'.workers[w]);
      } else if s.queue != [] && |s.workers| > 0 {
        assert Busy(s'.workers[0]);
      }
    case Check(w) =>
      if s.queue != [] { assert Busy(s'.workers[w]); }
    case Finish(w) => assert Busy(s'.workers[w]);
    case Spurious(w) => assert Busy(s'.workers[w]);
    case NotifyAll =>
      if i :| 0 <= i < |s.workers| && Busy(s.workers[i]) {
        assert Busy(s'.workers[i]);
      }
    case _ =>
  }

  /** Every step keeps the invariant. */
  lemma StepInv(s: Pool, e: Event)
    requires Inv(s) && Enabled(s, e)
    ensures Inv(Apply(s, e))
  {
    hide Fifo, Conserved, ExitsLate, Awake, Apply, Enabled;
    FifoStep(s, e);
    ConservedStep(s, e);
    ExitsLateStep(s, e);
    AwakeStep(s, e);
  }

  lemma {:induction false} RunInv(s: Pool, es: seq<Event>)
    requires Inv(s) && IsRun(s, es)
    ensures Inv(Final(s, es)) && |Final(s, es).workers| == |s.workers|
    decreases |es|
  {
    hide Inv;
    if es != [] {
      StepInv(s, es[0]);
      RunInv(Apply(s, es[0]), es[1..]);
    }
  }

  // ---------- Main results ----------

  /** In every run: no task enqueued before the stop is lost, copied or overtaken. */
  lemma Conservation(n: nat, es: seq<Event>)
    requires IsRun(Start(n), es)
    ensures var s := Final(Start(n), es);
      && s.taken <= Enqueued(es)
      && multiset(Enqueued(es)) == s.finished + RunningTasks(s.workers) + multiset(s.queue)
  {
    StartInv(n);
    RunInv(Start(n), es);
    AcceptedAre(Start(n), es);
    assert [] + Enqueued(es) == Enqueued(es);
  }

  /** When the destructor has returned, every task enqueued before the stop has run exactly once, precisely
      if the pool had a worker or nothing was enqueued. */
  lemma DestructorDrains(n: nat, es: seq<Event>)
    requires IsRun(Start(n), es) && Final(Start(n), es).phase.Returned?
    ensures Final(Start(n), es).finished == multiset(Enqueued(es)) <==> n > 0 || Enqueued(es) == []
  {
    StartInv(n);
    RunInv(Start(n), es);
    AcceptedAre(Start(n), es);
    assert [] + Enqueued(es) == Enqueued(es);
    var s := Final(Start(n), es);
    NoneRunning(s.workers);
    assert multiset(s.accepted) == multiset(s.taken) + multiset(s.queue);
    if n > 0 {
      assert s.workers[0].Exited?;
      assert s.taken + [] == s.taken;
    } else {
      NothingTaken(Start(n), es);
      assert [] + s.queue == s.queue;
      if s.accepted != [] { assert s.accepted[0] in multiset(s.accepted); }
    }
  }

  /** Without workers nothing is ever taken. */
  lemma {:induction false} NothingTaken(s: Pool, es: seq<Event>)
    requires IsRun(s, es) && s.workers == [] && s.taken == [] && s.finished == multiset{}
    ensures var s' := Final(s, es); s'.taken == [] && s'.finished == multiset{}
    decreases |es|
  {
    if es != [] {
      NothingTaken(Apply(s, es[0]), es[1..]);
    }
  }

  /** What callers and the system may do at any time: enqueue, also on a stopped pool; start the destructor;
      wake a sleeping worker, by a notification under way or for no reason. */
  lemma NeverRefused(s: Pool, t: Task, w: nat)
    ensures Enabled(s, Enqueue(t)) && (s.phase.Open? ==> Enabled(s, Stop))
    ensures w < |s.workers| && s.workers[w].Asleep? ==>
              Enabled(s, Spurious(w)) && (s.notifies > 0 ==> Enabled(s, NotifyOne(w)))
    ensures !s.phase.Open? ==> Apply(s, Enqueue(t)) == s
  {
  }

  /** The steps the pool and its destructor make by themselves. */
  predicate Internal(e: Event) { !e.Enqueue? && !e.Spurious? }

  predicate Idle(s: Pool) {
    s.phase.Open? && s.queue == [] && forall i :: 0 <= i < |s.workers| ==> s.workers[i].Asleep?
  }

  /** No deadlock and no lost wake-up: unless the destructor has returned or the pool is idle, some
      internal step other than the start of the destructor can be made. */
  lemma Progress(s: Pool) returns (e: Event)
    requires Inv(s) && !s.phase.Returned? && !Idle(s) && (|s.workers| > 0 || !s.phase.Open?)
    ensures Enabled(s, e) && Internal(e) && !e.Stop?
  {
    if s.phase.Stopping? {
      return NotifyAll;
    }
    if i :| 0 <= i < |s.workers| && Busy(s.workers[i]) {
      return if s.workers[i].Ready? then Check(i) else Finish(i);
    }
    if s.phase.Joining? {
      assert forall i :: 0 <= i < |s.workers| ==> !Busy(s.workers[i]) && !s.workers[i].Asleep?;
      return Return;
    }
    assert forall i :: 0 <= i < |s.workers| ==> s.workers[i].Asleep?;
    assert s.queue != [] && !SomebodyBusy(s);
    return NotifyOne(0);
  }

  // ---------- Termination ----------

  function Weight(w: Worker): nat {
    match w
    case Exited => 0
    case Asleep => 1
    case Ready => 2
    case Running(_) => 3
  }

  function Weights(ws: seq<Worker>): nat {
    if ws == [] then 0 else Weight(ws[0]) + Weights(ws[1..])
  }

  function PhaseRank(s: Pool): nat {
    match s.phase
    case Open => |s.workers| + 3
    case Stopping => |s.workers| + 2
    case Joining => 1
    case Returned => 0
  }

  function Measure(s: Pool): nat {
    2 * |s.queue| + Weights(s.workers) + 2 * s.notifies + PhaseRank(s)
  }

  lemma {:induction false} WeightsUpdate(ws: seq<Worker>, i: nat, w: Worker)
    requires i < |ws|
    ensures Weights(ws[i := w]) + Weight(ws[i]) == Weights(ws) + Weight(w)
  {
    if i == 0 {
      assert ws[i := w][1..] == ws[1..];
    } else {
      WeightsUpdate(ws[1..], i - 1, w);
      assert ws[i := w][1..] == ws[1..][i - 1 := w];
    }
  }

  lemma {:induction false} WeightsWoken(ws: seq<Worker>, ws': seq<Worker>)
    requires |ws| == |ws'| && forall i :: 0 <= i < |ws| ==> ws'[i] == Wake(ws[i])
    ensures Weights(ws') <= Weights(ws) + |ws|
  {
    if ws != [] {
      WeightsWoken(ws[1..], ws'[1..]);
    }
  }

  /** Every internal step makes the measure smaller; the others raise it by at most four. */
  lemma StepMeasure(s: Pool, e: Event)
    requires Enabled(s, e)
    ensures Internal(e) ==> Measure(Apply(s, e)) < Measure(s)
    ensures !Internal(e) ==> Measure(Apply(s, e)) <= Measure(s) + 4
  {
    match e {
      case NotifyOne(w) =>
        if w < |s.workers| && s.workers[w].Asleep? { WeightsUpdate(s.workers, w, Ready); }
      case Check(w) => WeightsUpdate(s.workers, w, Apply(s, e).workers[w]);
      case Finish(w) => WeightsUpdate(s.workers, w, Ready);
      case Spurious(w) => WeightsUpdate(s.workers, w, Ready);
      case NotifyAll => WeightsWoken(s.workers, Apply(s, e).workers);
      case _ =>
    }
  }

  function External(es: seq<Event>): nat {
    if es == [] then 0 else (if Internal(es[0]) then 0 else 1) + External(es[1..])
  }

  /** A run can only be as long as its enqueues and spurious wake-ups allow: with Progress, a pool left
      alone becomes idle, and a destructor returns. */
  lemma {:induction false} RunsEnd(s: Pool, es: seq<Event>)
    requires IsRun(s, es)
    ensures |es| + Measure(Final(s, es)) <= Measure(s) + 5 * External(es)
    decreases |es|
  {
    if es != [] {
      StepMeasure(s, es[0]);
      RunsEnd(Apply(s, es[0]), es[1..]);
    }
  }
}
