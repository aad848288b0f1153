/** What the scheduler keeps over every sequence of operations, and how long a ready task can wait. */
module SchedulerRuns {
  import opened Prelude
  import opened Tasks
  import opened Scheduling

  /** The scheduler together with the counter that `Task::new` takes ids from. */
  datatype Machine = Machine(sched: Sched, nextId: u64)

  /** `Spawn` is `Task::new` followed by `add_task`. */
  datatype Op = Spawn | Schedule | Yield | Block | Unblock(id: TaskId) | Terminate

  function Step(m: Machine, op: Op): Machine {
    match op
    case Spawn => Machine(m.sched.Added(m.nextId, Ready), Bumped(m.nextId))
    case Schedule => m.(sched := m.sched.Scheduled())
    case Yield => m.(sched := m.sched.Yielded())
    case Block => m.(sched := m.sched.BlockedCurrent())
    case Unblock(id) => m.(sched := m.sched.Unblocked(id))
    case Terminate => m.(sched := m.sched.TerminatedCurrent())
  }

  function Run(m: Machine, ops: seq<Op>): Machine
    decreases |ops|
  {
    if ops == [] then m else Run(Step(m, ops[0]), ops[1..])
  }

  function Spawns(ops: seq<Op>): nat {
    if ops == [] then 0 else (if ops[0].Spawn? then 1 else 0) + Spawns(ops[1..])
  }

  /** The operation contains a scheduling step. */
  predicate Dispatches(m: Machine, op: Op) {
    op.Schedule? || ((op.Yield? || op.Block? || op.Terminate?) && m.sched.current.Some?)
  }

  function DispatchCount(m: Machine, ops: seq<Op>): nat
    decreases |ops|
  {
    if ops == [] then 0
    else (if Dispatches(m, ops[0]) then 1 else 0) + DispatchCount(Step(m, ops[0]), ops[1..])
  }

  predicate Runnable(s: Sched, id: TaskId) {
    s.Is(id, Ready) || s.Is(id, Running)
  }

  /**
   * The queue has no duplicates and holds exactly the Ready and Running tasks; only the current task
   * can be Running; the current task exists and has not terminated.
   */
  ghost predicate Consistent(s: Sched) {
    && NoDup(s.ready)
    && (forall id :: id in s.ready <==> Runnable(s, id))
    && (forall id: TaskId :: s.Is(id, Running) ==> s.current == Some(id))
    && (s.current.Some? ==> s.current.value in s.tasks && s.tasks[s.current.value] != Terminated)
  }

  ghost predicate Inv(m: Machine) {
    Consistent(m.sched) && forall id :: id in m.sched.tasks ==> id < m.nextId
  }

  lemma ScheduledConsistent(s: Sched)
    requires NoDup(s.ready) && (forall id :: id in s.ready <==> Runnable(s, id))
    requires forall id: TaskId :: s.Is(id, Running) ==> s.current == Some(id)
    requires s.current.Some? && s.ready == [] ==> s.current.value in s.tasks && s.tasks[s.current.value] != Terminated
    ensures Consistent(s.Scheduled())
    ensures s.Picked() == if s.ready == [] then None else Some(s.ready[0])
  {
    if s.ready != [] {
      var next := s.ready[0];
      assert Runnable(s, next);
      assert s.Preempted().Is(next, Ready);
      var after := s.Scheduled();
      assert after.ready == s.ready[1..] + [next];
      forall id
        ensures id in after.ready <==> Runnable(after, id)
      {
        assert id in after.ready <==> id in s.ready;
      }
    }
  }

  lemma BlockedConsistent(s: Sched)
    requires Consistent(s)
    ensures Consistent(s.BlockedCurrent())
  {
    if s.current.Some? {
      var mid := s.With(s.current.value, Blocked).(ready := Without(s.ready, s.current.value));
      WithoutNoDup(s.ready, s.current.value);
      ScheduledConsistent(mid);
    }
  }

  lemma TerminatedConsistent(s: Sched)
    requires Consistent(s)
    ensures Consistent(s.TerminatedCurrent())
  {
    if s.current.Some? {
      var mid := s.With(s.current.value, Terminated).(ready := Without(s.ready, s.current.value), current := None);
      WithoutNoDup(s.ready, s.current.value);
      ScheduledConsistent(mid);
    }
  }

  lemma UnblockedConsistent(s: Sched, id: TaskId)
    requires Consistent(s)
    ensures Consistent(s.Unblocked(id))
  {
    if s.Is(id, Blocked) {
      assert !Runnable(s, id);
    }
  }

  /** Adding a task keeps the scheduler consistent exactly when its id is new. */
  lemma AddedConsistentExactly(s: Sched, id: TaskId)
    requires Consistent(s)
    ensures Consistent(s.Added(id, Ready)) <==> id !in s.tasks
  {
    var after := s.Added(id, Ready);
    assert after.ready[|s.ready|] == id;
    if id in s.tasks {
      if Runnable(s, id) {
        assert !NoDup(after.ready) by {
          var i :| 0 <= i < |s.ready| && s.ready[i] == id;
          assert after.ready[i] == after.ready[|s.ready|];
        }
      } else {
        assert !Runnable(after, id) && id in after.ready;
      }
    } else {
      assert !Runnable(s, id);
      forall other
        ensures other in after.ready <==> Runnable(after, other)
      {
        assert other in s.ready <==> Runnable(s, other);
      }
    }
  }

  lemma StepInv(m: Machine, op: Op)
    requires Inv(m) && (op.Spawn? ==> m.nextId + 1 < TWO_64)
    ensures Inv(Step(m, op))
  {
    match op
    case Spawn => AddedConsistentExactly(m.sched, m.nextId);
    case Schedule => ScheduledConsistent(m.sched);
    case Yield => ScheduledConsistent(m.sched);
    case Block => BlockedConsistent(m.sched);
    case Unblock(id) => UnblockedConsistent(m.sched, id);
    case Terminate => TerminatedConsistent(m.sched);
  }

  /** The invariant holds after every run that does not exhaust the 64-bit id counter. */
  lemma {:induction false} RunInv(m: Machine, ops: seq<Op>)
    requires Inv(m) && m.nextId + Spawns(ops) < TWO_64
    ensures Inv(Run(m, ops))
    decreases |ops|
  {
    if ops != [] {
      StepInv(m, ops[0]);
      RunInv(Step(m, ops[0]), ops[1..]);
    }
  }

  /** The scheduler as `init` leaves it, and the counter before the first task. */
  const BOOT := Machine(INITIAL, 1)

  lemma BootConsistent()
    ensures Inv(BOOT)
  {
    assert forall id: TaskId, state :: !INITIAL.Is(id, state);
  }

  /** From boot, every sequence of operations leads to consistent states only. */
  lemma ReachableInv(ops: seq<Op>)
    requires 1 + Spawns(ops) < TWO_64
    ensures Inv(Run(BOOT, ops))
  {
    BootConsistent();
    RunInv(BOOT, ops);
  }

  lemma {:induction false} RunSnoc(m: Machine, ops: seq<Op>, op: Op)
    ensures Run(m, ops + [op]) == Step(Run(m, ops), op)
    decreases |ops|
  {
    if ops == [] {
      assert Run(Step(m, op), []) == Step(m, op);
    } else {
      assert (ops + [op])[1..] == ops[1..] + [op];
      RunSnoc(Step(m, ops[0]), ops[1..], op);
    }
  }

  /** In every reachable state `schedule` finds a task unless nothing can run, and no popped id is lost. */
  lemma ScheduleNeverLosesATask(m: Machine, ops: seq<Op>)
    requires Inv(m) && m.nextId + Spawns(ops) < TWO_64
    ensures var s := Run(m, ops).sched;
      && (s.Picked().None? <==> forall id :: !Runnable(s, id))
      && (s.Picked().Some? ==> s.Scheduled().Is(s.Picked().value, Running) && s.Scheduled().current == s.Picked())
      && multiset(s.Scheduled().ready) == multiset(s.ready)
  {
    RunInv(m, ops);
    var s := Run(m, ops).sched;
    ScheduledConsistent(s);
    if s.ready != [] {
      assert Runnable(s, s.ready[0]);
      assert s.ready == [s.ready[0]] + s.ready[1..];
      assert s.Scheduled().ready == s.ready[1..] + [s.ready[0]];
    }
  }

  // ----- What each operation does -----

  /** The queue and the current task after the head of `queue` was dispatched, `idle` being current without one. */
  ghost predicate Dispatched(after: Sched, queue: seq<TaskId>, idle: Option<TaskId>) {
    if queue == [] then after.ready == [] && after.current == idle
    else after.ready == queue[1..] + [queue[0]] && after.current == Some(queue[0])
  }

  /** Every task has the state it had, but `t`, which has `state`, and the one dispatched, which is Running. */
  ghost predicate OnlyChanged(before: Sched, after: Sched, t: TaskId, state: TaskState, queue: seq<TaskId>) {
    && after.tasks.Keys == before.tasks.Keys
    && forall id :: id in before.tasks ==>
         after.tasks[id] == if id == t then state
                            else if queue != [] && id == queue[0] then Running else before.tasks[id]
  }

  /** A new task is Ready and last in the queue; nothing else changes. */
  lemma SpawnOutcome(m: Machine)
    requires Inv(m)
    ensures var after := Step(m, Spawn);
      && after.sched.ready == m.sched.ready + [m.nextId] && after.sched.current == m.sched.current
      && after.sched.tasks == m.sched.tasks[m.nextId := Ready]
      && (m.nextId + 1 < TWO_64 ==> after.nextId == m.nextId + 1)
  {
  }

  /** The head of the queue runs and goes to its end; the task that ran before, if it is another, is Ready. */
  lemma ScheduleOutcome(m: Machine, t: TaskId)
    requires Inv(m) && m.sched.current == Some(t) && m.sched.Is(t, Running)
    ensures var s, after := m.sched, Step(m, Schedule).sched;
      && s.ready != [] && Dispatched(after, s.ready, s.current) && Step(m, Yield).sched == after
      && OnlyChanged(s, after, t, if s.ready[0] == t then Running else Ready, s.ready)
  {
    assert Runnable(m.sched, t);
    assert Runnable(m.sched, m.sched.ready[0]);
    ScheduledConsistent(m.sched);
  }

  /** With no task running, the head of the queue starts and no other task changes; a yield needs a current task. */
  lemma ScheduleOutcomeIdle(m: Machine)
    requires Inv(m) && forall t: TaskId :: !m.sched.Is(t, Running)
    ensures var s, after := m.sched, Step(m, Schedule).sched;
      && Dispatched(after, s.ready, s.current)
      && (s.ready == [] ==> after == s)
      && (s.ready != [] ==> OnlyChanged(s, after, s.ready[0], Running, s.ready))
      && Step(m, Yield).sched == if s.current.None? then s else after
  {
    if m.sched.ready != [] {
      var head := m.sched.ready[0];
      assert Runnable(m.sched, head) && !m.sched.Is(head, Running);
      assert m.sched.Preempted() == m.sched;
    }
  }

  /**
   * Blocking blocks: the current task sleeps and is off the queue, the first of the others runs, and the
   * rest keep their order and states. Without another one the sleeping task stays current.
   */
  lemma BlockOutcome(m: Machine, a: seq<TaskId>, t: TaskId, b: seq<TaskId>)
    requires Inv(m) && m.sched.current == Some(t) && m.sched.ready == a + [t] + b
    ensures var after := Step(m, Block).sched;
      Dispatched(after, a + b, Some(t)) && OnlyChanged(m.sched, after, t, Blocked, a + b)
  {
    CurrentTakenOff(m.sched, a, t, b);
    ScheduledConsistent(m.sched.With(t, Blocked).(ready := a + b));
  }

  /** Terminating terminates, in the same way, except that a terminated task never stays current. */
  lemma TerminateOutcome(m: Machine, a: seq<TaskId>, t: TaskId, b: seq<TaskId>)
    requires Inv(m) && m.sched.current == Some(t) && m.sched.ready == a + [t] + b
    ensures var after := Step(m, Terminate).sched;
      Dispatched(after, a + b, None) && OnlyChanged(m.sched, after, t, Terminated, a + b)
  {
    CurrentTakenOff(m.sched, a, t, b);
    ScheduledConsistent(m.sched.With(t, Terminated).(ready := a + b, current := None));
  }

  /** The same for a current task that is already asleep, so not in the queue. */
  lemma SleeperOutcome(m: Machine, t: TaskId)
    requires Inv(m) && m.sched.current == Some(t) && t !in m.sched.ready
    ensures var s, blocked, ended := m.sched, Step(m, Block).sched, Step(m, Terminate).sched;
      && Dispatched(blocked, s.ready, Some(t)) && OnlyChanged(s, blocked, t, Blocked, s.ready)
      && Dispatched(ended, s.ready, None) && OnlyChanged(s, ended, t, Terminated, s.ready)
  {
    var s := m.sched;
    WithoutAbsent(s.ready, t);
    if s.ready != [] {
      assert Runnable(s, s.ready[0]);
    }
  }

  lemma CurrentTakenOff(s: Sched, a: seq<TaskId>, t: TaskId, b: seq<TaskId>)
    requires Consistent(s) && s.ready == a + [t] + b
    ensures t !in a && t !in b && Without(s.ready, t) == a + b && NoDup(a + b)
    ensures forall id :: id in a + b <==> Runnable(s, id) && id != t
    ensures a + b != [] ==> Runnable(s, (a + b)[0])
  {
    assert s.ready[|a|] == t;
    assert forall i :: 0 <= i < |a| ==> s.ready[i] == a[i];
    assert forall i :: 0 <= i < |b| ==> s.ready[|a| + 1 + i] == b[i];
    WithoutBetween(a, t, b);
    WithoutNoDup(s.ready, t);
    assert forall id :: id in Without(s.ready, t) <==> id in s.ready && id != t;
    if a + b != [] {
      assert (a + b)[0] in a + b;
    }
  }

  /** Without a current task, blocking, yielding and terminating do nothing. */
  lemma NothingCurrent(m: Machine)
    requires m.sched.current.None?
    ensures Step(m, Block) == Step(m, Yield) == Step(m, Terminate) == m
  {
  }

  /** Waking a blocked task makes it Ready and last in the queue; any other id changes nothing. */
  lemma UnblockOutcome(m: Machine, t: TaskId)
    ensures var s, after := m.sched, Step(m, Unblock(t)).sched;
      if t in s.tasks && s.tasks[t] == Blocked
      then after.tasks == s.tasks[t := Ready] && after.ready == s.ready + [t] && after.current == s.current
      else after == s
  {
  }

  lemma StepKeepsTerminated(m: Machine, op: Op, id: TaskId)
    requires Inv(m) && m.sched.Is(id, Terminated)
    ensures Step(m, op).sched.Is(id, Terminated)
  {
    assert m.sched.current != Some(id);
  }

  /** A terminated task stays terminated, off the queue, and is never current or running again. */
  lemma {:induction false} TerminatedForever(m: Machine, ops: seq<Op>, id: TaskId)
    requires Inv(m) && m.nextId + Spawns(ops) < TWO_64
    requires m.sched.Is(id, Terminated)
    ensures var s := Run(m, ops).sched; s.Is(id, Terminated) && id !in s.ready && s.current != Some(id)
    decreases |ops|
  {
    assert !Runnable(m.sched, id);
    if ops != [] {
      StepInv(m, ops[0]);
      StepKeepsTerminated(m, ops[0], id);
      TerminatedForever(Step(m, ops[0]), ops[1..], id);
    }
  }

  /** Terminating is for good: the current task ends, and no later run queues, selects or runs it again. */
  lemma TerminateIsFinal(m: Machine, ops: seq<Op>, t: TaskId)
    requires Inv(m) && m.nextId + Spawns(ops) < TWO_64 && m.sched.current == Some(t)
    ensures var s := Run(Step(m, Terminate), ops).sched; s.Is(t, Terminated) && t !in s.ready && s.current != Some(t)
  {
    StepInv(m, Terminate);
    if t in m.sched.ready {
      var p :| 0 <= p < |m.sched.ready| && m.sched.ready[p] == t;
      assert m.sched.ready == m.sched.ready[..p] + [t] + m.sched.ready[p + 1..];
      TerminateOutcome(m, m.sched.ready[..p], t, m.sched.ready[p + 1..]);
    } else {
      SleeperOutcome(m, t);
    }
    TerminatedForever(Step(m, Terminate), ops, t);
  }

  function Rotated<T>(q: seq<T>, k: nat): seq<T> {
    if q == [] then [] else q[k % |q|..] + q[..k % |q|]
  }

  lemma RotatedOnce<T>(q: seq<T>, k: nat)
    requires q != []
    ensures Rotated(q, k + 1) == Rotated(q, k)[1..] + [Rotated(q, k)[0]]
    ensures Rotated(q, k)[0] == q[k % |q|]
  {
    DivModStep(k, |q|);
  }

  function Schedules(k: nat): seq<Op> {
    if k == 0 then [] else Schedules(k - 1) + [Schedule]
  }

  lemma ScheduleStep(m: Machine)
    requires Inv(m) && m.sched.ready != []
    ensures var s := Step(m, Schedule).sched;
      && s.ready == m.sched.ready[1..] + [m.sched.ready[0]]
      && s.current == Some(m.sched.ready[0]) && s.Is(m.sched.ready[0], Running)
  {
    ScheduledConsistent(m.sched);
  }

  ghost predicate RotatedBy(m: Machine, q: seq<TaskId>, k: nat) {
    && m.sched.ready == Rotated(q, k)
    && (k > 0 && q != [] ==> m.sched.current == Some(q[(k - 1) % |q|]) && m.sched.Is(q[(k - 1) % |q|], Running))
  }

  lemma RotationStep(m: Machine, q: seq<TaskId>, k: nat)
    requires Inv(m) && q != [] && RotatedBy(m, q, k)
    ensures Inv(Step(m, Schedule)) && RotatedBy(Step(m, Schedule), q, k + 1)
  {
    StepInv(m, Schedule);
    RotatedOnce(q, k);
    ScheduleStep(m);
  }

  /** `k` scheduling steps rotate a non-empty queue by `k`, and the task at `(k - 1) mod n` is then running. */
  lemma {:induction false} ExactRotation(m: Machine, k: nat)
    requires Inv(m) && m.sched.ready != []
    ensures Inv(Run(m, Schedules(k))) && RotatedBy(Run(m, Schedules(k)), m.sched.ready, k)
  {
    if k > 0 {
      ExactRotation(m, k - 1);
      RunSnoc(m, Schedules(k - 1), Schedule);
      RotationStep(Run(m, Schedules(k - 1)), m.sched.ready, k - 1);
    }
  }

  /**
   * One step of waiting: the task at queue index `p` either gets the processor in this very step, or
   * is still queued and has moved up by at least one place if the step dispatched.
   */
  lemma StepProgress(m: Machine, op: Op, t: TaskId, p: nat) returns (q: nat)
    requires Inv(m) && (op.Spawn? ==> m.nextId + 1 < TWO_64)
    requires p < |m.sched.ready| && m.sched.ready[p] == t && m.sched.Is(t, Ready)
    requires op.Block? || op.Terminate? ==> m.sched.current != Some(t)
    ensures var s := Step(m, op).sched;
      if s.Is(t, Running) then Dispatches(m, op)
      else
        && s.Is(t, Ready) && q < |s.ready| && s.ready[q] == t
        && q + (if Dispatches(m, op) then 1 else 0) <= p
        && (m.sched.current != Some(t) ==> s.current != Some(t))
  {
    var s := m.sched;
    StepInv(m, op);
    q := p;
    match op
    case Schedule =>
      q := ScheduledProgress(s, t, p);
    case Yield =>
      if s.current.Some? {
        q := ScheduledProgress(s, t, p);
      }
    case Block =>
      if s.current.Some? {
        q := RemovalProgress(s, Blocked, s.current, t, p);
      }
    case Terminate =>
      if s.current.Some? {
        q := RemovalProgress(s, Terminated, None, t, p);
      }
    case _ =>
  }

  /** Taking another, current task off the queue and then scheduling moves `t` up by at least one place. */
  lemma RemovalProgress(s: Sched, gone: TaskState, current: Option<TaskId>, t: TaskId, p: nat) returns (q: nat)
    requires Consistent(s) && s.current.Some? && s.current != Some(t)
    requires (gone == Blocked && current == s.current) || (gone == Terminated && current == None)
    requires p < |s.ready| && s.ready[p] == t && s.Is(t, Ready)
    ensures var removed := s.With(s.current.value, gone).(ready := Without(s.ready, s.current.value));
      var after := removed.(current := current).Scheduled();
      if after.Is(t, Running) then true
      else after.Is(t, Ready) && q < p && q < |after.ready| && after.ready[q] == t && after.current != Some(t)
  {
    var mid := s.With(s.current.value, gone).(ready := Without(s.ready, s.current.value), current := current);
    q := WithoutKeeps(s.ready, s.current.value, p);
    WithoutNoDup(s.ready, s.current.value);
    q := ScheduledProgress(mid, t, q);
  }

  lemma ScheduledProgress(s: Sched, t: TaskId, p: nat) returns (q: nat)
    requires NoDup(s.ready) && (forall id :: id in s.ready <==> Runnable(s, id))
    requires forall id: TaskId :: s.Is(id, Running) ==> s.current == Some(id)
    requires p < |s.ready| && s.ready[p] == t && s.Is(t, Ready)
    ensures var after := s.Scheduled();
      if p == 0 then after.Is(t, Running)
      else after.Is(t, Ready) && q == p - 1 && q < |after.ready| && after.ready[q] == t && after.current != Some(t)
  {
    assert Runnable(s, s.ready[0]);
    assert s.Preempted().Is(s.ready[0], Ready);
    q := if p == 0 then 0 else p - 1;
  }

  /**
   * Bounded waiting: a ready task at queue index `p` that is not the current task is running after at
   * most `p + 1` scheduling steps, whatever other tasks are added, woken, blocked and terminated meanwhile.
   */
  lemma {:induction false} BoundedWaiting(m: Machine, ops: seq<Op>, t: TaskId, p: nat) returns (n: nat)
    requires Inv(m) && m.nextId + Spawns(ops) < TWO_64
    requires p < |m.sched.ready| && m.sched.ready[p] == t && m.sched.Is(t, Ready) && m.sched.current != Some(t)
    requires DispatchCount(m, ops) > p
    ensures n <= |ops| && Run(m, ops[..n]).sched.Is(t, Running)
    ensures DispatchCount(m, ops[..n]) <= p + 1
    decreases |ops|
  {
    var q := StepProgress(m, ops[0], t, p);
    var next := Step(m, ops[0]);
    if next.sched.Is(t, Running) {
      n := 1;
      assert ops[..1] == [ops[0]];
    } else {
      StepInv(m, ops[0]);
      n := BoundedWaiting(next, ops[1..], t, q);
      assert ops[..n + 1][0] == ops[0] && ops[..n + 1][1..] == ops[1..][..n];
      n := n + 1;
    }
  }
}
