/**
 * The scheduler and the IPC endpoints together, over whole runs.
 *
 * A blocking receive is one step: check, register, block. After it the receiver does not run until it
 * is scheduled again. `SplitReceive.dfy` shows what happens to the same code when either half of that
 * assumption is dropped.
 */
module KernelRuns {
  import opened Prelude
  import opened Capabilities
  import opened Tasks
  import opened Scheduling
  import S = SchedulerRuns
  import opened Ipc

  datatype System = System(kernel: Kernel, nextId: u64) {
    function Machine(): S.Machine {
      S.Machine(kernel.sched, nextId)
    }

    function Endpoints(): Endpoints {
      kernel.endpoints
    }
  }

  /** `Terminate` and `Receive` are executed by the running task; every other step can happen at any time. */
  datatype Op =
    | Spawn
    | Dispatch
    | Yield
    | Terminate
    | CreateEndpoint(id: u64)
    | Send(sender: TaskId, snapshot: CapSpace, capId: u64, data: seq<bv8>)
    | TryReceive(snapshot: CapSpace, capId: u64)
    | Receive(snapshot: CapSpace, capId: u64)

  predicate Executing(k: Kernel) {
    k.sched.current.Some? && k.sched.Is(k.sched.current.value, Running)
  }

  function Step(sys: System, op: Op): System {
    var k := sys.kernel;
    match op
    case Spawn => System(k.(sched := k.sched.Added(sys.nextId, Ready)), Bumped(sys.nextId))
    case Dispatch => sys.(kernel := k.(sched := k.sched.Scheduled()))
    case Yield => sys.(kernel := k.(sched := k.sched.Yielded()))
    case Terminate => if Executing(k) then sys.(kernel := k.(sched := k.sched.TerminatedCurrent())) else sys
    case CreateEndpoint(id) => sys.(kernel := k.(endpoints := map[id := FRESH] + k.endpoints))
    case Send(sender, cs, capId, data) => sys.(kernel := k.Sent(sender, cs, capId, data))
    case TryReceive(cs, capId) => sys.(kernel := k.(endpoints := Ipc.TriedReceive(k.endpoints, cs, capId)))
    case Receive(cs, capId) => if Executing(k) then sys.(kernel := k.Passed(k.sched.current.value, cs, capId)) else sys
  }

  function Run(sys: System, ops: seq<Op>): System
    decreases |ops|
  {
    if ops == [] then sys else Run(Step(sys, ops[0]), ops[1..])
  }

  function Spawns(ops: seq<Op>): nat {
    if ops == [] then 0 else (if ops[0].Spawn? then 1 else 0) + Spawns(ops[1..])
  }

  /** The scheduler operation inside a step, for every step but a send. */
  function SchedulerPart(k: Kernel, op: Op): Option<S.Op> {
    match op
    case Spawn => Some(S.Spawn)
    case Dispatch => Some(S.Schedule)
    case Yield => Some(S.Yield)
    case Terminate => if Executing(k) then Some(S.Terminate) else None
    case Receive(cs, capId) =>
      if Executing(k) && ReceiveReply(k.endpoints, cs, capId) == Ok(None) then Some(S.Block) else None
    case _ => None
  }

  lemma SchedulerRefines(sys: System, op: Op)
    requires !op.Send?
    ensures Step(sys, op).Machine() == match SchedulerPart(sys.kernel, op)
                                       case Some(part) => S.Step(sys.Machine(), part)
                                       case None => sys.Machine()
  {
  }

  // ----- No lost wake-up -----

  predicate WaitsAt(k: Kernel, t: TaskId, e: u64) {
    e in k.endpoints && t in k.endpoints[e].waiters
  }

  /**
   * An endpoint holding messages has no waiters; the waiters are exactly the Blocked tasks, and each
   * waits once, at one endpoint.
   */
  ghost predicate NoLostWakeup(k: Kernel) {
    && (forall e :: e in k.endpoints && k.endpoints[e].messages != [] ==> k.endpoints[e].waiters == [])
    && (forall e :: e in k.endpoints ==> NoDup(k.endpoints[e].waiters))
    && (forall t, e :: WaitsAt(k, t, e) ==> k.sched.Is(t, Blocked))
    && (forall t: TaskId :: k.sched.Is(t, Blocked) ==> exists e :: WaitsAt(k, t, e))
    && (forall t, e, e' :: WaitsAt(k, t, e) && WaitsAt(k, t, e') ==> e == e')
  }

  ghost predicate Inv(sys: System) {
    S.Inv(sys.Machine()) && NoLostWakeup(sys.kernel)
  }

  ghost predicate SameBlocked(s: Sched, s': Sched) {
    forall t: TaskId :: s.Is(t, Blocked) <==> s'.Is(t, Blocked)
  }

  lemma SameBlockedKeeps(k: Kernel, s: Sched)
    requires NoLostWakeup(k) && SameBlocked(k.sched, s)
    ensures NoLostWakeup(k.(sched := s))
  {
    var k' := k.(sched := s);
    forall t: TaskId | k'.sched.Is(t, Blocked)
      ensures exists e :: WaitsAt(k', t, e)
    {
      var e :| WaitsAt(k, t, e);
      assert WaitsAt(k', t, e);
    }
    forall t, e | WaitsAt(k', t, e)
      ensures k'.sched.Is(t, Blocked)
    {
      assert WaitsAt(k, t, e);
    }
    forall t, e, e' | WaitsAt(k', t, e) && WaitsAt(k', t, e')
      ensures e == e'
    {
      assert WaitsAt(k, t, e) && WaitsAt(k, t, e');
    }
  }

  /** Waking a list of distinct blocked tasks makes them all ready and queues them in order. */
  lemma {:induction false} UnblockedAllEffect(s: Sched, ws: seq<TaskId>)
    requires NoDup(ws) && forall w :: w in ws ==> s.Is(w, Blocked)
    ensures var s' := UnblockedAll(s, ws);
      && s'.ready == s.ready + ws && s'.current == s.current && s'.tasks.Keys == s.tasks.Keys
      && forall t :: t in s.tasks ==> s'.tasks[t] == if t in ws then Ready else s.tasks[t]
    decreases |ws|
  {
    if ws != [] {
      var w := ws[0];
      assert w in ws && w !in ws[1..];
      forall v | v in ws[1..]
        ensures s.Unblocked(w).Is(v, Blocked)
      {
        assert v in ws;
      }
      UnblockedAllEffect(s.Unblocked(w), ws[1..]);
      assert s.ready + [w] + ws[1..] == s.ready + ws by {
        assert ws == [w] + ws[1..];
      }
      assert forall t :: t in ws <==> t == w || t in ws[1..];
    }
  }

  lemma {:induction false} UnblockedAllInv(m: S.Machine, ws: seq<TaskId>)
    requires S.Inv(m)
    ensures S.Inv(m.(sched := UnblockedAll(m.sched, ws)))
    decreases |ws|
  {
    if ws != [] {
      S.StepInv(m, S.Unblock(ws[0]));
      UnblockedAllInv(S.Step(m, S.Unblock(ws[0])), ws[1..]);
    }
  }

  lemma SentKeeps(k: Kernel, e: u64, m: Message)
    requires NoLostWakeup(k) && e in k.endpoints
    ensures NoLostWakeup(Kernel(UnblockedAll(k.sched, k.endpoints[e].waiters), Queued(k.endpoints, e, m)))
  {
    var ws := k.endpoints[e].waiters;
    forall w | w in ws
      ensures k.sched.Is(w, Blocked)
    {
      assert WaitsAt(k, w, e);
    }
    UnblockedAllEffect(k.sched, ws);
    var k' := Kernel(UnblockedAll(k.sched, ws), Queued(k.endpoints, e, m));
    forall t, e'
      ensures WaitsAt(k', t, e') <==> WaitsAt(k, t, e') && e' != e
    {
    }
    forall t, e' | WaitsAt(k', t, e')
      ensures k'.sched.Is(t, Blocked)
    {
      assert !WaitsAt(k, t, e);
    }
    forall t: TaskId | k'.sched.Is(t, Blocked)
      ensures exists e' :: WaitsAt(k', t, e')
    {
      assert t in k.sched.tasks && t !in ws;
      assert k.sched.Is(t, Blocked);
      var e' :| WaitsAt(k, t, e');
      assert WaitsAt(k', t, e');
    }
  }

  lemma DequeuedKeeps(k: Kernel, e: u64)
    requires NoLostWakeup(k) && e in k.endpoints
    ensures NoLostWakeup(k.(endpoints := Dequeued(k.endpoints, e)))
  {
    var k' := k.(endpoints := Dequeued(k.endpoints, e));
    assert forall t, e' :: WaitsAt(k', t, e') <==> WaitsAt(k, t, e');
  }

  lemma CreatedKeeps(k: Kernel, id: u64)
    requires NoLostWakeup(k)
    ensures NoLostWakeup(k.(endpoints := map[id := FRESH] + k.endpoints))
  {
    var k' := k.(endpoints := map[id := FRESH] + k.endpoints);
    assert forall t, e' :: WaitsAt(k', t, e') <==> WaitsAt(k, t, e');
  }

  lemma ScheduledSameBlocked(s: Sched)
    requires S.Consistent(s)
    ensures SameBlocked(s, s.Scheduled())
  {
    S.ScheduledConsistent(s);
  }

  lemma TerminatedSameBlocked(k: Kernel)
    requires S.Consistent(k.sched) && Executing(k)
    ensures SameBlocked(k.sched, k.sched.TerminatedCurrent())
  {
    var s := k.sched;
    var mid := s.With(s.current.value, Terminated).(ready := Without(s.ready, s.current.value), current := None);
    WithoutNoDup(s.ready, s.current.value);
    S.ScheduledConsistent(mid);
  }

  /** Blocking adds exactly the current task to the blocked ones. */
  lemma BlockedCurrentEffect(s: Sched)
    requires S.Consistent(s) && s.current.Some?
    ensures forall t: TaskId :: s.BlockedCurrent().Is(t, Blocked) <==> s.Is(t, Blocked) || t == s.current.value
  {
    var mid := s.With(s.current.value, Blocked).(ready := Without(s.ready, s.current.value));
    WithoutNoDup(s.ready, s.current.value);
    S.ScheduledConsistent(mid);
  }

  /** Whether a pass that finds no message leaves every wake-up intact: a test on the state before it. */
  predicate PassIsSafe(k: Kernel, e: u64, r: TaskId) {
    && (if k.sched.Is(r, Blocked) then WaitsAt(k, r, e) else k.sched.current == Some(r))
    && (k.sched.current.Some? && k.sched.current != Some(r) ==> k.sched.Is(k.sched.current.value, Blocked))
  }

  /**
   * A pass of the receive loop blocks whichever task is current, so it keeps the invariant exactly
   * when that is the receiver, or the pass changes nothing for either of them.
   */
  lemma WaitingKeepsExactly(k: Kernel, e: u64, r: TaskId)
    requires S.Consistent(k.sched) && NoLostWakeup(k)
    requires e in k.endpoints && k.endpoints[e].messages == []
    ensures NoLostWakeup(k.Waiting(e, r)) <==> PassIsSafe(k, e, r)
  {
    var k' := k.Waiting(e, r);
    if k.sched.current.Some? {
      BlockedCurrentEffect(k.sched);
    }
    assert forall t, e' :: WaitsAt(k', t, e') <==> WaitsAt(k, t, e') || (t == r && e' == e);
    assert WaitsAt(k', r, e);
    if PassIsSafe(k, e, r) {
      forall t: TaskId | k'.sched.Is(t, Blocked)
        ensures exists e' :: WaitsAt(k', t, e')
      {
        if t == r {
          assert WaitsAt(k', t, e);
        } else {
          assert k.sched.Is(t, Blocked);
          var e' :| WaitsAt(k, t, e');
          assert WaitsAt(k', t, e');
        }
      }
    } else if k.sched.Is(r, Blocked) && !WaitsAt(k, r, e) {
      var e' :| WaitsAt(k, r, e');
      assert WaitsAt(k', r, e');
    }
  }

  lemma StepInv(sys: System, op: Op)
    requires Inv(sys) && (op.Spawn? ==> sys.nextId + 1 < TWO_64)
    ensures Inv(Step(sys, op))
  {
    var k := sys.kernel;
    if !op.Send? {
      SchedulerRefines(sys, op);
      var part := SchedulerPart(k, op);
      if part.Some? {
        S.StepInv(sys.Machine(), part.value);
      }
    }
    match op
    case Spawn =>
      assert SameBlocked(k.sched, k.sched.Added(sys.nextId, Ready));
      SameBlockedKeeps(k, k.sched.Added(sys.nextId, Ready));
    case Dispatch =>
      ScheduledSameBlocked(k.sched);
      SameBlockedKeeps(k, k.sched.Scheduled());
    case Yield =>
      ScheduledSameBlocked(k.sched);
      SameBlockedKeeps(k, k.sched.Scheduled());
    case Terminate =>
      if Executing(k) {
        TerminatedSameBlocked(k);
        SameBlockedKeeps(k, k.sched.TerminatedCurrent());
      }
    case CreateEndpoint(id) =>
      CreatedKeeps(k, id);
    case Send(sender, cs, capId, data) =>
      var verdict := SendVerdict(k.endpoints, cs, capId, data);
      if verdict.Ok? {
        SentKeeps(k, verdict.value, Message(sender, data, None));
        UnblockedAllInv(sys.Machine(), k.endpoints[verdict.value].waiters);
      }
    case TryReceive(cs, capId) =>
      var verdict := ReceiveVerdict(k.endpoints, cs, capId);
      if verdict.Ok? {
        DequeuedKeeps(k, verdict.value);
      }
    case Receive(cs, capId) =>
      var verdict := ReceiveVerdict(k.endpoints, cs, capId);
      if Executing(k) && verdict.Ok? {
        DequeuedKeeps(k, verdict.value);
        if k.endpoints[verdict.value].messages == [] {
          WaitingKeepsExactly(k, verdict.value, k.sched.current.value);
        }
      }
  }

  /** No lost wake-up, in every reachable state of the scheduler and the endpoints; ids are never reused. */
  lemma {:induction false} RunInv(sys: System, ops: seq<Op>)
    requires Inv(sys) && sys.nextId + Spawns(ops) < TWO_64
    ensures Inv(Run(sys, ops)) && Run(sys, ops).nextId == sys.nextId + Spawns(ops)
    decreases |ops|
  {
    if ops != [] {
      StepInv(sys, ops[0]);
      RunInv(Step(sys, ops[0]), ops[1..]);
    }
  }

  /** The kernel as `init` leaves it: no task, no endpoint, and 1 the next task id. */
  const BOOT := System(Kernel(INITIAL, map[]), 1)

  /** From boot no wake-up is ever lost, whatever the operations. */
  lemma ReachableInv(ops: seq<Op>)
    requires 1 + Spawns(ops) < TWO_64
    ensures Inv(BOOT) && Inv(Run(BOOT, ops))
  {
    S.BootConsistent();
    assert forall t, e :: !WaitsAt(BOOT.kernel, t, e);
    RunInv(BOOT, ops);
  }

  /** An accepted send leaves every former waiter ready, queued in waiting order behind the tasks already there. */
  lemma SendWakesEveryWaiter(sys: System, op: Op, e: u64)
    requires Inv(sys) && op.Send? && SendVerdict(sys.Endpoints(), op.snapshot, op.capId, op.data) == Ok(e)
    ensures var ws, after := sys.Endpoints()[e].waiters, Step(sys, op).kernel;
      && after.sched.ready == sys.kernel.sched.ready + ws
      && after.endpoints[e].waiters == []
      && forall i :: 0 <= i < |ws| ==> sys.kernel.sched.Is(ws[i], Blocked) && after.sched.Is(ws[i], Ready)
  {
    var k := sys.kernel;
    forall w | w in k.endpoints[e].waiters
      ensures k.sched.Is(w, Blocked)
    {
      assert WaitsAt(k, w, e);
    }
    UnblockedAllEffect(k.sched, k.endpoints[e].waiters);
  }
}
