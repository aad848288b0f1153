/**
 * Whole runs of the code as it is written: the three critical sections of a blocking receive are steps of
 * their own, by whichever task and in whatever interleaving, and `block_current` does not stop its caller.
 */
module SplitRuns {
  import opened Prelude
  import opened Capabilities
  import opened Tasks
  import opened Scheduling
  import opened Ipc
  import K = KernelRuns
  import S = SchedulerRuns

  /** A blocking receive is `TryReceive`, then `Register` and `Block`, then all over again, with anything in between. */
  datatype Op =
    | Spawn
    | Dispatch
    | Yield
    | Terminate
    | CreateEndpoint(id: u64)
    | Send(sender: TaskId, snapshot: CapSpace, capId: u64, data: seq<bv8>)
    | TryReceive(snapshot: CapSpace, capId: u64)
    | Register(target: u64, receiver: TaskId)
    | Block

  function Stepped(k: Kernel, nextId: u64, op: Op): Kernel {
    match op
    case Spawn => k.(sched := k.sched.Added(nextId, Ready))
    case Dispatch => k.(sched := k.sched.Scheduled())
    case Yield => k.(sched := k.sched.Yielded())
    case Terminate => k.(sched := k.sched.TerminatedCurrent())
    case CreateEndpoint(id) => k.(endpoints := map[id := FRESH] + k.endpoints)
    case Send(sender, cs, capId, data) => k.Sent(sender, cs, capId, data)
    case TryReceive(cs, capId) => k.(endpoints := TriedReceive(k.endpoints, cs, capId))
    case Register(target, receiver) =>
      if target in k.endpoints then k.(endpoints := Registered(k.endpoints, target, receiver)) else k
    case Block => k.(sched := k.sched.BlockedCurrent())
  }

  function Step(sys: K.System, op: Op): K.System {
    K.System(Stepped(sys.kernel, sys.nextId, op), if op.Spawn? then Bumped(sys.nextId) else sys.nextId)
  }

  function Run(sys: K.System, ops: seq<Op>): K.System
    decreases |ops|
  {
    if ops == [] then sys else Run(Step(sys, ops[0]), ops[1..])
  }

  function Spawns(ops: seq<Op>): nat {
    if ops == [] then 0 else (if ops[0].Spawn? then 1 else 0) + Spawns(ops[1..])
  }

  ghost predicate Listed(k: Kernel, t: TaskId) {
    exists e :: K.WaitsAt(k, t, e)
  }

  /** No wake-up is lost: no endpoint holds messages and waiters at once, and every Blocked task is listed. */
  ghost predicate NoneLost(k: Kernel) {
    && (forall e :: e in k.endpoints && k.endpoints[e].messages != [] ==> k.endpoints[e].waiters == [])
    && (forall t: TaskId :: k.sched.Is(t, Blocked) ==> Listed(k, t))
  }

  /** The step registers at an endpoint that is still empty, and blocks a task that is still listed. */
  ghost predicate InTime(k: Kernel, op: Op) {
    match op
    case Register(target, _) => target in k.endpoints ==> k.endpoints[target].messages == []
    case Block => k.sched.current.Some? ==> Listed(k, k.sched.current.value)
    case _ => true
  }

  lemma SameListed(k: Kernel, k': Kernel)
    requires NoneLost(k) && k'.endpoints == k.endpoints
    requires forall t: TaskId :: k'.sched.Is(t, Blocked) ==> k.sched.Is(t, Blocked)
    ensures NoneLost(k')
  {
    forall t: TaskId | k'.sched.Is(t, Blocked)
      ensures Listed(k', t)
    {
      var e :| K.WaitsAt(k, t, e);
      assert K.WaitsAt(k', t, e);
    }
  }

  lemma SchedulerStep(k: Kernel, s: Sched)
    requires S.Consistent(k.sched) && NoneLost(k)
    requires s == k.sched.Scheduled() || s == k.sched.TerminatedCurrent()
    ensures NoneLost(k.(sched := s))
  {
    if s == k.sched.Scheduled() {
      S.ScheduledConsistent(k.sched);
    } else if k.sched.current.Some? {
      var id := k.sched.current.value;
      var mid := k.sched.With(id, Terminated).(ready := Without(k.sched.ready, id), current := None);
      WithoutNoDup(k.sched.ready, id);
      S.ScheduledConsistent(mid);
    }
    SameListed(k, k.(sched := s));
  }

  lemma BlockExactly(k: Kernel)
    requires S.Consistent(k.sched) && NoneLost(k)
    ensures NoneLost(k.(sched := k.sched.BlockedCurrent())) <==> InTime(k, Block)
  {
    var k' := k.(sched := k.sched.BlockedCurrent());
    if k.sched.current.Some? {
      K.BlockedCurrentEffect(k.sched);
      forall t
        ensures Listed(k', t) <==> Listed(k, t)
      {
        assert forall e :: K.WaitsAt(k', t, e) <==> K.WaitsAt(k, t, e);
      }
    }
  }

  lemma RegisterExactly(k: Kernel, target: u64, r: TaskId)
    requires NoneLost(k) && target in k.endpoints
    ensures NoneLost(k.(endpoints := Registered(k.endpoints, target, r))) <==> k.endpoints[target].messages == []
  {
    var k' := k.(endpoints := Registered(k.endpoints, target, r));
    assert K.WaitsAt(k', r, target);
    forall t: TaskId | k'.sched.Is(t, Blocked)
      ensures Listed(k', t)
    {
      var e :| K.WaitsAt(k, t, e);
      assert K.WaitsAt(k', t, e);
    }
  }

  /** Waking any list of tasks, whatever their states, leaves exactly the others blocked. */
  lemma {:induction false} StillBlocked(s: Sched, ws: seq<TaskId>, t: TaskId)
    ensures UnblockedAll(s, ws).Is(t, Blocked) <==> s.Is(t, Blocked) && t !in ws
    decreases |ws|
  {
    if ws != [] {
      StillBlocked(s.Unblocked(ws[0]), ws[1..], t);
    }
  }

  lemma SendKeeps(k: Kernel, e: u64, m: Message)
    requires NoneLost(k) && e in k.endpoints
    ensures NoneLost(Kernel(UnblockedAll(k.sched, k.endpoints[e].waiters), Queued(k.endpoints, e, m)))
  {
    var k' := Kernel(UnblockedAll(k.sched, k.endpoints[e].waiters), Queued(k.endpoints, e, m));
    forall t: TaskId | k'.sched.Is(t, Blocked)
      ensures Listed(k', t)
    {
      StillBlocked(k.sched, k.endpoints[e].waiters, t);
      var e' :| K.WaitsAt(k, t, e');
      assert K.WaitsAt(k', t, e');
    }
  }

  lemma EndpointStep(k: Kernel, eps: Endpoints)
    requires NoneLost(k)
    requires (exists id :: eps == map[id := FRESH] + k.endpoints)
      || (exists cs, capId :: eps == TriedReceive(k.endpoints, cs, capId))
    ensures NoneLost(k.(endpoints := eps))
  {
    var k' := k.(endpoints := eps);
    forall t: TaskId | k'.sched.Is(t, Blocked)
      ensures Listed(k', t)
    {
      var e :| K.WaitsAt(k, t, e);
      assert K.WaitsAt(k', t, e);
    }
  }

  /** A step loses a wake-up if and only if it registers too late or blocks too late. */
  lemma StepExactly(sys: K.System, op: Op)
    requires S.Inv(sys.Machine()) && NoneLost(sys.kernel) && (op.Spawn? ==> sys.nextId + 1 < TWO_64)
    ensures NoneLost(Step(sys, op).kernel) <==> InTime(sys.kernel, op)
  {
    var k := sys.kernel;
    match op
    case Spawn => SameListed(k, Step(sys, op).kernel);
    case Dispatch => SchedulerStep(k, k.sched.Scheduled());
    case Yield => if k.sched.current.Some? { SchedulerStep(k, k.sched.Scheduled()); }
    case Terminate => SchedulerStep(k, k.sched.TerminatedCurrent());
    case CreateEndpoint(id) => EndpointStep(k, map[id := FRESH] + k.endpoints);
    case Send(sender, cs, capId, data) =>
      var verdict := SendVerdict(k.endpoints, cs, capId, data);
      if verdict.Ok? {
        SendKeeps(k, verdict.value, Message(sender, data, None));
      }
    case TryReceive(cs, capId) => EndpointStep(k, TriedReceive(k.endpoints, cs, capId));
    case Register(target, receiver) => if target in k.endpoints { RegisterExactly(k, target, receiver); }
    case Block => BlockExactly(k);
  }

  lemma StepInv(sys: K.System, op: Op)
    requires S.Inv(sys.Machine()) && (op.Spawn? ==> sys.nextId + 1 < TWO_64)
    ensures S.Inv(Step(sys, op).Machine())
  {
    match op
    case Spawn => S.StepInv(sys.Machine(), S.Spawn);
    case Dispatch => S.StepInv(sys.Machine(), S.Schedule);
    case Yield => S.StepInv(sys.Machine(), S.Yield);
    case Terminate => S.StepInv(sys.Machine(), S.Terminate);
    case Block => S.StepInv(sys.Machine(), S.Block);
    case Send(sender, cs, capId, data) =>
      var verdict := SendVerdict(sys.kernel.endpoints, cs, capId, data);
      if verdict.Ok? {
        K.UnblockedAllInv(sys.Machine(), sys.kernel.endpoints[verdict.value].waiters);
      }
    case _ =>
  }

  ghost predicate NoneLostThroughout(sys: K.System, ops: seq<Op>)
    decreases |ops|
  {
    NoneLost(sys.kernel) && (ops != [] ==> NoneLostThroughout(Step(sys, ops[0]), ops[1..]))
  }

  ghost predicate InTimeThroughout(sys: K.System, ops: seq<Op>)
    decreases |ops|
  {
    ops != [] ==> InTime(sys.kernel, ops[0]) && InTimeThroughout(Step(sys, ops[0]), ops[1..])
  }

  /**
   * Lost wake-ups of the code as written, over every run and interleaving: none is lost at any point if
   * and only if every registration finds its endpoint still empty and every block hits a task that is
   * still listed as a waiter.
   */
  lemma {:induction false} NoneLostExactly(sys: K.System, ops: seq<Op>)
    requires S.Inv(sys.Machine()) && NoneLost(sys.kernel) && sys.nextId + Spawns(ops) < TWO_64
    ensures NoneLostThroughout(sys, ops) <==> InTimeThroughout(sys, ops)
    decreases |ops|
  {
    if ops != [] {
      StepExactly(sys, ops[0]);
      StepInv(sys, ops[0]);
      if InTime(sys.kernel, ops[0]) {
        NoneLostExactly(Step(sys, ops[0]), ops[1..]);
      }
    }
  }

  /** From boot, the same for every run of the code as written. */
  lemma ReachableNoneLostExactly(ops: seq<Op>)
    requires 1 + Spawns(ops) < TWO_64
    ensures NoneLost(K.BOOT.kernel)
    ensures NoneLostThroughout(K.BOOT, ops) <==> InTimeThroughout(K.BOOT, ops)
  {
    S.BootConsistent();
    NoneLostExactly(K.BOOT, ops);
  }

  /** The receive of `KernelRuns` is a registration followed by a block, and both are in time. */
  lemma AtomicReceiveIsInTime(sys: K.System, cs: CapSpace, capId: u64)
    requires K.Executing(sys.kernel) && ReceiveReply(sys.Endpoints(), cs, capId) == Ok(None)
    ensures var ops := [Register(cs.caps[capId].resourceId, sys.kernel.sched.current.value), Block];
      K.Step(sys, K.Receive(cs, capId)) == Run(sys, ops) && InTimeThroughout(sys, ops)
  {
    var e, r := cs.caps[capId].resourceId, sys.kernel.sched.current.value;
    var ops := [Register(e, r), Block];
    var mid := Step(sys, ops[0]);
    assert K.WaitsAt(mid.kernel, r, e);
    assert ops[1..] == [Block] && [Block][1..] == [];
    assert Run(mid, [Block]) == Run(Step(mid, Block), []);
    assert InTimeThroughout(mid, [Block]);
  }

  ghost predicate SleepsUnlisted(k: Kernel, t: TaskId) {
    (k.sched.Is(t, Blocked) || k.sched.Is(t, Terminated)) && !Listed(k, t)
  }

  lemma StepSleeps(sys: K.System, op: Op, t: TaskId)
    requires SleepsUnlisted(sys.kernel, t) && !(op.Register? && op.receiver == t)
    ensures SleepsUnlisted(Step(sys, op).kernel, t)
  {
    var k, k' := sys.kernel, Step(sys, op).kernel;
    forall e
      ensures !K.WaitsAt(k', t, e)
    {
      assert !K.WaitsAt(k, t, e);
    }
    if op.Send? {
      var verdict := SendVerdict(k.endpoints, op.snapshot, op.capId, op.data);
      if verdict.Ok? {
        assert !K.WaitsAt(k, t, verdict.value);
        StillAsleep(k.sched, k.endpoints[verdict.value].waiters, t);
      }
    }
  }

  lemma {:induction false} StillAsleep(s: Sched, ws: seq<TaskId>, t: TaskId)
    requires (s.Is(t, Blocked) && t !in ws) || s.Is(t, Terminated)
    ensures UnblockedAll(s, ws).Is(t, Blocked) || UnblockedAll(s, ws).Is(t, Terminated)
    decreases |ws|
  {
    if ws != [] {
      StillAsleep(s.Unblocked(ws[0]), ws[1..], t);
    }
  }

  /** What a lost wake-up costs: a task blocked while unlisted never runs again unless it is registered anew. */
  lemma {:induction false} LostTaskSleepsForever(sys: K.System, ops: seq<Op>, t: TaskId)
    requires SleepsUnlisted(sys.kernel, t) && forall op :: op in ops ==> !(op.Register? && op.receiver == t)
    ensures SleepsUnlisted(Run(sys, ops).kernel, t)
    decreases |ops|
  {
    if ops != [] {
      assert ops[0] in ops;
      StepSleeps(sys, ops[0], t);
      LostTaskSleepsForever(Step(sys, ops[0]), ops[1..], t);
    }
  }
}
