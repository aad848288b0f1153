/**
 * The blocking receive as it is written: three critical sections, and a `block_current` that updates
 * scheduler state without switching contexts. Each lemma says exactly when a part of it is harmless.
 */
module SplitReceive {
  import opened Prelude
  import opened Capabilities
  import opened Tasks
  import opened Scheduling
  import opened Ipc
  import opened KernelRuns

  function Registering(k: Kernel, e: u64, r: TaskId): Kernel
    requires e in k.endpoints
  {
    k.(endpoints := Registered(k.endpoints, e, r))
  }

  function Blocking(k: Kernel): Kernel {
    k.(sched := k.sched.BlockedCurrent())
  }

  /** `NoLostWakeup`, but the running task `r` may already be registered at one endpoint. */
  ghost predicate NoLostWakeupBut(k: Kernel, r: TaskId) {
    && (forall e :: e in k.endpoints && k.endpoints[e].messages != [] ==> k.endpoints[e].waiters == [])
    && (forall e :: e in k.endpoints ==> NoDup(k.endpoints[e].waiters))
    && (forall t, e :: WaitsAt(k, t, e) && t != r ==> k.sched.Is(t, Blocked))
    && (forall t: TaskId :: k.sched.Is(t, Blocked) ==> exists e :: WaitsAt(k, t, e))
    && (forall t, e, e' :: WaitsAt(k, t, e) && WaitsAt(k, t, e') ==> e == e')
  }

  ghost predicate RunningIs(k: Kernel, r: TaskId) {
    S.Consistent(k.sched) && k.sched.current == Some(r) && k.sched.Is(r, Running)
  }

  /** Second section: registering is harmless exactly when the endpoint is still empty at that moment. */
  lemma RegisteringKeepsExactly(k: Kernel, e: u64, r: TaskId)
    requires RunningIs(k, r) && NoLostWakeup(k) && e in k.endpoints
    ensures NoLostWakeupBut(Registering(k, e, r), r) <==> k.endpoints[e].messages == []
  {
    var k' := Registering(k, e, r);
    assert forall t, e' :: WaitsAt(k', t, e') <==> WaitsAt(k, t, e') || (t == r && e' == e);
    assert WaitsAt(k', r, e);
    forall t: TaskId | k'.sched.Is(t, Blocked)
      ensures exists e' :: WaitsAt(k', t, e')
    {
      var e' :| WaitsAt(k, t, e');
      assert WaitsAt(k', t, e');
    }
  }

  /** Third section: blocking is harmless exactly when the task is still registered somewhere. */
  lemma BlockingKeepsExactly(k: Kernel, r: TaskId)
    requires RunningIs(k, r) && NoLostWakeupBut(k, r)
    ensures NoLostWakeup(Blocking(k)) <==> exists e :: WaitsAt(k, r, e)
  {
    var k' := Blocking(k);
    BlockedCurrentEffect(k.sched);
    assert forall t, e :: WaitsAt(k', t, e) <==> WaitsAt(k, t, e);
    assert k'.sched.Is(r, Blocked);
    if e :| WaitsAt(k, r, e) {
      forall t: TaskId | k'.sched.Is(t, Blocked)
        ensures exists e' :: WaitsAt(k', t, e')
      {
        var e' :| WaitsAt(k, t, e');
        assert WaitsAt(k', t, e');
      }
    }
  }

  /** A blocked task that is registered nowhere sleeps through every run. */
  lemma {:induction false} UnregisteredSleepsForever(sys: System, ops: seq<Op>, t: TaskId)
    requires sys.kernel.sched.Is(t, Blocked) && forall e :: !WaitsAt(sys.kernel, t, e)
    ensures Run(sys, ops).kernel.sched.Is(t, Blocked) && forall e :: !WaitsAt(Run(sys, ops).kernel, t, e)
    decreases |ops|
  {
    if ops != [] {
      StepSleeps(sys, ops[0], t);
      UnregisteredSleepsForever(Step(sys, ops[0]), ops[1..], t);
    }
  }

  lemma StepSleeps(sys: System, op: Op, t: TaskId)
    requires sys.kernel.sched.Is(t, Blocked) && forall e :: !WaitsAt(sys.kernel, t, e)
    ensures Step(sys, op).kernel.sched.Is(t, Blocked) && forall e :: !WaitsAt(Step(sys, op).kernel, t, e)
  {
    if op.Send? {
      var verdict := SendVerdict(sys.Endpoints(), op.snapshot, op.capId, op.data);
      if verdict.Ok? {
        assert !WaitsAt(sys.kernel, t, verdict.value);
        OthersStayBlocked(sys.kernel.sched, sys.Endpoints()[verdict.value].waiters, t);
      }
    }
    forall e
      ensures !WaitsAt(Step(sys, op).kernel, t, e)
    {
      assert !WaitsAt(sys.kernel, t, e);
    }
  }

  lemma {:induction false} OthersStayBlocked(s: Sched, ws: seq<TaskId>, t: TaskId)
    requires s.Is(t, Blocked) && t !in ws
    ensures UnblockedAll(s, ws).Is(t, Blocked)
    decreases |ws|
  {
    if ws != [] {
      OthersStayBlocked(s.Unblocked(ws[0]), ws[1..], t);
    }
  }

  lemma OnlyElement(q: seq<TaskId>, r: TaskId)
    requires NoDup(q) && r in q
    ensures Without(q, r) == [] <==> q == [r]
  {
    if Without(q, r) == [] {
      forall i | 0 <= i < |q|
        ensures q[i] == r
      {
        assert q[i] in q;
      }
    }
  }

  /** After one pass the receiver sleeps and the next task in the queue, if any, is marked running. */
  lemma FirstPass(k: Kernel, e: u64, r: TaskId)
    requires RunningIs(k, r) && e in k.endpoints
    ensures var others, once := Without(k.sched.ready, r), k.Waiting(e, r);
      && once.sched.Is(r, Blocked)
      && once.sched.current == (if others == [] then Some(r) else Some(others[0]))
      && (others != [] ==> others[0] != r && once.sched.Is(others[0], Running))
  {
    var mid := k.sched.With(r, Blocked).(ready := Without(k.sched.ready, r));
    WithoutNoDup(k.sched.ready, r);
    S.ScheduledConsistent(mid);
    assert S.Runnable(k.sched, r);
    if mid.ready != [] {
      assert mid.ready[0] in k.sched.ready && S.Runnable(k.sched, mid.ready[0]);
    }
  }

  // ----- The loop goes round at once -----

  /** `n` passes in a row that find no message, since `block_current` returns and the loop goes round again. */
  function Passes(k: Kernel, e: u64, r: TaskId, n: nat): (k': Kernel)
    requires e in k.endpoints
    ensures e in k'.endpoints && k'.endpoints[e].messages == k.endpoints[e].messages
  {
    if n == 0 then k else Passes(k, e, r, n - 1).Waiting(e, r)
  }

  /** `n` passes of the loop in a row, whatever they find. */
  function LoopPasses(k: Kernel, r: TaskId, cs: CapSpace, capId: u64, n: nat): Kernel {
    if n == 0 then k else LoopPasses(k, r, cs, capId, n - 1).Passed(r, cs, capId)
  }

  /** At an empty endpoint no uninterrupted pass finds a message. */
  lemma {:induction false} LoopFindsNothing(k: Kernel, e: u64, r: TaskId, cs: CapSpace, capId: u64, n: nat)
    requires GrantsReceive(cs, capId, e) && e in k.endpoints && k.endpoints[e].messages == []
    ensures LoopPasses(k, r, cs, capId, n) == Passes(k, e, r, n)
  {
    if n > 0 {
      LoopFindsNothing(k, e, r, cs, capId, n - 1);
    }
  }

  /** Task `r` runs and `others` are queued behind it, ready. */
  ghost predicate RunsBefore(s: Sched, r: TaskId, others: seq<TaskId>) {
    && s.current == Some(r) && s.Is(r, Running) && r !in others && NoDup(others)
    && forall t :: t in others ==> s.Is(t, Ready)
  }

  /** The task states after `r` and the first `c` of `others` were blocked in turn. */
  function Asleep(s: Sched, r: TaskId, others: seq<TaskId>, c: nat): map<TaskId, TaskState>
    requires c <= |others|
  {
    if c == 0 then s.tasks[r := Blocked] else Asleep(s, r, others, c - 1)[others[c - 1] := Blocked]
  }

  lemma {:induction false} AsleepAt(s: Sched, r: TaskId, others: seq<TaskId>, c: nat, t: TaskId)
    requires c <= |others|
    ensures var after := Asleep(s, r, others, c);
      if t == r || t in others[..c] then t in after && after[t] == Blocked
      else (t in after <==> t in s.tasks) && (t in after ==> after[t] == s.tasks[t])
  {
    if c > 0 {
      AsleepAt(s, r, others, c - 1, t);
      assert others[..c] == others[..c - 1] + [others[c - 1]];
    }
  }

  /** `r` and the first `c` of `others` sleep, the next one is marked running, the rest are queued. */
  function Slept(s: Sched, r: TaskId, others: seq<TaskId>, c: nat): Sched
    requires c <= |others|
  {
    if c < |others| then
      Sched(Asleep(s, r, others, c)[others[c] := Running], Some(others[c]), others[c + 1..] + [others[c]])
    else
      Sched(Asleep(s, r, others, c), Some(if others == [] then r else others[c - 1]), [])
  }

  lemma WithoutLast(a: seq<TaskId>, x: TaskId)
    requires x !in a
    ensures Without(a + [x], x) == a
  {
    if a == [] {
      assert ([] + [x])[1..] == [];
    } else {
      assert (a + [x])[1..] == a[1..] + [x];
      WithoutLast(a[1..], x);
    }
  }

  /** With `c` asleep and no task running, the scheduler picks the next one. */
  lemma PickNext(s: Sched, r: TaskId, others: seq<TaskId>, c: nat, mid: Sched)
    requires RunsBefore(s, r, others) && c <= |others|
    requires mid.tasks == Asleep(s, r, others, c) && mid.ready == others[c..]
    requires mid.current == Some(if c == 0 then r else others[c - 1])
    ensures mid.Scheduled() == Slept(s, r, others, c)
  {
    AsleepAt(s, r, others, c, mid.current.value);
    if c < |others| {
      assert others[c] in others && others[c] !in others[..c];
      AsleepAt(s, r, others, c, others[c]);
      assert others[c..][0] == others[c] && others[c..][1..] == others[c + 1..];
    }
  }

  lemma FirstBlock(s: Sched, r: TaskId)
    requires RunsBefore(s, r, Without(s.ready, r))
    ensures s.BlockedCurrent() == Slept(s, r, Without(s.ready, r), 0)
  {
    var others := Without(s.ready, r);
    PickNext(s, r, others, 0, s.With(r, Blocked).(ready := others));
  }

  lemma NextBlock(s: Sched, r: TaskId, others: seq<TaskId>, c: nat)
    requires RunsBefore(s, r, others) && c < |others|
    ensures Slept(s, r, others, c).BlockedCurrent() == Slept(s, r, others, c + 1)
  {
    var now := Slept(s, r, others, c);
    WithoutLast(others[c + 1..], others[c]);
    var mid := now.With(others[c], Blocked).(ready := others[c + 1..]);
    assert mid.tasks == Asleep(s, r, others, c + 1);
    PickNext(s, r, others, c + 1, mid);
  }

  lemma LastBlock(s: Sched, r: TaskId, others: seq<TaskId>)
    requires RunsBefore(s, r, others)
    ensures Slept(s, r, others, |others|).BlockedCurrent() == Slept(s, r, others, |others|)
  {
    var now := Slept(s, r, others, |others|);
    AsleepAt(s, r, others, |others|, now.current.value);
    assert now.With(now.current.value, Blocked).tasks == now.tasks;
  }

  lemma OthersAreReady(k: Kernel, r: TaskId)
    requires RunningIs(k, r)
    ensures RunsBefore(k.sched, r, Without(k.sched.ready, r))
  {
    WithoutNoDup(k.sched.ready, r);
    forall t | t in Without(k.sched.ready, r)
      ensures k.sched.Is(t, Ready)
    {
      assert t in k.sched.ready && S.Runnable(k.sched, t);
    }
  }

  /** The kernel after the receiver and the first `c` of `others` were put to sleep by passes at `e`. */
  function SleptKernel(k: Kernel, e: u64, r: TaskId, others: seq<TaskId>, c: nat): Kernel
    requires e in k.endpoints && c <= |others|
  {
    Kernel(Slept(k.sched, r, others, c), Registered(k.endpoints, e, r))
  }

  lemma OneMorePass(k: Kernel, e: u64, r: TaskId, others: seq<TaskId>, c: nat, next: nat)
    requires RunsBefore(k.sched, r, others) && e in k.endpoints && c <= |others| && next == Min(c + 1, |others|)
    ensures SleptKernel(k, e, r, others, c).Waiting(e, r) == SleptKernel(k, e, r, others, next)
  {
    if c < |others| {
      NextBlock(k.sched, r, others, c);
    } else {
      LastBlock(k.sched, r, others);
    }
    assert Registered(Registered(k.endpoints, e, r), e, r) == Registered(k.endpoints, e, r);
  }

  lemma PassesStep(k: Kernel, e: u64, r: TaskId, n: nat, after: Kernel, next: Kernel)
    requires e in k.endpoints && Passes(k, e, r, n) == after && e in after.endpoints && after.Waiting(e, r) == next
    ensures Passes(k, e, r, n + 1) == next
  {
  }

  /**
   * Each pass blocks whichever task is current: after `n + 1` passes at an empty endpoint the receiver
   * and the first `n` of the other runnable tasks sleep, in queue order, until nothing is runnable; the
   * endpoint lists the receiver only.
   */
  lemma PassesBlockInTurn(k: Kernel, e: u64, r: TaskId, others: seq<TaskId>, n: nat)
    requires RunningIs(k, r) && e in k.endpoints && others == Without(k.sched.ready, r)
    ensures Passes(k, e, r, n + 1) == SleptKernel(k, e, r, others, Min(n, |others|))
  {
    OthersAreReady(k, r);
    FirstBlock(k.sched, r);
    PassesStep(k, e, r, 0, k, SleptKernel(k, e, r, others, 0));
    PassesAfterFirst(k, e, r, others, n);
  }

  lemma {:induction false} PassesAfterFirst(k: Kernel, e: u64, r: TaskId, others: seq<TaskId>, n: nat)
    requires RunsBefore(k.sched, r, others) && e in k.endpoints
    requires Passes(k, e, r, 1) == SleptKernel(k, e, r, others, 0)
    ensures Passes(k, e, r, n + 1) == SleptKernel(k, e, r, others, Min(n, |others|))
  {
    if n > 0 {
      var c, next := Min(n - 1, |others|), Min(n, |others|);
      PassesAfterFirst(k, e, r, others, n - 1);
      OneMorePass(k, e, r, others, c, next);
      PassesStep(k, e, r, n, SleptKernel(k, e, r, others, c), SleptKernel(k, e, r, others, next));
    }
  }

  /** A bystander: another runnable task, blocked by one of the passes, that no endpoint lists. */
  lemma BystanderIsListedNowhere(k: Kernel, e: u64, r: TaskId, others: seq<TaskId>, n: nat, j: nat)
    requires RunningIs(k, r) && NoLostWakeup(k) && e in k.endpoints && others == Without(k.sched.ready, r)
    requires j < |others| && j + 2 <= n
    ensures k.sched.Is(others[j], Ready) && Passes(k, e, r, n).sched.Is(others[j], Blocked)
    ensures forall e' :: !WaitsAt(Passes(k, e, r, n), others[j], e')
  {
    ReadyOther(k, r, others, j);
    PassesBlockInTurn(k, e, r, others, n - 1);
    SleeperIsListedNowhere(k, e, r, others, Min(n - 1, |others|), j, Passes(k, e, r, n));
  }

  lemma SleeperIsListedNowhere(k: Kernel, e: u64, r: TaskId, others: seq<TaskId>, c: nat, j: nat, after: Kernel)
    requires NoLostWakeup(k) && e in k.endpoints && j < c <= |others| && NoDup(others)
    requires others[j] != r && k.sched.Is(others[j], Ready)
    requires after == SleptKernel(k, e, r, others, c)
    ensures after.sched.Is(others[j], Blocked) && forall e' :: !WaitsAt(after, others[j], e')
  {
    BlockedByThen(k.sched, r, others, c, j);
    forall e'
      ensures !WaitsAt(after, others[j], e')
    {
      assert !WaitsAt(k, others[j], e');
    }
  }

  lemma ReadyOther(k: Kernel, r: TaskId, others: seq<TaskId>, j: nat)
    requires RunningIs(k, r) && others == Without(k.sched.ready, r) && j < |others|
    ensures NoDup(others) && others[j] != r && k.sched.Is(others[j], Ready)
  {
    OthersAreReady(k, r);
    assert others[j] in others;
  }

  lemma BlockedByThen(s: Sched, r: TaskId, others: seq<TaskId>, c: nat, j: nat)
    requires j < c <= |others| && NoDup(others)
    ensures Slept(s, r, others, c).Is(others[j], Blocked)
  {
    assert others[..c][j] == others[j];
    AsleepAt(s, r, others, c, others[j]);
  }

  /** Going round at once, any number of times, is harmless exactly when no other task was runnable. */
  lemma LoopingOnKeepsExactly(k: Kernel, e: u64, r: TaskId, n: nat)
    requires RunningIs(k, r) && NoLostWakeup(k) && n >= 2
    requires e in k.endpoints && k.endpoints[e].messages == []
    ensures NoLostWakeup(Passes(k, e, r, n)) <==> k.sched.ready == [r]
  {
    var others := Without(k.sched.ready, r);
    assert S.Runnable(k.sched, r);
    OnlyElement(k.sched.ready, r);
    if others == [] {
      PassesBlockInTurn(k, e, r, others, 0);
      PassesBlockInTurn(k, e, r, others, n - 1);
      assert Passes(k, e, r, 1) == Passes(k, e, r, 0).Waiting(e, r);
      WaitingKeepsExactly(k, e, r);
    } else {
      BystanderIsListedNowhere(k, e, r, others, n, 0);
    }
  }

  /** The tasks put to sleep by the passes after the first never asked for a message, and no later run wakes them. */
  lemma BystandersSleepForever(sys: System, e: u64, r: TaskId, others: seq<TaskId>, n: nat, j: nat, ops: seq<Op>)
    requires RunningIs(sys.kernel, r) && NoLostWakeup(sys.kernel) && e in sys.Endpoints()
    requires others == Without(sys.kernel.sched.ready, r) && j < |others| && j + 2 <= n
    ensures sys.kernel.sched.Is(others[j], Ready)
    ensures Run(sys.(kernel := Passes(sys.kernel, e, r, n)), ops).kernel.sched.Is(others[j], Blocked)
  {
    BystanderIsListedNowhere(sys.kernel, e, r, others, n, j);
    UnregisteredSleepsForever(sys.(kernel := Passes(sys.kernel, e, r, n)), ops, others[j]);
  }

  // ----- Reachable traces -----

  const READER := CapSpace(map[1 := Capability(1, Endpoint, 100, Rights(true, false, false, false))], 2)
  const WRITER := CapSpace(map[1 := Capability(1, Endpoint, 100, Rights(false, true, false, false))], 2)
  const HELLO := Op.Send(2, WRITER, 1, [65])
  const GREETING := Message(2, [65], None)

  /** Two tasks and endpoint 100; task 1 runs. */
  function TwoTasks(): Kernel {
    Kernel(Sched(map[1 := Running, 2 := Ready], Some(1), [2, 1]), map[100 := FRESH])
  }

  lemma TwoTasksIsReachable()
    ensures Step(Step(Step(Step(BOOT, Spawn), Spawn), CreateEndpoint(100)), Dispatch) == With100([], [])
    ensures Inv(With100([], []))
  {
    var a := Step(Step(BOOT, Spawn), Spawn);
    assert a == System(Kernel(Sched(map[1 := Ready, 2 := Ready], None, [1, 2]), map[]), 3);
    var b := Step(a, CreateEndpoint(100));
    assert b == System(Kernel(Sched(map[1 := Ready, 2 := Ready], None, [1, 2]), map[100 := FRESH]), 3);
    assert Step(b, Dispatch) == System(TwoTasks(), 3);
    StepInv(BOOT, Spawn);
    StepInv(Step(BOOT, Spawn), Spawn);
    StepInv(a, CreateEndpoint(100));
    StepInv(b, Dispatch);
  }

  /** Timer, task 2 sends, timer. */
  function Window(sys: System): System {
    Step(Step(Step(sys, Yield), HELLO), Yield)
  }

  /** The two tasks with `ws` registered at endpoint 100 and `messages` in its queue. */
  function With100(messages: seq<Message>, ws: seq<TaskId>): System {
    System(TwoTasks().(endpoints := map[100 := EndpointValue(messages, ws)]), 3)
  }

  /** The window queues the message, wakes nobody since task 1 is not blocked, and task 1 runs again. */
  lemma WindowEffect(ws: seq<TaskId>)
    requires ws == [] || ws == [1]
    ensures Window(With100([], ws)) == With100([GREETING], [])
  {
    var one := Step(With100([], ws), Yield);
    assert one == Second([], ws);
    HelloWakesNobody(ws);
    var three := Step(Second([GREETING], []), Yield);
    assert three.kernel.sched == TwoTasks().sched;
  }

  /** As `With100`, but with task 2 running. */
  function Second(messages: seq<Message>, ws: seq<TaskId>): System {
    System(Kernel(Sched(map[1 := Ready, 2 := Running], Some(2), [1, 2]), map[100 := EndpointValue(messages, ws)]), 3)
  }

  lemma HelloWakesNobody(ws: seq<TaskId>)
    requires ws == [] || ws == [1]
    ensures Step(Second([], ws), HELLO) == Second([GREETING], [])
  {
    var one := Second([], ws);
    var eps := one.Endpoints();
    assert SendVerdict(eps, WRITER, 1, [65]) == Ok(100);
    assert UnblockedAll(one.kernel.sched, ws) == one.kernel.sched by {
      if ws == [1] {
        assert ws[1..] == [];
      }
    }
    assert eps[100].messages + [GREETING] == [GREETING];
    assert Queued(eps, 100, GREETING) == Second([GREETING], []).Endpoints();
  }

  /**
   * A message that arrives after the check and before the registration is not noticed: task 1 ends up
   * blocked on an endpoint whose queue holds it.
   */
  lemma SendBeforeRegistering()
    ensures var start := With100([], []);
      && ReceiveReply(start.Endpoints(), READER, 1) == Ok(None)
      && var end := Blocking(Registering(Window(start).kernel, 100, 1));
         end.sched.Is(1, Blocked) && end.endpoints[100] == EndpointValue([GREETING], [1]) && !NoLostWakeup(end)
  {
    WindowEffect([]);
    FirstBlocks(Registering(With100([GREETING], []).kernel, 100, 1));
  }

  /**
   * A message that arrives after the registration and before the block takes the waiter away while it
   * is still running: task 1 then blocks for good, with the message in the queue.
   */
  lemma SendBeforeBlocking(later: seq<Op>)
    ensures Registering(With100([], []).kernel, 100, 1) == With100([], [1]).kernel
    ensures var end := Window(With100([], [1]));
      && end.Endpoints()[100].messages == [GREETING]
      && Run(end.(kernel := Blocking(end.kernel)), later).kernel.sched.Is(1, Blocked)
  {
    RegisteringFirst();
    WindowEffect([1]);
    var end := With100([GREETING], []);
    FirstBlocks(end.kernel);
    UnregisteredSleepsForever(end.(kernel := Blocking(end.kernel)), later, 1);
  }

  lemma RegisteringFirst()
    ensures Registering(With100([], []).kernel, 100, 1) == With100([], [1]).kernel
  {
    var none: seq<TaskId> := [];
    assert none + [1] == [1];
    assert Registered(With100([], []).Endpoints(), 100, 1) == With100([], [1]).Endpoints();
  }

  lemma FirstBlocks(k: Kernel)
    requires k.sched == TwoTasks().sched
    ensures RunningIs(k, 1)
    ensures Blocking(k).sched.Is(1, Blocked) && Blocking(k).endpoints == k.endpoints
  {
    FirstPass(k.(endpoints := map[100 := FRESH]), 100, 1);
  }
}
