/** How soon a task woken by a message runs again, and what it finds when it does. */
module WakeLatency {
  import opened Prelude
  import opened Tasks
  import opened Scheduling
  import opened Ipc
  import opened KernelRuns
  import opened EndpointRuns

  predicate Dispatches(k: Kernel, op: Op) {
    var part := SchedulerPart(k, op);
    part.Some? && S.Dispatches(S.Machine(k.sched, 0), part.value)
  }

  function DispatchCount(sys: System, ops: seq<Op>): nat
    decreases |ops|
  {
    if ops == [] then 0
    else (if Dispatches(sys.kernel, ops[0]) then 1 else 0) + DispatchCount(Step(sys, ops[0]), ops[1..])
  }

  ghost predicate QueuedAt(s: Sched, t: TaskId, p: nat) {
    p < |s.ready| && s.ready[p] == t && s.Is(t, Ready)
  }

  lemma StepProgress(sys: System, op: Op, t: TaskId, p: nat) returns (q: nat)
    requires Inv(sys) && (op.Spawn? ==> sys.nextId + 1 < TWO_64)
    requires QueuedAt(sys.kernel.sched, t, p)
    ensures var s := Step(sys, op).kernel.sched;
      if s.Is(t, Running) then Dispatches(sys.kernel, op)
      else QueuedAt(s, t, q) && q + (if Dispatches(sys.kernel, op) then 1 else 0) <= p
  {
    q := p;
    if op.Send? {
      var verdict := SendVerdict(sys.Endpoints(), op.snapshot, op.capId, op.data);
      if verdict.Ok? {
        SendWakesEveryWaiter(sys, op, verdict.value);
        UnblockedAllEffect(sys.kernel.sched, sys.Endpoints()[verdict.value].waiters);
      }
    } else {
      SchedulerRefines(sys, op);
      var part := SchedulerPart(sys.kernel, op);
      if part.Some? {
        q := S.StepProgress(sys.Machine(), part.value, t, p);
      }
    }
  }

  /** A ready task at queue index `p` runs within `p + 1` scheduling steps of any kernel run. */
  lemma {:induction false} BoundedWaiting(sys: System, ops: seq<Op>, t: TaskId, p: nat) returns (n: nat)
    requires Inv(sys) && sys.nextId + Spawns(ops) < TWO_64
    requires QueuedAt(sys.kernel.sched, t, p) && DispatchCount(sys, ops) > p
    ensures n <= |ops| && Run(sys, ops[..n]).kernel.sched.Is(t, Running) && DispatchCount(sys, ops[..n]) <= p + 1
    decreases |ops|
  {
    var q := StepProgress(sys, ops[0], t, p);
    var next := Step(sys, ops[0]);
    if next.kernel.sched.Is(t, Running) {
      n := 1;
      assert ops[..1] == [ops[0]];
    } else {
      StepInv(sys, ops[0]);
      n := BoundedWaiting(next, ops[1..], t, q);
      assert ops[..n + 1][0] == ops[0] && ops[..n + 1][1..] == ops[1..][..n];
      n := n + 1;
    }
  }

  /**
   * From message to delivery. When a send is accepted by an endpoint at which a task waits in place
   * `i`, that task runs again within `|ready| + i + 1` scheduling steps, whatever else happens; and
   * unless some receive took a message from that endpoint first, its next pass returns exactly the
   * message that was sent.
   */
  lemma WokenReceiverGetsTheMessage(sys: System, send: Op, e: u64, i: nat, ops: seq<Op>) returns (n: nat)
    requires Inv(sys) && sys.nextId + Spawns(ops) < TWO_64
    requires send.Send? && SendVerdict(sys.Endpoints(), send.snapshot, send.capId, send.data) == Ok(e)
    requires i < |sys.Endpoints()[e].waiters|
    requires DispatchCount(Step(sys, send), ops) > |sys.kernel.sched.ready| + i
    ensures n <= |ops| && DispatchCount(Step(sys, send), ops[..n]) <= |sys.kernel.sched.ready| + i + 1
    ensures var later := Run(Step(sys, send), ops[..n]);
      && later.kernel.sched.Is(sys.Endpoints()[e].waiters[i], Running)
      && (ReceivedLog(Step(sys, send), ops[..n], e) == [] ==>
            forall snapshot, capId :: GrantsReceive(snapshot, capId, e) ==>
              ReceiveReply(later.Endpoints(), snapshot, capId) == Ok(Some(Message(send.sender, send.data, None))))
  {
    var t := sys.Endpoints()[e].waiters[i];
    var sent := Step(sys, send);
    SendWakesEveryWaiter(sys, send, e);
    StepInv(sys, send);
    n := BoundedWaiting(sent, ops, t, |sys.kernel.sched.ready| + i);
    assert Messages(sent.Endpoints(), e) == [Message(send.sender, send.data, None)];
    if ReceivedLog(sent, ops[..n], e) == [] {
      FirstMessageStays(sent, ops[..n], e);
    }
  }

  /** While nothing is received from an endpoint, the next receive gets the message at its head. */
  lemma FirstMessageStays(sys: System, ops: seq<Op>, e: u64)
    requires Messages(sys.Endpoints(), e) != [] && ReceivedLog(sys, ops, e) == []
    ensures forall snapshot, capId :: GrantsReceive(snapshot, capId, e) ==>
              ReceiveReply(Run(sys, ops).Endpoints(), snapshot, capId) == Ok(Some(Messages(sys.Endpoints(), e)[0]))
  {
    Conservation(sys, ops, e);
    assert Messages(Run(sys, ops).Endpoints(), e) == Messages(sys.Endpoints(), e) + AcceptedLog(sys, ops, e);
  }
}
