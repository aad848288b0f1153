/** What happens to messages over whole kernel runs: conservation, order, bounds and authority. */
module EndpointRuns {
  import opened Prelude
  import opened Capabilities
  import opened Ipc
  import opened KernelRuns
  import Syscalls

  function Messages(eps: Endpoints, e: u64): seq<Message> {
    if e in eps then eps[e].messages else []
  }

  /** The messages a step puts into endpoint `e`. */
  function Accepted(sys: System, op: Op, e: u64): seq<Message> {
    if op.Send? && SendVerdict(sys.Endpoints(), op.snapshot, op.capId, op.data) == Ok(e)
    then [Message(op.sender, op.data, None)] else []
  }

  predicate Receives(sys: System, op: Op) {
    op.TryReceive? || (op.Receive? && Executing(sys.kernel))
  }

  /** The messages a step hands to a receiver from endpoint `e`. */
  function Received(sys: System, op: Op, e: u64): seq<Message> {
    if Receives(sys, op) && ReceiveVerdict(sys.Endpoints(), op.snapshot, op.capId) == Ok(e)
    then var reply := ReceiveReply(sys.Endpoints(), op.snapshot, op.capId);
      if reply.value.Some? then [reply.value.value] else []
    else []
  }

  function AcceptedLog(sys: System, ops: seq<Op>, e: u64): seq<Message>
    decreases |ops|
  {
    if ops == [] then [] else Accepted(sys, ops[0], e) + AcceptedLog(Step(sys, ops[0]), ops[1..], e)
  }

  function ReceivedLog(sys: System, ops: seq<Op>, e: u64): seq<Message>
    decreases |ops|
  {
    if ops == [] then [] else Received(sys, ops[0], e) + ReceivedLog(Step(sys, ops[0]), ops[1..], e)
  }

  lemma StepConserves(sys: System, op: Op, e: u64)
    ensures Messages(sys.Endpoints(), e) + Accepted(sys, op, e)
         == Received(sys, op, e) + Messages(Step(sys, op).Endpoints(), e)
  {
    var before, after := Messages(sys.Endpoints(), e), Messages(Step(sys, op).Endpoints(), e);
    if op.Send? {
      SendConserves(sys, op, e);
      assert [] + after == after;
    } else if Receives(sys, op) {
      ReceiveConserves(sys, op, e);
      assert before + [] == before;
    } else {
      assert after == before && Accepted(sys, op, e) == Received(sys, op, e) == [];
    }
  }

  lemma SendConserves(sys: System, op: Op, e: u64)
    requires op.Send?
    ensures Messages(sys.Endpoints(), e) + Accepted(sys, op, e) == Messages(Step(sys, op).Endpoints(), e)
  {
    if Accepted(sys, op, e) == [] {
      assert Messages(Step(sys, op).Endpoints(), e) == Messages(sys.Endpoints(), e);
    }
  }

  lemma ReceiveConserves(sys: System, op: Op, e: u64)
    requires Receives(sys, op)
    ensures Messages(sys.Endpoints(), e) == Received(sys, op, e) + Messages(Step(sys, op).Endpoints(), e)
  {
    var before, after := Messages(sys.Endpoints(), e), Messages(Step(sys, op).Endpoints(), e);
    if Received(sys, op, e) == [] {
      assert after == before;
    } else {
      assert after == before[1..] && Received(sys, op, e) == [before[0]];
    }
  }

  /**
   * Conservation in order, for every endpoint id: what was queued, followed by every accepted send,
   * is what was received, followed by what is still queued. Refused operations contribute nothing.
   */
  lemma {:induction false} Conservation(sys: System, ops: seq<Op>, e: u64)
    ensures Messages(sys.Endpoints(), e) + AcceptedLog(sys, ops, e)
         == ReceivedLog(sys, ops, e) + Messages(Run(sys, ops).Endpoints(), e)
    decreases |ops|
  {
    if ops != [] {
      var next := Step(sys, ops[0]);
      StepConserves(sys, ops[0], e);
      Conservation(next, ops[1..], e);
      ConservationChain(Messages(sys.Endpoints(), e), Accepted(sys, ops[0], e), Received(sys, ops[0], e),
        Messages(next.Endpoints(), e), AcceptedLog(next, ops[1..], e), ReceivedLog(next, ops[1..], e),
        Messages(Run(next, ops[1..]).Endpoints(), e));
    }
  }

  predicate Refused(sys: System, op: Op) {
    || (op.Send? && SendVerdict(sys.Endpoints(), op.snapshot, op.capId, op.data).Err?)
    || (Receives(sys, op) && ReceiveVerdict(sys.Endpoints(), op.snapshot, op.capId).Err?)
  }

  /** Refused operations, however many, change neither an endpoint's queue or waiters nor the scheduler. */
  lemma {:induction false} RefusedChangesNothing(sys: System, ops: seq<Op>)
    requires forall op :: op in ops ==> Refused(sys, op)
    ensures Run(sys, ops) == sys
    decreases |ops|
  {
    if ops != [] {
      RefusedStep(sys, ops[0]);
      RefusedChangesNothing(sys, ops[1..]);
    }
  }

  lemma RefusedStep(sys: System, op: Op)
    requires Refused(sys, op)
    ensures Step(sys, op) == sys
  {
    assert Step(sys, op).kernel == sys.kernel;
  }

  ghost predicate WithinLimits(eps: Endpoints) {
    forall e :: e in eps ==>
      |eps[e].messages| <= 16 && forall m :: m in eps[e].messages ==> |m.data| <= 4096
  }

  lemma StepWithinLimits(sys: System, op: Op)
    requires WithinLimits(sys.Endpoints())
    ensures WithinLimits(Step(sys, op).Endpoints())
  {
    var eps, after := sys.Endpoints(), Step(sys, op).Endpoints();
    forall e | e in after
      ensures |after[e].messages| <= MAX_QUEUE_SIZE
      ensures forall m :: m in after[e].messages ==> |m.data| <= MAX_MESSAGE_SIZE
    {
      StepConserves(sys, op, e);
      LeftOver(Messages(eps, e), Accepted(sys, op, e), Received(sys, op, e), Messages(after, e));
    }
  }

  lemma LeftOver(before: seq<Message>, accepted: seq<Message>, received: seq<Message>, after: seq<Message>)
    requires before + accepted == received + after
    ensures |after| <= |before| + |accepted|
    ensures forall m :: m in after ==> m in before || m in accepted
  {
    assert forall m :: m in after ==> m in received + after;
  }

  /** No queue ever holds more than 16 messages, nor a message of more than 4096 bytes. */
  lemma {:induction false} LimitsHold(sys: System, ops: seq<Op>)
    requires WithinLimits(sys.Endpoints())
    ensures WithinLimits(Run(sys, ops).Endpoints())
    decreases |ops|
  {
    if ops != [] {
      StepWithinLimits(sys, ops[0]);
      LimitsHold(Step(sys, ops[0]), ops[1..]);
    }
  }

  // ----- Provenance -----

  /** Step `i` of the run is the one that accepted `m` at `e`: a send, under authority to write to `e`. */
  ghost predicate AcceptedAt(sys: System, ops: seq<Op>, e: u64, m: Message, i: nat) {
    && i < |ops| && ops[i].Send? && MayWrite(ops[i].snapshot, e)
    && Accepted(Run(sys, ops[..i]), ops[i], e) == [m]
    && m == Message(ops[i].sender, ops[i].data, None) && |m.data| <= 4096
  }

  /** Step `i` of the run is the one that handed out `m` from `e`: a receive, under authority to read from `e`. */
  ghost predicate ReceivedAt(sys: System, ops: seq<Op>, e: u64, m: Message, i: nat) {
    && i < |ops| && Receives(Run(sys, ops[..i]), ops[i]) && MayRead(ops[i].snapshot, e)
    && Received(Run(sys, ops[..i]), ops[i], e) == [m]
  }

  lemma StepAuthority(sys: System, op: Op, e: u64)
    ensures Accepted(sys, op, e) != [] ==> MayWrite(op.snapshot, e) && |op.data| <= MAX_MESSAGE_SIZE
    ensures Received(sys, op, e) != [] ==> MayRead(op.snapshot, e)
    ensures |Accepted(sys, op, e)| <= 1 && |Received(sys, op, e)| <= 1
  {
    if Accepted(sys, op, e) != [] || Received(sys, op, e) != [] {
      assert op.capId in op.snapshot.caps;
    }
  }

  lemma PrefixShift(sys: System, ops: seq<Op>, i: nat)
    requires ops != [] && i < |ops|
    ensures Run(sys, ops[..i + 1]) == Run(Step(sys, ops[0]), ops[1..][..i])
    ensures forall e ::
      AcceptedLog(sys, ops[..i + 1], e) == Accepted(sys, ops[0], e) + AcceptedLog(Step(sys, ops[0]), ops[1..][..i], e)
    ensures forall e ::
      ReceivedLog(sys, ops[..i + 1], e) == Received(sys, ops[0], e) + ReceivedLog(Step(sys, ops[0]), ops[1..][..i], e)
  {
    assert ops[..i + 1][0] == ops[0] && ops[..i + 1][1..] == ops[1..][..i];
  }

  /**
   * Send provenance: the `k`-th message accepted by `e` was accepted at one particular step, after exactly
   * `k` others, and that step was a send whose snapshot allowed writing to `e`.
   */
  lemma {:induction false} SendProvenance(sys: System, ops: seq<Op>, e: u64, k: nat) returns (i: nat)
    requires k < |AcceptedLog(sys, ops, e)|
    ensures AcceptedAt(sys, ops, e, AcceptedLog(sys, ops, e)[k], i)
    ensures |AcceptedLog(sys, ops[..i], e)| == k
    decreases |ops|
  {
    StepAuthority(sys, ops[0], e);
    var first := Accepted(sys, ops[0], e);
    if k < |first| {
      i := 0;
      assert ops[..0] == [];
    } else {
      i := SendProvenance(Step(sys, ops[0]), ops[1..], e, k - |first|);
      PrefixShift(sys, ops, i);
      i := i + 1;
    }
  }

  /**
   * Receive provenance: the `k`-th message received from `e` was handed out at one particular step, after
   * exactly `k` others, and that step was a receive whose snapshot allowed reading from `e`.
   */
  lemma {:induction false} ReceiveProvenance(sys: System, ops: seq<Op>, e: u64, k: nat) returns (i: nat)
    requires k < |ReceivedLog(sys, ops, e)|
    ensures ReceivedAt(sys, ops, e, ReceivedLog(sys, ops, e)[k], i)
    ensures |ReceivedLog(sys, ops[..i], e)| == k
    decreases |ops|
  {
    StepAuthority(sys, ops[0], e);
    var first := Received(sys, ops[0], e);
    if k < |first| {
      i := 0;
      assert ops[..0] == [];
    } else {
      i := ReceiveProvenance(Step(sys, ops[0]), ops[1..], e, k - |first|);
      PrefixShift(sys, ops, i);
      i := i + 1;
    }
  }

  /** Each message queued at the end of a run was there at its start, or was accepted at an authorised step. */
  lemma QueueProvenance(sys: System, ops: seq<Op>, e: u64, m: Message)
    requires m in Messages(Run(sys, ops).Endpoints(), e)
    ensures m in Messages(sys.Endpoints(), e) || exists i :: AcceptedAt(sys, ops, e, m, i)
  {
    var log := AcceptedLog(sys, ops, e);
    Conservation(sys, ops, e);
    assert m in ReceivedLog(sys, ops, e) + Messages(Run(sys, ops).Endpoints(), e);
    assert m in Messages(sys.Endpoints(), e) || m in log;
    if m in log {
      var k :| 0 <= k < |log| && log[k] == m;
      var i := SendProvenance(sys, ops, e, k);
    }
  }

  // ----- Confinement -----

  /** The snapshot is the capability space of a process that started with `boot`, after some system calls. */
  ghost predicate SnapshotOf(snapshot: CapSpace, boot: CapSpace) {
    exists calls :: snapshot == Syscalls.Run(boot, calls)
  }

  /** The snapshot is that of a process whose initial capabilities did not allow sending to `e`. */
  ghost predicate NeverWrites(snapshot: CapSpace, e: u64) {
    exists boot :: SnapshotOf(snapshot, boot) && !MayWrite(boot, e)
  }

  /** The snapshot is that of a process whose initial capabilities did not allow receiving from `e`. */
  ghost predicate NeverReads(snapshot: CapSpace, e: u64) {
    exists boot :: SnapshotOf(snapshot, boot) && !MayRead(boot, e)
  }

  lemma ConfinedHasNoAuthority(snapshot: CapSpace, e: u64)
    ensures NeverWrites(snapshot, e) ==> !MayWrite(snapshot, e)
    ensures NeverReads(snapshot, e) ==> !MayRead(snapshot, e)
  {
    forall boot | SnapshotOf(snapshot, boot)
      ensures MayWrite(snapshot, e) ==> MayWrite(boot, e)
      ensures MayRead(snapshot, e) ==> MayRead(boot, e)
    {
      var calls :| snapshot == Syscalls.Run(boot, calls);
      MayWriteIsAuthority(snapshot, e);
      MayWriteIsAuthority(boot, e);
      if MayWrite(snapshot, e) {
        Syscalls.SnapshotsCarryNoNewAuthority(boot, calls, e, Rights(false, true, false, false));
      }
      if MayRead(snapshot, e) {
        Syscalls.SnapshotsCarryNoNewAuthority(boot, calls, e, Rights(true, false, false, false));
      }
    }
  }

  /**
   * Confinement of senders across the system-call and IPC layers: when every sender's snapshot, however
   * stale, comes from a process whose initial capabilities gave no write right to `e`, nothing is ever
   * accepted by `e`, and each of its receivers only drains what was there.
   */
  lemma NoAuthorityNoMessage(sys: System, ops: seq<Op>, e: u64)
    requires forall op :: op in ops && op.Send? ==> NeverWrites(op.snapshot, e)
    ensures AcceptedLog(sys, ops, e) == []
    ensures Messages(sys.Endpoints(), e) == ReceivedLog(sys, ops, e) + Messages(Run(sys, ops).Endpoints(), e)
  {
    if AcceptedLog(sys, ops, e) != [] {
      var i := SendProvenance(sys, ops, e, 0);
      ConfinedHasNoAuthority(ops[i].snapshot, e);
      assert false;
    }
    Conservation(sys, ops, e);
  }

  /**
   * Confinement of receivers: when every receiver's snapshot comes from a process without a read right to
   * `e` at its start, nothing ever leaves `e`, and its queue is what it was followed by what was accepted.
   */
  lemma NoAuthorityNoReceipt(sys: System, ops: seq<Op>, e: u64)
    requires forall op :: op in ops && (op.TryReceive? || op.Receive?) ==> NeverReads(op.snapshot, e)
    ensures ReceivedLog(sys, ops, e) == []
    ensures Messages(Run(sys, ops).Endpoints(), e) == Messages(sys.Endpoints(), e) + AcceptedLog(sys, ops, e)
  {
    if ReceivedLog(sys, ops, e) != [] {
      var i := ReceiveProvenance(sys, ops, e, 0);
      ConfinedHasNoAuthority(ops[i].snapshot, e);
      assert false;
    }
    Conservation(sys, ops, e);
  }
}
