/**
 * What happens to messages over whole runs of the code as it is written, with the sections of a blocking
 * receive interleaved in any way: the results of `EndpointRuns` do not depend on receives being one step.
 */
module SplitTraffic {
  import opened Prelude
  import opened Capabilities
  import opened Ipc
  import opened SplitRuns
  import K = KernelRuns
  import E = EndpointRuns

  /** The step of `KernelRuns` that does the same to messages. */
  function Transfer(op: Op): Option<K.Op> {
    match op
    case Send(sender, cs, capId, data) => Some(K.Send(sender, cs, capId, data))
    case TryReceive(cs, capId) => Some(K.TryReceive(cs, capId))
    case _ => None
  }

  function Accepted(sys: K.System, op: Op, e: u64): seq<Message> {
    if Transfer(op).Some? then E.Accepted(sys, Transfer(op).value, e) else []
  }

  function Received(sys: K.System, op: Op, e: u64): seq<Message> {
    if Transfer(op).Some? then E.Received(sys, Transfer(op).value, e) else []
  }

  function AcceptedLog(sys: K.System, ops: seq<Op>, e: u64): seq<Message>
    decreases |ops|
  {
    if ops == [] then [] else Accepted(sys, ops[0], e) + AcceptedLog(Step(sys, ops[0]), ops[1..], e)
  }

  function ReceivedLog(sys: K.System, ops: seq<Op>, e: u64): seq<Message>
    decreases |ops|
  {
    if ops == [] then [] else Received(sys, ops[0], e) + ReceivedLog(Step(sys, ops[0]), ops[1..], e)
  }

  function Queue(sys: K.System, e: u64): seq<Message> {
    E.Messages(sys.Endpoints(), e)
  }

  lemma StepConserves(sys: K.System, op: Op, e: u64)
    ensures Queue(sys, e) + Accepted(sys, op, e) == Received(sys, op, e) + Queue(Step(sys, op), e)
  {
    if Transfer(op).Some? {
      E.StepConserves(sys, Transfer(op).value, e);
      assert Step(sys, op).Endpoints() == K.Step(sys, Transfer(op).value).Endpoints();
    } else {
      assert Queue(Step(sys, op), e) == Queue(sys, e);
    }
  }

  /** Conservation in order, at every endpoint and in every interleaving. */
  lemma {:induction false} Conservation(sys: K.System, ops: seq<Op>, e: u64)
    ensures Queue(sys, e) + AcceptedLog(sys, ops, e) == ReceivedLog(sys, ops, e) + Queue(Run(sys, ops), e)
    decreases |ops|
  {
    if ops != [] {
      var next := Step(sys, ops[0]);
      StepConserves(sys, ops[0], e);
      Conservation(next, ops[1..], e);
      ConservationChain(Queue(sys, e), Accepted(sys, ops[0], e), Received(sys, ops[0], e),
        Queue(next, e), AcceptedLog(next, ops[1..], e), ReceivedLog(next, ops[1..], e), Queue(Run(next, ops[1..]), e));
    }
  }

  /** In every interleaving no queue exceeds 16 messages, and no message 4096 bytes. */
  lemma {:induction false} LimitsHold(sys: K.System, ops: seq<Op>)
    requires E.WithinLimits(sys.Endpoints())
    ensures E.WithinLimits(Run(sys, ops).Endpoints())
    decreases |ops|
  {
    if ops != [] {
      StepWithinLimits(sys, ops[0]);
      LimitsHold(Step(sys, ops[0]), ops[1..]);
    }
  }

  lemma StepWithinLimits(sys: K.System, op: Op)
    requires E.WithinLimits(sys.Endpoints())
    ensures E.WithinLimits(Step(sys, op).Endpoints())
  {
    if Transfer(op).Some? {
      E.StepWithinLimits(sys, Transfer(op).value);
      assert Step(sys, op).Endpoints() == K.Step(sys, Transfer(op).value).Endpoints();
    }
  }

  /** Step `i` of the run is the one that accepted `m` at `e`: a send, under authority to write to `e`. */
  ghost predicate AcceptedAt(sys: K.System, ops: seq<Op>, e: u64, m: Message, i: nat) {
    && i < |ops| && ops[i].Send? && MayWrite(ops[i].snapshot, e)
    && Accepted(Run(sys, ops[..i]), ops[i], e) == [m]
  }

  /** Step `i` of the run is the one that handed out `m` from `e`: a try, under authority to read from `e`. */
  ghost predicate ReceivedAt(sys: K.System, ops: seq<Op>, e: u64, m: Message, i: nat) {
    && i < |ops| && ops[i].TryReceive? && MayRead(ops[i].snapshot, e)
    && Received(Run(sys, ops[..i]), ops[i], e) == [m]
  }

  lemma StepAuthority(sys: K.System, op: Op, e: u64)
    ensures Accepted(sys, op, e) != [] ==> op.Send? && MayWrite(op.snapshot, e)
    ensures Received(sys, op, e) != [] ==> op.TryReceive? && MayRead(op.snapshot, e)
    ensures |Accepted(sys, op, e)| <= 1 && |Received(sys, op, e)| <= 1
  {
    if Transfer(op).Some? {
      E.StepAuthority(sys, Transfer(op).value, e);
    }
  }

  lemma PrefixShift(sys: K.System, ops: seq<Op>, i: nat, e: u64)
    requires ops != [] && i < |ops|
    ensures Run(sys, ops[..i + 1]) == Run(Step(sys, ops[0]), ops[1..][..i])
    ensures AcceptedLog(sys, ops[..i + 1], e)
         == Accepted(sys, ops[0], e) + AcceptedLog(Step(sys, ops[0]), ops[1..][..i], e)
    ensures ReceivedLog(sys, ops[..i + 1], e)
         == Received(sys, ops[0], e) + ReceivedLog(Step(sys, ops[0]), ops[1..][..i], e)
  {
    assert ops[..i + 1][0] == ops[0] && ops[..i + 1][1..] == ops[1..][..i];
  }

  /** The `k`-th message accepted in the run was accepted at one authorised step, after exactly `k` others. */
  lemma {:induction false} SendProvenance(sys: K.System, ops: seq<Op>, e: u64, k: nat) returns (i: nat)
    requires k < |AcceptedLog(sys, ops, e)|
    ensures AcceptedAt(sys, ops, e, AcceptedLog(sys, ops, e)[k], i) && |AcceptedLog(sys, ops[..i], e)| == k
    decreases |ops|
  {
    var first := Accepted(sys, ops[0], e);
    StepAuthority(sys, ops[0], e);
    if k < |first| {
      i := 0;
      assert ops[..0] == [];
    } else {
      i := SendProvenance(Step(sys, ops[0]), ops[1..], e, k - |first|);
      PrefixShift(sys, ops, i, e);
      i := i + 1;
    }
  }

  /** The `k`-th message received in the run was handed out at one authorised step, after exactly `k` others. */
  lemma {:induction false} ReceiveProvenance(sys: K.System, ops: seq<Op>, e: u64, k: nat) returns (i: nat)
    requires k < |ReceivedLog(sys, ops, e)|
    ensures ReceivedAt(sys, ops, e, ReceivedLog(sys, ops, e)[k], i) && |ReceivedLog(sys, ops[..i], e)| == k
    decreases |ops|
  {
    var first := Received(sys, ops[0], e);
    StepAuthority(sys, ops[0], e);
    if k < |first| {
      i := 0;
      assert ops[..0] == [];
    } else {
      i := ReceiveProvenance(Step(sys, ops[0]), ops[1..], e, k - |first|);
      PrefixShift(sys, ops, i, e);
      i := i + 1;
    }
  }

  /** Each message queued at the end of a run was there at its start, or was accepted at an authorised step. */
  lemma QueueProvenance(sys: K.System, ops: seq<Op>, e: u64, m: Message)
    requires m in Queue(Run(sys, ops), e)
    ensures m in Queue(sys, e) || exists i :: AcceptedAt(sys, ops, e, m, i)
  {
    var log := AcceptedLog(sys, ops, e);
    Conservation(sys, ops, e);
    assert m in ReceivedLog(sys, ops, e) + Queue(Run(sys, ops), e);
    assert m in Queue(sys, e) || m in log;
    if m in log {
      var k :| 0 <= k < |log| && log[k] == m;
      var i := SendProvenance(sys, ops, e, k);
    }
  }
}
