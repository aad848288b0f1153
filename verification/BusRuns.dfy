/** Whole runs of the shared queue: any modules calling the host and being delivered to, in any order. */
module BusRuns {
  import opened Prelude
  import opened Capabilities
  import opened WasmBus
  import opened DeliveryRuns

  /** A guest calls the host, the kernel delivers to a module, or the kernel clears the queue. */
  datatype Op =
    | Host(caps: seq<Capability>, call: HostCall)
    | DeliverTo(caps: seq<Capability>, clientId: u32, turns: seq<Turn>)
    | Clear

  function Step(bus: Bus, op: Op): Bus {
    match op
    case Host(caps, call) => Called(bus, caps, call)
    case DeliverTo(caps, clientId, turns) => Deliver(bus, caps, clientId, turns).bus
    case Clear => bus.(queue := [])
  }

  function Enqueued(bus: Bus, op: Op): seq<Origin> {
    match op
    case Host(caps, call) => Origins(bus, caps, call)
    case DeliverTo(caps, clientId, turns) => Deliver(bus, caps, clientId, turns).enqueued
    case Clear => []
  }

  /** The messages of a client that a step takes off the queue for good. */
  function Removed(bus: Bus, op: Op, clientId: u32): seq<IpcMessage> {
    match op
    case Host(_, _) => []
    case DeliverTo(caps, to, turns) => Out(Deliver(bus, caps, to, turns), to, clientId)
    case Clear => Pending(bus.queue, clientId)
  }

  function Run(bus: Bus, ops: seq<Op>): Bus
    decreases |ops|
  {
    if ops == [] then bus else Run(Step(bus, ops[0]), ops[1..])
  }

  function EnqueuedLog(bus: Bus, ops: seq<Op>): seq<Origin>
    decreases |ops|
  {
    if ops == [] then [] else Enqueued(bus, ops[0]) + EnqueuedLog(Step(bus, ops[0]), ops[1..])
  }

  function RemovedLog(bus: Bus, ops: seq<Op>, clientId: u32): seq<IpcMessage>
    decreases |ops|
  {
    if ops == [] then [] else Removed(bus, ops[0], clientId) + RemovedLog(Step(bus, ops[0]), ops[1..], clientId)
  }

  lemma StepConserves(bus: Bus, op: Op, clientId: u32)
    ensures Moves(bus, Step(bus, op), Enqueued(bus, op), clientId, Removed(bus, op, clientId))
  {
    match op
    case Host(caps, call) =>
      OneCall(bus, caps, call);
      CallsAppendPending(bus, caps, [call], clientId);
    case DeliverTo(caps, to, turns) =>
      DeliveryConserves(bus, caps, to, turns, clientId);
    case Clear =>
      assert Pending(bus.queue, clientId) + [] == Pending(bus.queue, clientId);
  }

  /** FIFO for each client over a whole run, whichever modules send, publish and receive in between. */
  lemma {:induction false} RunConserves(bus: Bus, ops: seq<Op>, clientId: u32)
    ensures Pending(bus.queue, clientId) + Pending(MessagesOf(EnqueuedLog(bus, ops)), clientId)
         == RemovedLog(bus, ops, clientId) + Pending(Run(bus, ops).queue, clientId)
    decreases |ops|
  {
    if ops != [] {
      var next := Step(bus, ops[0]);
      StepConserves(bus, ops[0], clientId);
      RunConserves(next, ops[1..], clientId);
      MessagesConcat(Enqueued(bus, ops[0]), EnqueuedLog(next, ops[1..]), clientId);
      ConservationChain(Pending(bus.queue, clientId), Pending(MessagesOf(Enqueued(bus, ops[0])), clientId),
        Removed(bus, ops[0], clientId),
        Pending(next.queue, clientId), Pending(MessagesOf(EnqueuedLog(next, ops[1..])), clientId),
        RemovedLog(next, ops[1..], clientId),
        Pending(Run(next, ops[1..]).queue, clientId));
    }
  }

  /** The step is a delivery in which a failing allocation enqueues more than there is room for. */
  predicate OverfillingStep(bus: Bus, op: Op) {
    op.DeliverTo? && AnyOverfills(bus, op.caps, op.clientId, op.turns)
  }

  lemma StepDepth(bus: Bus, op: Op)
    requires |bus.queue| <= MAX_IPC_QUEUE_DEPTH + 1
    ensures |Step(bus, op).queue| <= MAX_IPC_QUEUE_DEPTH + 1
    ensures |bus.queue| <= MAX_IPC_QUEUE_DEPTH ==>
      (|Step(bus, op).queue| > MAX_IPC_QUEUE_DEPTH <==> OverfillingStep(bus, op))
  {
    match op
    case Host(caps, call) =>
    case DeliverTo(caps, clientId, turns) => DeliveryDepth(bus, caps, clientId, turns);
    case Clear =>
  }

  /** The queue never holds more than 65 messages, in any run that starts within that bound. */
  lemma {:induction false} RunDepth(bus: Bus, ops: seq<Op>)
    requires |bus.queue| <= MAX_IPC_QUEUE_DEPTH + 1
    ensures |Run(bus, ops).queue| <= MAX_IPC_QUEUE_DEPTH + 1
    decreases |ops|
  {
    if ops != [] {
      StepDepth(bus, ops[0]);
      RunDepth(Step(bus, ops[0]), ops[1..]);
    }
  }

  /** The queue is within its stated limit at the start of a run and after each of its steps. */
  predicate WithinLimitThroughout(bus: Bus, ops: seq<Op>)
    decreases |ops|
  {
    |bus.queue| <= MAX_IPC_QUEUE_DEPTH && (ops != [] ==> WithinLimitThroughout(Step(bus, ops[0]), ops[1..]))
  }

  predicate NeverOverfills(bus: Bus, ops: seq<Op>)
    decreases |ops|
  {
    ops != [] ==> !OverfillingStep(bus, ops[0]) && NeverOverfills(Step(bus, ops[0]), ops[1..])
  }

  /**
   * The stated limit of 64 holds throughout a run that starts within it if and only if no step of the
   * run is a delivery whose failing allocation enqueued more than there was room for; in particular it
   * holds when failing allocations enqueue nothing.
   */
  lemma {:induction false} LimitHoldsExactly(bus: Bus, ops: seq<Op>)
    requires |bus.queue| <= MAX_IPC_QUEUE_DEPTH
    ensures WithinLimitThroughout(bus, ops) <==> NeverOverfills(bus, ops)
    ensures WithinLimitThroughout(bus, ops) ==> |Run(bus, ops).queue| <= MAX_IPC_QUEUE_DEPTH
    decreases |ops|
  {
    if ops != [] {
      StepDepth(bus, ops[0]);
      if |Step(bus, ops[0]).queue| <= MAX_IPC_QUEUE_DEPTH {
        LimitHoldsExactly(Step(bus, ops[0]), ops[1..]);
      }
    }
  }

  /** In every delivery of a run, the allocation that fails, if one does, has enqueued nothing. */
  predicate FailingAllocationsEnqueueNothing(bus: Bus, ops: seq<Op>)
    decreases |ops|
  {
    ops != [] ==>
      && (ops[0].DeliverTo? ==>
            var stop := Deliver(bus, ops[0].caps, ops[0].clientId, ops[0].turns).stop;
            stop.Requeued? ==> stop.extra == 0)
      && FailingAllocationsEnqueueNothing(Step(bus, ops[0]), ops[1..])
  }

  lemma {:induction false} OverfillingEnqueues(bus: Bus, caps: seq<Capability>, clientId: u32, turns: seq<Turn>)
    requires |bus.queue| <= MAX_IPC_QUEUE_DEPTH && AnyOverfills(bus, caps, clientId, turns)
    ensures var stop := Deliver(bus, caps, clientId, turns).stop; stop.Requeued? && stop.extra > 0
    decreases |turns|
  {
    RoundDepth(bus, caps, clientId, turns[0]);
    var round := Play(bus, caps, clientId, turns[0]);
    if round.stop.None? {
      OverfillingEnqueues(round.bus, caps, clientId, turns[1..]);
    }
  }

  lemma {:induction false} LimitHoldsWithoutReentry(bus: Bus, ops: seq<Op>)
    requires |bus.queue| <= MAX_IPC_QUEUE_DEPTH && FailingAllocationsEnqueueNothing(bus, ops)
    ensures WithinLimitThroughout(bus, ops)
    decreases |ops|
  {
    if ops != [] {
      StepDepth(bus, ops[0]);
      if OverfillingStep(bus, ops[0]) {
        OverfillingEnqueues(bus, ops[0].caps, ops[0].clientId, ops[0].turns);
      }
      LimitHoldsWithoutReentry(Step(bus, ops[0]), ops[1..]);
    }
  }

  /** The subscriber list stays free of duplicates. */
  lemma {:induction false} SubscribersStayDistinct(bus: Bus, ops: seq<Op>)
    requires NoDup(bus.subscribers)
    ensures NoDup(Run(bus, ops).subscribers)
    decreases |ops|
  {
    if ops != [] {
      match ops[0] {
        case Host(caps, call) =>
        case DeliverTo(caps, clientId, turns) => DeliveryKeepsSubscribersDistinct(bus, caps, clientId, turns);
        case Clear =>
      }
      SubscribersStayDistinct(Step(bus, ops[0]), ops[1..]);
    }
  }

  lemma {:induction false} DeliveryKeepsSubscribersDistinct(bus: Bus, caps: seq<Capability>, clientId: u32,
      turns: seq<Turn>)
    requires NoDup(bus.subscribers)
    ensures NoDup(Deliver(bus, caps, clientId, turns).bus.subscribers)
    decreases |turns|
  {
    if FirstFor(bus.queue, clientId) < |bus.queue| && turns != [] {
      var taken := RemovedAt(bus, FirstFor(bus.queue, clientId));
      CallsKeepSubscribersDistinct(taken, caps, turns[0].allocate.calls);
      CallsKeepSubscribersDistinct(AllCalled(taken, caps, turns[0].allocate.calls), caps, turns[0].receive.calls);
      var round := Play(bus, caps, clientId, turns[0]);
      if round.stop.None? {
        DeliveryKeepsSubscribersDistinct(round.bus, caps, clientId, turns[1..]);
      }
    }
  }

  lemma {:induction false} EnqueuedLegitimate(bus: Bus, ops: seq<Op>)
    ensures forall o :: o in EnqueuedLog(bus, ops) ==> Legitimate(o)
    decreases |ops|
  {
    if ops != [] {
      match ops[0] {
        case Host(caps, call) => OriginsLegitimate(bus, caps, call);
        case DeliverTo(caps, clientId, turns) => DeliveryLegitimate(bus, caps, clientId, turns);
        case Clear =>
      }
      EnqueuedLegitimate(Step(bus, ops[0]), ops[1..]);
    }
  }

  lemma {:induction false} PendingMembers(queue: seq<IpcMessage>, clientId: u32, m: IpcMessage)
    ensures m in Pending(queue, clientId) <==> m in queue && m.destClientId == clientId
  {
    if queue != [] {
      PendingMembers(queue[1..], clientId, m);
    }
  }

  /**
   * Provenance over runs: starting from an empty queue, every queued message is at most 512 bytes of
   * its sender's own memory, and its destination was open to that sender or had subscribed.
   */
  lemma QueueProvenance(bus: Bus, ops: seq<Op>, m: IpcMessage) returns (o: Origin)
    requires bus.queue == [] && m in Run(bus, ops).queue
    ensures o in EnqueuedLog(bus, ops) && o.message == m && Legitimate(o)
  {
    var c := m.destClientId;
    var log := EnqueuedLog(bus, ops);
    RunConserves(bus, ops, c);
    PendingMembers(Run(bus, ops).queue, c, m);
    assert m in RemovedLog(bus, ops, c) + Pending(Run(bus, ops).queue, c);
    assert m in Pending(MessagesOf(log), c);
    PendingMembers(MessagesOf(log), c, m);
    var i :| 0 <= i < |log| && MessagesOf(log)[i] == m;
    o := log[i];
    EnqueuedLegitimate(bus, ops);
  }
}
