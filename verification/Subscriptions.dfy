/** Who is on the subscriber list after any run of host calls and deliveries, and what that gives them. */
module Subscriptions {
  import opened Prelude
  import opened Capabilities
  import opened WasmBus
  import opened DeliveryRuns
  import opened BusRuns
  import opened HostCalls

  /** Some call of the list is an accepted subscription by `c`. */
  ghost predicate AnySubscribes(calls: seq<HostCall>, c: u32) {
    exists call :: call in calls && Subscribes(call, c)
  }

  lemma AnyOfTwo(a: seq<HostCall>, b: seq<HostCall>, c: u32)
    ensures AnySubscribes(a + b, c) <==> AnySubscribes(a, c) || AnySubscribes(b, c)
  {
    assert forall call :: call in a + b <==> call in a || call in b;
  }

  lemma {:induction false} CallsList(bus: Bus, caps: seq<Capability>, calls: seq<HostCall>, c: u32)
    ensures var after := AllCalled(bus, caps, calls).subscribers;
      && (c in after <==> c in bus.subscribers || AnySubscribes(calls, c))
      && bus.subscribers <= after
    decreases |calls|
  {
    if calls != [] {
      SubscribeOutcome(bus, caps, calls[0], c);
      CallsList(Called(bus, caps, calls[0]), caps, calls[1..], c);
      AnyOfTwo([calls[0]], calls[1..], c);
      assert calls == [calls[0]] + calls[1..];
    }
  }

  /** The host calls the guest gets to make in one turn: its receiver runs only if it offered a buffer that fits. */
  function TurnCalls(turn: Turn, m: IpcMessage): seq<HostCall> {
    turn.allocate.calls + if BufferOffered(turn) && BufferFits(turn, m) then turn.receive.calls else []
  }

  /** The host calls made in a whole delivery, in order. */
  function CallsMade(played: seq<(Turn, IpcMessage)>): seq<HostCall> {
    if played == [] then [] else TurnCalls(played[0].0, played[0].1) + CallsMade(played[1..])
  }

  lemma RoundLists(bus: Bus, caps: seq<Capability>, clientId: u32, turn: Turn, c: u32)
    requires FirstFor(bus.queue, clientId) < |bus.queue|
    ensures var m, after := bus.queue[FirstFor(bus.queue, clientId)], Play(bus, caps, clientId, turn).bus.subscribers;
      && (c in after <==> c in bus.subscribers || AnySubscribes(TurnCalls(turn, m), c))
      && bus.subscribers <= after
  {
    var taken := RemovedAt(bus, FirstFor(bus.queue, clientId));
    CallsList(taken, caps, turn.allocate.calls, c);
    CallsList(AllCalled(taken, caps, turn.allocate.calls), caps, turn.receive.calls, c);
    AnyOfTwo(turn.allocate.calls, turn.receive.calls, c);
    AnyOfTwo(turn.allocate.calls, [], c);
    assert turn.allocate.result.Trap? ==> !BufferOffered(turn);
  }

  lemma {:induction false} DeliveryLists(bus: Bus, caps: seq<Capability>, clientId: u32, turns: seq<Turn>, c: u32)
    ensures var after := Deliver(bus, caps, clientId, turns).bus.subscribers;
      && (c in after <==> c in bus.subscribers || AnySubscribes(CallsMade(Played(bus, caps, clientId, turns)), c))
      && bus.subscribers <= after
    decreases |turns|
  {
    if FirstFor(bus.queue, clientId) < |bus.queue| && turns != [] {
      var round := Play(bus, caps, clientId, turns[0]);
      var first := TurnCalls(turns[0], bus.queue[FirstFor(bus.queue, clientId)]);
      RoundLists(bus, caps, clientId, turns[0], c);
      var rest := if round.stop.Some? then [] else Played(round.bus, caps, clientId, turns[1..]);
      assert Played(bus, caps, clientId, turns)[1..] == rest;
      AnyOfTwo(first, CallsMade(rest), c);
      if round.stop.None? {
        DeliveryLists(round.bus, caps, clientId, turns[1..], c);
      }
    }
  }

  /** The host calls made in one step of a run. */
  function StepCalls(bus: Bus, op: Op): seq<HostCall> {
    match op
    case Host(_, call) => [call]
    case DeliverTo(caps, clientId, turns) => CallsMade(Played(bus, caps, clientId, turns))
    case Clear => []
  }

  function RunCalls(bus: Bus, ops: seq<Op>): seq<HostCall>
    decreases |ops|
  {
    if ops == [] then [] else StepCalls(bus, ops[0]) + RunCalls(Step(bus, ops[0]), ops[1..])
  }

  /**
   * Subscribing subscribes, for good: over any run a client is listed if and only if it was at the start, or
   * made an accepted subscribe call in the run, on its own or inside a callback. The list only grows at its end.
   */
  lemma {:induction false} ListedExactly(bus: Bus, ops: seq<Op>, c: u32)
    ensures var after := Run(bus, ops).subscribers;
      && (c in after <==> c in bus.subscribers || AnySubscribes(RunCalls(bus, ops), c))
      && bus.subscribers <= after
    decreases |ops|
  {
    if ops != [] {
      var next := Step(bus, ops[0]);
      match ops[0] {
        case Host(caps, call) => SubscribeOutcome(bus, caps, call, c);
        case DeliverTo(caps, clientId, turns) => DeliveryLists(bus, caps, clientId, turns, c);
        case Clear =>
      }
      ListedExactly(next, ops[1..], c);
      AnyOfTwo(StepCalls(bus, ops[0]), RunCalls(next, ops[1..]), c);
    }
  }

  /**
   * From subscription to message: whoever made an accepted subscribe call in a run gets a copy of every
   * accepted publish after it that finds room for all subscribers.
   */
  lemma SubscriberGetsACopy(bus: Bus, ops: seq<Op>, c: u32, caps: seq<Capability>, call: HostCall)
    requires AnySubscribes(RunCalls(bus, ops), c)
    requires call.MqttPublish? && 0 <= call.len <= 512
    requires InMemory(call.memory, call.topicPtr, call.topicLen) && InMemory(call.memory, call.ptr, call.len)
    requires var before := Run(bus, ops); |before.queue| + |before.subscribers| <= 64
    ensures IpcMessage(c, call.memory.value[call.ptr..call.ptr + call.len]) in Called(Run(bus, ops), caps, call).queue
  {
    var before := Run(bus, ops);
    ListedExactly(bus, ops, c);
    PublishOutcome(before, caps, call.memory, call.topicPtr, call.topicLen, call.ptr, call.len);
    var i :| 0 <= i < |before.subscribers| && before.subscribers[i] == c;
    assert Called(before, caps, call).queue[|before.queue| + i]
        == IpcMessage(c, call.memory.value[call.ptr..call.ptr + call.len]);
  }
}
