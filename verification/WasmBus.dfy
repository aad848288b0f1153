/** The shared WASM message queue: host calls that fill it and the loop that drains it (src/wasm_runtime.rs). */
module WasmBus {
  import opened Prelude
  import opened Capabilities

  const MAX_IPC_MESSAGE_SIZE: nat := 512
  const MAX_IPC_QUEUE_DEPTH: nat := 64

  type Bytes = seq<bv8>

  /** A 32-bit linear memory never exceeds 4 GiB. */
  type WasmMemory = m: Bytes | |m| <= 0x1_0000_0000

  datatype IpcMessage = IpcMessage(destClientId: u32, message: Bytes)

  /** The global queue and the global subscriber list. */
  datatype Bus = Bus(queue: seq<IpcMessage>, subscribers: seq<u32>)

  /** `as usize` on an `i32` sign-extends to 64 bits. */
  function AsUsize(i: i32): u64 {
    if i >= 0 then i else i + TWO_64
  }

  function SaturatingAdd(a: u64, b: u64): u64 {
    if a + b < TWO_64 then a + b else TWO_64 - 1
  }

  /** `as i32` on a `usize` keeps the low 32 bits. */
  function AsI32(n: nat): i32 {
    var low := n % TWO_32;
    if low < 0x8000_0000 then low else low - TWO_32
  }

  function FindCapability(caps: seq<Capability>, resourceType: ResourceType, resourceId: u64): Option<Capability> {
    if caps == [] then None
    else if caps[0].resourceType == resourceType && caps[0].resourceId == resourceId then Some(caps[0])
    else FindCapability(caps[1..], resourceType, resourceId)
  }

  /** A host call by a guest, with the memory it exports at that moment. */
  datatype HostCall =
    | IpcSend(dest: u32, memory: Option<WasmMemory>, ptr: i32, len: i32)
    | MqttPublish(memory: Option<WasmMemory>, topicPtr: i32, topicLen: i32, ptr: i32, len: i32)
    | MqttSubscribe(clientId: u32, memory: Option<WasmMemory>, topicPtr: i32, topicLen: i32)

  /** A host function returns a code to the guest, or brings the kernel down. */
  datatype Reply = Code(code: i32) | Panic

  predicate TooLarge(len: i32) {
    len < 0 || AsUsize(len) > MAX_IPC_MESSAGE_SIZE
  }

  predicate OutOfBounds(memory: WasmMemory, ptr: i32, len: i32) {
    SaturatingAdd(AsUsize(ptr), AsUsize(len)) > |memory|
  }

  /** The saturating check on sign-extended arguments accepts exactly the ranges inside the memory. */
  lemma BoundsCheckIsExact(memory: WasmMemory, ptr: i32, len: i32)
    ensures !OutOfBounds(memory, ptr, len) <==> 0 <= ptr && 0 <= len && ptr + len <= |memory|
  {
  }

  function Slice(memory: WasmMemory, ptr: i32, len: i32): Bytes
    requires !OutOfBounds(memory, ptr, len)
  {
    BoundsCheckIsExact(memory, ptr, len);
    memory[ptr..ptr + len]
  }

  function IpcSendCode(bus: Bus, caps: seq<Capability>, dest: u32, memory: Option<WasmMemory>, ptr: i32,
                       len: i32): i32
  {
    var cap := FindCapability(caps, Endpoint, dest);
    if TooLarge(len) then -4
    else if cap.None? then -1
    else if !cap.value.rights.write then -2
    else if memory.None? || OutOfBounds(memory.value, ptr, len) then -3
    else if |bus.queue| >= MAX_IPC_QUEUE_DEPTH then -5
    else 0
  }

  function PublishCode(bus: Bus, memory: Option<WasmMemory>, topicPtr: i32, topicLen: i32, ptr: i32, len: i32): i32 {
    if TooLarge(len) then -4
    else if memory.None? then -1
    else if OutOfBounds(memory.value, topicPtr, topicLen) || OutOfBounds(memory.value, ptr, len) then -3
    else AsI32(|bus.subscribers|)
  }

  predicate PublishAccepted(memory: Option<WasmMemory>, topicPtr: i32, topicLen: i32, ptr: i32, len: i32) {
    !TooLarge(len) && memory.Some? && !OutOfBounds(memory.value, topicPtr, topicLen)
      && !OutOfBounds(memory.value, ptr, len)
  }

  /** The sum of the two arguments wraps, and a slice that then starts after its end panics. */
  function SubscribeReply(memory: Option<WasmMemory>, topicPtr: i32, topicLen: i32): Reply {
    var end := (AsUsize(topicPtr) + AsUsize(topicLen)) % TWO_64;
    if memory.None? || end > |memory.value| then Code(-1)
    else if AsUsize(topicPtr) > end then Panic
    else Code(0)
  }

  function Max(a: int, b: int): int {
    if a >= b then a else b
  }

  function FanOut(subscribers: seq<u32>, message: Bytes): seq<IpcMessage> {
    seq(|subscribers|, i requires 0 <= i < |subscribers| => IpcMessage(subscribers[i], message))
  }

  /** How many subscribers a publish reaches: one queue slot each, while slots last. */
  function Reached(bus: Bus): nat {
    Min(|bus.subscribers|, Max(0, MAX_IPC_QUEUE_DEPTH - |bus.queue|))
  }

  /** The messages a host call appends to the queue. */
  function Appended(bus: Bus, caps: seq<Capability>, call: HostCall): seq<IpcMessage> {
    match call
    case IpcSend(dest, memory, ptr, len) =>
      if IpcSendCode(bus, caps, dest, memory, ptr, len) == 0
      then [IpcMessage(dest, Slice(memory.value, ptr, len))] else []
    case MqttPublish(memory, topicPtr, topicLen, ptr, len) =>
      if PublishAccepted(memory, topicPtr, topicLen, ptr, len)
      then FanOut(bus.subscribers[..Reached(bus)], Slice(memory.value, ptr, len)) else []
    case MqttSubscribe(_, _, _, _) => []
  }

  function Subscribed(subscribers: seq<u32>, clientId: u32): seq<u32> {
    if clientId in subscribers then subscribers else subscribers + [clientId]
  }

  /** After a panic nothing runs; the model leaves the state as it was. */
  function Called(bus: Bus, caps: seq<Capability>, call: HostCall): Bus {
    Bus(bus.queue + Appended(bus, caps, call),
        if call.MqttSubscribe? && SubscribeReply(call.memory, call.topicPtr, call.topicLen) == Code(0)
        then Subscribed(bus.subscribers, call.clientId) else bus.subscribers)
  }

  // ----- Delivery -----

  /** What a guest function does when the kernel calls it: host calls, then a result. */
  datatype CallResult = Trap | NoValue | OtherValue | I32(value: i32)
  datatype Callback = Callback(calls: seq<HostCall>, result: CallResult)

  /**
   * One round of the delivery loop as the guest plays it: its answer to `allocate_message_buffer`, the
   * size of the memory it exports afterwards, and its answer to `subscriber_receive`. A missing function
   * is a trap without host calls. Lists of turns cover every guest, however it chooses its answers.
   */
  datatype Turn = Turn(allocate: Callback, memorySize: Option<u64>, receive: Callback)

  /** A message the kernel put on the queue, and the call it came from. */
  datatype Origin = Origin(message: IpcMessage, caps: seq<Capability>, call: HostCall, before: Bus)

  /** A message taken off the queue for good; `payload` is what the guest accepted, if it did. */
  datatype Consumed = Consumed(message: IpcMessage, payload: Option<Bytes>)

  /** Why the loop ended. `OutOfTurns`: the turns given end before the loop does. */
  datatype Stop = Drained | Requeued(extra: nat) | NoMemory | OutOfTurns

  datatype Delivery = Delivery(bus: Bus, consumed: seq<Consumed>, enqueued: seq<Origin>, stop: Stop) {
    /** This delivery, preceded by one more consumed message and the enqueues that went with it. */
    function After(c: Consumed, origins: seq<Origin>): Delivery {
      this.(consumed := [c] + consumed, enqueued := origins + enqueued)
    }
  }

  function Origins(bus: Bus, caps: seq<Capability>, call: HostCall): seq<Origin> {
    var messages := Appended(bus, caps, call);
    seq(|messages|, i requires 0 <= i < |messages| => Origin(messages[i], caps, call, bus))
  }

  function AllCalled(bus: Bus, caps: seq<Capability>, calls: seq<HostCall>): Bus
    decreases |calls|
  {
    if calls == [] then bus else AllCalled(Called(bus, caps, calls[0]), caps, calls[1..])
  }

  function AllOrigins(bus: Bus, caps: seq<Capability>, calls: seq<HostCall>): seq<Origin>
    decreases |calls|
  {
    if calls == [] then [] else Origins(bus, caps, calls[0]) + AllOrigins(Called(bus, caps, calls[0]), caps, calls[1..])
  }

  /** The index of the first message for a client, or the length of the queue. */
  function FirstFor(queue: seq<IpcMessage>, clientId: u32): (pos: nat)
    ensures pos <= |queue|
    ensures pos < |queue| ==> queue[pos].destClientId == clientId
    ensures forall i :: 0 <= i < pos ==> queue[i].destClientId != clientId
  {
    if queue == [] || queue[0].destClientId == clientId then 0 else 1 + FirstFor(queue[1..], clientId)
  }

  function RemovedAt(bus: Bus, pos: nat): Bus
    requires pos < |bus.queue|
  {
    bus.(queue := bus.queue[..pos] + bus.queue[pos + 1..])
  }

  /** The payload offered to the guest is cut to the size limit. */
  function PayloadLen(m: IpcMessage): nat {
    Min(|m.message|, MAX_IPC_MESSAGE_SIZE)
  }

  predicate BufferFits(turn: Turn, m: IpcMessage) {
    turn.memorySize.Some? && turn.allocate.result.I32?
    && SaturatingAdd(AsUsize(turn.allocate.result.value), PayloadLen(m)) <= turn.memorySize.value
  }

  predicate BufferOffered(turn: Turn) {
    turn.allocate.result.I32? && turn.allocate.result.value > 0
  }

  function Accepted(turn: Turn, m: IpcMessage): Consumed {
    Consumed(m, if turn.receive.result.Trap? then None else Some(m.message[..PayloadLen(m)]))
  }

  /** What one round does: `consumed` is absent when the message goes back, `stop` present when the loop ends. */
  datatype Round = Round(bus: Bus, consumed: Option<Consumed>, origins: seq<Origin>, stop: Option<Stop>)

  function Play(bus: Bus, caps: seq<Capability>, clientId: u32, turn: Turn): Round
    requires FirstFor(bus.queue, clientId) < |bus.queue|
  {
    var pos := FirstFor(bus.queue, clientId);
    var m, taken := bus.queue[pos], RemovedAt(bus, pos);
    var asked := AllCalled(taken, caps, turn.allocate.calls);
    var origins := AllOrigins(taken, caps, turn.allocate.calls);
    if turn.allocate.result.Trap? then
      Round(asked.(queue := [m] + asked.queue), None, origins, Some(Requeued(|origins|)))
    else if !BufferOffered(turn) then
      Round(asked, Some(Consumed(m, None)), origins, None)
    else if turn.memorySize.None? then
      Round(asked, Some(Consumed(m, None)), origins, Some(NoMemory))
    else if !BufferFits(turn, m) then
      Round(asked, Some(Consumed(m, None)), origins, None)
    else
      Round(AllCalled(asked, caps, turn.receive.calls), Some(Accepted(turn, m)),
            origins + AllOrigins(asked, caps, turn.receive.calls), None)
  }

  function Deliver(bus: Bus, caps: seq<Capability>, clientId: u32, turns: seq<Turn>): Delivery
    decreases |turns|
  {
    if FirstFor(bus.queue, clientId) == |bus.queue| then Delivery(bus, [], [], Drained)
    else if turns == [] then Delivery(bus, [], [], OutOfTurns)
    else
      var round := Play(bus, caps, clientId, turns[0]);
      if round.stop.Some? then
        var consumed := if round.consumed.Some? then [round.consumed.value] else [];
        Delivery(round.bus, consumed, round.origins, round.stop.value)
      else
        Deliver(round.bus, caps, clientId, turns[1..]).After(round.consumed.value, round.origins)
  }

  function DeliveredCount(consumed: seq<Consumed>): nat {
    if consumed == [] then 0 else (if consumed[0].payload.Some? then 1 else 0) + DeliveredCount(consumed[1..])
  }

  class MessageBus {
    var queue: seq<IpcMessage>
    var subscribers: seq<u32>

    constructor ()
      ensures State() == Bus([], [])
    {
      queue := [];
      subscribers := [];
    }

    function State(): Bus
      reads this
    {
      Bus(queue, subscribers)
    }

    method HostSysIpcSend(caps: seq<Capability>, dest: u32, memory: Option<WasmMemory>, msgPtr: i32, msgLen: i32)
      returns (code: i32)
      modifies this`queue
      ensures State() == Called(old(State()), caps, IpcSend(dest, memory, msgPtr, msgLen))
      ensures code == IpcSendCode(old(State()), caps, dest, memory, msgPtr, msgLen)
    {
      var length := AsUsize(msgLen);
      if msgLen < 0 || length > MAX_IPC_MESSAGE_SIZE {
        return -4;
      }
      var cap := FindCapability(caps, Endpoint, dest);
      if cap.None? {
        return -1;
      }
      if !cap.value.rights.write {
        return -2;
      }
      if memory.None? {
        return -3;
      }
      var start := AsUsize(msgPtr);
      if SaturatingAdd(start, length) > |memory.value| {
        return -3;
      }
      var msg := memory.value[start..start + length];
      if |queue| >= MAX_IPC_QUEUE_DEPTH {
        return -5;
      }
      queue := queue + [IpcMessage(dest, msg)];
      return 0;
    }

    method HostSysMqttPublish(memory: Option<WasmMemory>, topicPtr: i32, topicLen: i32, msgPtr: i32, msgLen: i32)
      returns (code: i32)
      modifies this`queue
      ensures forall caps ::
        State() == Called(old(State()), caps, MqttPublish(memory, topicPtr, topicLen, msgPtr, msgLen))
      ensures code == PublishCode(old(State()), memory, topicPtr, topicLen, msgPtr, msgLen)
    {
      var length := AsUsize(msgLen);
      if msgLen < 0 || length > MAX_IPC_MESSAGE_SIZE {
        return -4;
      }
      if memory.None? {
        return -1;
      }
      var start := AsUsize(msgPtr);
      if SaturatingAdd(AsUsize(topicPtr), AsUsize(topicLen)) > |memory.value|
        || SaturatingAdd(start, length) > |memory.value|
      {
        return -3;
      }
      var msg := memory.value[start..start + length];
      var i := 0;
      while i < |subscribers| && |queue| < MAX_IPC_QUEUE_DEPTH
        invariant 0 <= i <= |subscribers| && subscribers == old(subscribers)
        invariant i <= Max(0, MAX_IPC_QUEUE_DEPTH - |old(queue)|)
        invariant queue == old(queue) + FanOut(subscribers[..i], msg)
      {
        assert FanOut(subscribers[..i + 1], msg) == FanOut(subscribers[..i], msg) + [IpcMessage(subscribers[i], msg)];
        queue := queue + [IpcMessage(subscribers[i], msg)];
        i := i + 1;
      }
      assert i == Reached(old(State()));
      code := AsI32(|subscribers|);
    }

    method HostSysMqttSubscribe(clientId: u32, memory: Option<WasmMemory>, topicPtr: i32, topicLen: i32)
      returns (r: Reply)
      modifies this`subscribers
      ensures forall caps :: State() == Called(old(State()), caps, MqttSubscribe(clientId, memory, topicPtr, topicLen))
      ensures r == SubscribeReply(memory, topicPtr, topicLen)
    {
      if memory.None? {
        return Code(-1);
      }
      var start := AsUsize(topicPtr);
      var end := (start + AsUsize(topicLen)) % TWO_64;
      if end > |memory.value| {
        return Code(-1);
      }
      if start > end {
        return Panic;
      }
      if clientId !in subscribers {
        subscribers := subscribers + [clientId];
      }
      return Code(0);
    }

    method Perform(caps: seq<Capability>, calls: seq<HostCall>)
      modifies this
      ensures State() == AllCalled(old(State()), caps, calls)
    {
      var i := 0;
      while i < |calls|
        invariant 0 <= i <= |calls|
        invariant AllCalled(State(), caps, calls[i..]) == AllCalled(old(State()), caps, calls)
      {
        ghost var before := State();
        match calls[i] {
          case IpcSend(dest, memory, ptr, len) =>
            var _ := HostSysIpcSend(caps, dest, memory, ptr, len);
          case MqttPublish(memory, topicPtr, topicLen, ptr, len) =>
            var _ := HostSysMqttPublish(memory, topicPtr, topicLen, ptr, len);
          case MqttSubscribe(clientId, memory, topicPtr, topicLen) =>
            var _ := HostSysMqttSubscribe(clientId, memory, topicPtr, topicLen);
        }
        assert State() == Called(before, caps, calls[i]);
        assert calls[i..][1..] == calls[i + 1..];
        i := i + 1;
      }
    }

    /** Find and remove the first message for a client. */
    method TakeFirst(clientId: u32) returns (r: Option<IpcMessage>)
      modifies this`queue
      ensures var pos := FirstFor(old(queue), clientId);
        if pos == |old(queue)| then r == None && queue == old(queue)
        else r == Some(old(queue)[pos]) && State() == RemovedAt(old(State()), pos)
    {
      var pos := 0;
      while pos < |queue| && queue[pos].destClientId != clientId
        invariant 0 <= pos <= |queue|
        invariant forall i :: 0 <= i < pos ==> queue[i].destClientId != clientId
      {
        pos := pos + 1;
      }
      if pos == |queue| {
        return None;
      }
      r := Some(queue[pos]);
      queue := queue[..pos] + queue[pos + 1..];
    }

    /** The loop runs until it ends by itself or the given turns are used up. */
    method DeliverPendingMessages(caps: seq<Capability>, clientId: u32, turns: seq<Turn>) returns (delivered: nat)
      modifies this
      ensures State() == Deliver(old(State()), caps, clientId, turns).bus
      ensures delivered == DeliveredCount(Deliver(old(State()), caps, clientId, turns).consumed)
    {
      delivered := 0;
      var i := 0;
      while i < |turns|
        invariant 0 <= i <= |turns|
        invariant Deliver(State(), caps, clientId, turns[i..]).bus == Deliver(old(State()), caps, clientId, turns).bus
        invariant delivered + DeliveredCount(Deliver(State(), caps, clientId, turns[i..]).consumed)
               == DeliveredCount(Deliver(old(State()), caps, clientId, turns).consumed)
      {
        var turn := turns[i];
        assert turns[i..][0] == turn && turns[i..][1..] == turns[i + 1..];
        var message := TakeFirst(clientId);
        if message.None? {
          return;
        }
        Perform(caps, turn.allocate.calls);
        if turn.allocate.result.Trap? {
          queue := [message.value] + queue;
          return;
        }
        i := i + 1;
        if !(turn.allocate.result.I32? && turn.allocate.result.value > 0) {
          continue;
        }
        if turn.memorySize.None? {
          return;
        }
        var length := Min(|message.value.message|, MAX_IPC_MESSAGE_SIZE);
        if SaturatingAdd(AsUsize(turn.allocate.result.value), length) > turn.memorySize.value {
          continue;
        }
        Perform(caps, turn.receive.calls);
        if !turn.receive.result.Trap? {
          delivered := delivered + 1;
        }
      }
    }
  }
}
