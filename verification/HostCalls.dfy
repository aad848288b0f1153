/** What each host call answers and does, in terms of its arguments (src/wasm_runtime.rs). */
module HostCalls {
  import opened Prelude
  import opened Capabilities
  import opened WasmBus
  import opened DeliveryRuns

  /** `caps[i]` is the first endpoint capability for `dest`. */
  ghost predicate FirstFound(caps: seq<Capability>, dest: u32, i: int) {
    && 0 <= i < |caps| && caps[i].resourceType == Endpoint && caps[i].resourceId == dest
    && forall j :: 0 <= j < i ==> !(caps[j].resourceType == Endpoint && caps[j].resourceId == dest)
  }

  lemma {:induction false} FoundExactly(caps: seq<Capability>, dest: u32) returns (i: nat)
    ensures i <= |caps| && (FindCapability(caps, Endpoint, dest).None? <==> i == |caps|)
    ensures i < |caps| ==> FirstFound(caps, dest, i) && FindCapability(caps, Endpoint, dest) == Some(caps[i])
    ensures i == |caps| ==> forall j :: !FirstFound(caps, dest, j)
  {
    if caps == [] {
      i := 0;
    } else if caps[0].resourceType == Endpoint && caps[0].resourceId == dest {
      i := 0;
    } else {
      i := FoundExactly(caps[1..], dest);
      i := i + 1;
      if i == |caps| {
        forall j
          ensures !FirstFound(caps, dest, j)
        {
          assert FirstFound(caps, dest, j) ==> FirstFound(caps[1..], dest, j - 1);
        }
      }
    }
  }

  /** Two capabilities that come first for the same destination are the same one. */
  lemma FirstIsUnique(caps: seq<Capability>, dest: u32, i: int, j: int)
    requires FirstFound(caps, dest, i) && FirstFound(caps, dest, j)
    ensures i == j
  {
  }

  ghost predicate InMemory(memory: Option<WasmMemory>, ptr: i32, len: i32) {
    memory.Some? && 0 <= ptr && 0 <= len && ptr + len <= |memory.value|
  }

  ghost predicate MaySend(caps: seq<Capability>, dest: u32) {
    exists i :: FirstFound(caps, dest, i) && caps[i].rights.write
  }

  /**
   * `sys_ipc_send`: accepted exactly when the size, the first matching capability, the memory range and the
   * queue all allow it, and then that range is the new last message; any refusal changes nothing. The code
   * names the first check that failed.
   */
  lemma SendOutcome(bus: Bus, caps: seq<Capability>, dest: u32, memory: Option<WasmMemory>, ptr: i32, len: i32)
    ensures var code := IpcSendCode(bus, caps, dest, memory, ptr, len);
      var after := Called(bus, caps, IpcSend(dest, memory, ptr, len));
      var sized, found, allowed := 0 <= len <= 512, exists i :: FirstFound(caps, dest, i), MaySend(caps, dest);
      && (code == -4 <==> !sized)
      && (code == -1 <==> sized && !found)
      && (code == -2 <==> sized && found && !allowed)
      && (code == -3 <==> sized && allowed && !InMemory(memory, ptr, len))
      && (code == -5 <==> sized && allowed && InMemory(memory, ptr, len) && |bus.queue| >= 64)
      && (code == 0 <==> sized && allowed && InMemory(memory, ptr, len) && |bus.queue| < 64)
      && after.subscribers == bus.subscribers
      && after.queue == if code == 0 then bus.queue + [IpcMessage(dest, memory.value[ptr..ptr + len])] else bus.queue
  {
    var i := FoundExactly(caps, dest);
    if i < |caps| {
      forall j | FirstFound(caps, dest, j)
        ensures j == i
      {
        FirstIsUnique(caps, dest, i, j);
      }
    }
    if memory.Some? {
      BoundsCheckIsExact(memory.value, ptr, len);
    }
  }

  /**
   * `sys_mqtt_publish`: needs no capability, only a size of at most 512 and two ranges inside the memory; then
   * the first subscribers get one copy each, in order, while the queue is below 64. The answer is the number
   * of subscribers cut to 32 bits, or names the first check that failed, and then nothing changes.
   */
  lemma PublishOutcome(bus: Bus, caps: seq<Capability>, memory: Option<WasmMemory>,
                       topicPtr: i32, topicLen: i32, ptr: i32, len: i32)
    ensures var code := PublishCode(bus, memory, topicPtr, topicLen, ptr, len);
      var after := Called(bus, caps, MqttPublish(memory, topicPtr, topicLen, ptr, len));
      var inMemory := InMemory(memory, topicPtr, topicLen) && InMemory(memory, ptr, len);
      && (!(0 <= len <= 512) ==> code == -4)
      && (0 <= len <= 512 && memory.None? ==> code == -1)
      && (0 <= len <= 512 && memory.Some? && !inMemory ==> code == -3)
      && (0 <= len <= 512 && inMemory ==> (code - |bus.subscribers|) % 0x1_0000_0000 == 0)
      && after.subscribers == bus.subscribers
      && (!(0 <= len <= 512 && inMemory) ==> after.queue == bus.queue)
      && (0 <= len <= 512 && inMemory ==>
            && bus.queue <= after.queue
            && |after.queue| == (if |bus.queue| >= 64 then |bus.queue| else Min(64, |bus.queue| + |bus.subscribers|))
            && forall i :: |bus.queue| <= i < |after.queue| ==>
                 after.queue[i] == IpcMessage(bus.subscribers[i - |bus.queue|], memory.value[ptr..ptr + len]))
  {
    if memory.Some? {
      BoundsCheckIsExact(memory.value, topicPtr, topicLen);
      BoundsCheckIsExact(memory.value, ptr, len);
    }
    CutToI32(|bus.subscribers|);
  }

  lemma CutToI32(n: nat)
    ensures (AsI32(n) - n) % 0x1_0000_0000 == 0
  {
    var q, low := n / TWO_32, n % TWO_32;
    if low < 0x8000_0000 {
      DivModUnique(AsI32(n) - n, TWO_32, -q, 0);
    } else {
      DivModUnique(AsI32(n) - n, TWO_32, -q - 1, 0);
    }
  }

  /** A call by which client `c` subscribes with a topic inside the memory of its module. */
  ghost predicate Subscribes(call: HostCall, c: u32) {
    call.MqttSubscribe? && call.clientId == c && InMemory(call.memory, call.topicPtr, call.topicLen)
  }

  /**
   * `sys_mqtt_subscribe`: with a topic inside the memory it lists the client, at the end unless it is listed
   * already, and answers 0; otherwise it changes nothing. No call touches the subscribers in another way.
   */
  lemma SubscribeOutcome(bus: Bus, caps: seq<Capability>, call: HostCall, c: u32)
    ensures var after := Called(bus, caps, call);
      && (c in after.subscribers <==> c in bus.subscribers || Subscribes(call, c))
      && bus.subscribers <= after.subscribers
      && |after.subscribers| <= |bus.subscribers| + 1
      && (call.MqttSubscribe? && call.clientId in bus.subscribers ==> after.subscribers == bus.subscribers)
      && (call.MqttSubscribe? ==> after.queue == bus.queue)
      && (call.MqttSubscribe? ==>
            (SubscribeReply(call.memory, call.topicPtr, call.topicLen) == Code(0) <==> Subscribes(call, call.clientId)))
      && (call.MqttSubscribe? && call.memory.None? ==>
            SubscribeReply(call.memory, call.topicPtr, call.topicLen) == Code(-1))
  {
    if call.MqttSubscribe? && call.memory.Some? {
      SubscribeOutcomes(call.memory.value, call.topicPtr, call.topicLen);
      BoundsCheckIsExact(call.memory.value, call.topicPtr, call.topicLen);
    }
  }
}
