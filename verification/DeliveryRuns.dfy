/** Conservation, order, termination, depth and provenance of the shared queue, for every guest. */
module DeliveryRuns {
  import opened Prelude
  import opened Capabilities
  import opened WasmBus

  function OnlyFor(m: IpcMessage, clientId: u32): seq<IpcMessage> {
    if m.destClientId == clientId then [m] else []
  }

  /** The messages of a client, in queue order. */
  function Pending(queue: seq<IpcMessage>, clientId: u32): seq<IpcMessage> {
    if queue == [] then []
    else OnlyFor(queue[0], clientId) + Pending(queue[1..], clientId)
  }

  function MessagesOf(origins: seq<Origin>): seq<IpcMessage> {
    seq(|origins|, i requires 0 <= i < |origins| => origins[i].message)
  }

  function ConsumedMessages(consumed: seq<Consumed>): seq<IpcMessage> {
    seq(|consumed|, i requires 0 <= i < |consumed| => consumed[i].message)
  }

  lemma {:induction false} PendingConcat(a: seq<IpcMessage>, b: seq<IpcMessage>, clientId: u32)
    ensures Pending(a + b, clientId) == Pending(a, clientId) + Pending(b, clientId)
  {
    if a == [] {
      assert a + b == b;
    } else {
      assert (a + b)[1..] == a[1..] + b;
      PendingConcat(a[1..], b, clientId);
      ConcatAssociates(OnlyFor(a[0], clientId), Pending(a[1..], clientId), Pending(b, clientId));
    }
  }

  lemma {:induction false} PendingNone(queue: seq<IpcMessage>, clientId: u32)
    requires forall i :: 0 <= i < |queue| ==> queue[i].destClientId != clientId
    ensures Pending(queue, clientId) == []
  {
    if queue != [] {
      PendingNone(queue[1..], clientId);
    }
  }

  lemma PendingAround(front: seq<IpcMessage>, m: IpcMessage, back: seq<IpcMessage>, clientId: u32)
    ensures Pending(front + ([m] + back), clientId) == Pending(front, clientId)
      + (OnlyFor(m, clientId) + Pending(back, clientId))
    ensures Pending(front + back, clientId) == Pending(front, clientId) + Pending(back, clientId)
  {
    PendingConcat(front, [m] + back, clientId);
    PendingConcat(front, back, clientId);
    assert ([m] + back)[1..] == back;
  }

  /** Removing the first message for a client takes the head of its pending list and no one else's message. */
  lemma RemovalTakesTheHead(bus: Bus, clientId: u32, other: u32)
    requires FirstFor(bus.queue, clientId) < |bus.queue|
    ensures var pos := FirstFor(bus.queue, clientId);
      Pending(bus.queue, other)
      == (if other == clientId then [bus.queue[pos]] else []) + Pending(RemovedAt(bus, pos).queue, other)
  {
    var pos := FirstFor(bus.queue, clientId);
    SplitAt(bus.queue, pos);
    TakenOut(bus.queue[..pos], bus.queue[pos], bus.queue[pos + 1..], clientId, other);
  }

  /** Taking out `m`, the first message for `clientId`, from between `front` and `back`. */
  lemma TakenOut(front: seq<IpcMessage>, m: IpcMessage, back: seq<IpcMessage>, clientId: u32, other: u32)
    requires m.destClientId == clientId && forall i :: 0 <= i < |front| ==> front[i].destClientId != clientId
    ensures Pending(front + ([m] + back), other)
         == (if other == clientId then [m] else []) + Pending(front + back, other)
  {
    PendingAround(front, m, back, other);
    if other == clientId {
      PendingNone(front, clientId);
      HeadOnly(Pending(back, other), m);
    } else {
      Nothing(Pending(front, other), Pending(back, other));
    }
  }

  lemma SplitAt<T>(s: seq<T>, pos: nat)
    requires pos < |s|
    ensures s == s[..pos] + ([s[pos]] + s[pos + 1..])
  {
  }

  lemma HeadOnly<T>(s: seq<T>, x: T)
    ensures [] + ([x] + s) == [x] + ([] + s)
  {
  }

  lemma Nothing<T>(s: seq<T>, t: seq<T>)
    ensures s + ([] + t) == [] + (s + t)
  {
  }

  lemma FirstForIsPending(queue: seq<IpcMessage>, clientId: u32)
    ensures FirstFor(queue, clientId) == |queue| <==> Pending(queue, clientId) == []
  {
    var pos := FirstFor(queue, clientId);
    if pos == |queue| {
      PendingNone(queue, clientId);
    } else {
      RemovalTakesTheHead(Bus(queue, []), clientId, clientId);
    }
  }

  // ----- Host calls only append -----

  lemma MessagesConcat(a: seq<Origin>, b: seq<Origin>, clientId: u32)
    ensures MessagesOf(a + b) == MessagesOf(a) + MessagesOf(b)
    ensures Pending(MessagesOf(a + b), clientId) == Pending(MessagesOf(a), clientId) + Pending(MessagesOf(b), clientId)
  {
    assert MessagesOf(a + b) == MessagesOf(a) + MessagesOf(b);
    PendingConcat(MessagesOf(a), MessagesOf(b), clientId);
  }

  lemma CallsAppendPending(bus: Bus, caps: seq<Capability>, calls: seq<HostCall>, clientId: u32)
    ensures Pending(AllCalled(bus, caps, calls).queue, clientId)
         == Pending(bus.queue, clientId) + Pending(MessagesOf(AllOrigins(bus, caps, calls)), clientId)
  {
    CallsAppend(bus, caps, calls);
    PendingConcat(bus.queue, MessagesOf(AllOrigins(bus, caps, calls)), clientId);
  }

  lemma OneCall(bus: Bus, caps: seq<Capability>, call: HostCall)
    ensures AllCalled(bus, caps, [call]) == Called(bus, caps, call)
    ensures AllOrigins(bus, caps, [call]) == Origins(bus, caps, call)
  {
    var rest := [call][1..];
    assert rest == [];
    assert AllCalled(Called(bus, caps, call), caps, rest) == Called(bus, caps, call);
  }

  lemma AppendBoth<T>(p: seq<T>, a: seq<T>, b: seq<T>, out: seq<T>, q: seq<T>)
    requires p + a == out + q
    ensures p + (a + b) == out + (q + b)
  {
    assert p + (a + b) == (p + a) + b;
    assert out + (q + b) == (out + q) + b;
  }

  lemma OneCallAppends(bus: Bus, caps: seq<Capability>, call: HostCall)
    ensures Called(bus, caps, call).queue == bus.queue + MessagesOf(Origins(bus, caps, call))
  {
    assert MessagesOf(Origins(bus, caps, call)) == Appended(bus, caps, call);
  }

  lemma {:induction false} CallsAppend(bus: Bus, caps: seq<Capability>, calls: seq<HostCall>)
    ensures AllCalled(bus, caps, calls).queue == bus.queue + MessagesOf(AllOrigins(bus, caps, calls))
    decreases |calls|
  {
    if calls != [] {
      var next := Called(bus, caps, calls[0]);
      OneCallAppends(bus, caps, calls[0]);
      CallsAppend(next, caps, calls[1..]);
      var first, rest := Origins(bus, caps, calls[0]), AllOrigins(next, caps, calls[1..]);
      MessagesConcat(first, rest, 0);
      ConcatAssociates(bus.queue, MessagesOf(first), MessagesOf(rest));
    }
  }

  /** No host call pushes the queue past its limit. */
  lemma {:induction false} CallsKeepDepth(bus: Bus, caps: seq<Capability>, calls: seq<HostCall>)
    requires |bus.queue| <= MAX_IPC_QUEUE_DEPTH
    ensures |AllCalled(bus, caps, calls).queue| <= MAX_IPC_QUEUE_DEPTH
    decreases |calls|
  {
    if calls != [] {
      CallsKeepDepth(Called(bus, caps, calls[0]), caps, calls[1..]);
    }
  }

  // ----- Conservation and order -----

  /** What one delivery does to the messages of client `other`: `out` leaves the queue for good. */
  ghost predicate Conserved(bus: Bus, d: Delivery, other: u32, out: seq<IpcMessage>) {
    Pending(bus.queue, other) + Pending(MessagesOf(d.enqueued), other) == out + Pending(d.bus.queue, other)
  }

  /** Going from `bus` to `next` takes `out` from client `other` and appends the messages of `origins`. */
  ghost predicate Moves(bus: Bus, next: Bus, origins: seq<Origin>, other: u32, out: seq<IpcMessage>) {
    Pending(bus.queue, other) + Pending(MessagesOf(origins), other) == out + Pending(next.queue, other)
  }

  /** Taking the head for `clientId` and then letting the guest make calls. */
  lemma TakeThenCalls(bus: Bus, caps: seq<Capability>, clientId: u32, other: u32, calls: seq<HostCall>)
    requires FirstFor(bus.queue, clientId) < |bus.queue|
    ensures var pos := FirstFor(bus.queue, clientId);
      var taken := RemovedAt(bus, pos);
      Moves(bus, AllCalled(taken, caps, calls), AllOrigins(taken, caps, calls), other,
            if other == clientId then [bus.queue[pos]] else [])
  {
    var pos := FirstFor(bus.queue, clientId);
    var taken := RemovedAt(bus, pos);
    var out := if other == clientId then [bus.queue[pos]] else [];
    RemovalTakesTheHead(bus, clientId, other);
    CallsAppendPending(taken, caps, calls, other);
    assert Pending(bus.queue, other) + [] == out + Pending(taken.queue, other);
    var added := Pending(MessagesOf(AllOrigins(taken, caps, calls)), other);
    AppendBoth(Pending(bus.queue, other), [], added, out, Pending(taken.queue, other));
    assert [] + added == added;
  }

  lemma MoreCalls(bus: Bus, mid: Bus, origins: seq<Origin>, caps: seq<Capability>, calls: seq<HostCall>, other: u32,
      out: seq<IpcMessage>)
    requires Moves(bus, mid, origins, other, out)
    ensures Moves(bus, AllCalled(mid, caps, calls), origins + AllOrigins(mid, caps, calls), other, out)
  {
    var more := AllOrigins(mid, caps, calls);
    CallsAppendPending(mid, caps, calls, other);
    MessagesConcat(origins, more, other);
    AppendBoth(Pending(bus.queue, other), Pending(MessagesOf(origins), other), Pending(MessagesOf(more), other), out,
      Pending(mid.queue, other));
  }

  /** A round takes the head of the client's pending list, unless the message goes back to the very front. */
  lemma RoundMoves(bus: Bus, caps: seq<Capability>, clientId: u32, turn: Turn, other: u32)
    requires FirstFor(bus.queue, clientId) < |bus.queue|
    ensures var round := Play(bus, caps, clientId, turn);
      && (round.consumed.Some? ==> round.consumed.value.message == bus.queue[FirstFor(bus.queue, clientId)])
      && Moves(bus, round.bus, round.origins, other,
               if other == clientId && round.consumed.Some? then [round.consumed.value.message] else [])
  {
    var pos := FirstFor(bus.queue, clientId);
    var taken, m := RemovedAt(bus, pos), bus.queue[pos];
    var asked, origins := AllCalled(taken, caps, turn.allocate.calls), AllOrigins(taken, caps, turn.allocate.calls);
    TakeThenCalls(bus, caps, clientId, other, turn.allocate.calls);
    if turn.allocate.result.Trap? {
      PendingConcat([m], asked.queue, other);
    } else if BufferOffered(turn) && BufferFits(turn, m) {
      MoreCalls(bus, asked, origins, caps, turn.receive.calls, other, if other == clientId then [m] else []);
    }
  }

  function Out(d: Delivery, clientId: u32, other: u32): seq<IpcMessage> {
    if other == clientId then ConsumedMessages(d.consumed) else []
  }

  /**
   * Per-client FIFO and conservation, for any guest: the messages pending for the client, followed by
   * those enqueued for it from inside the callbacks, are those consumed, followed by those still
   * pending, in that order. Every other client only has messages appended, in order.
   */
  lemma {:induction false} DeliveryConserves(bus: Bus, caps: seq<Capability>, clientId: u32, turns: seq<Turn>,
      other: u32)
    ensures var d := Deliver(bus, caps, clientId, turns); Conserved(bus, d, other, Out(d, clientId, other))
    decreases |turns|
  {
    if FirstFor(bus.queue, clientId) < |bus.queue| && turns != [] {
      var round := Play(bus, caps, clientId, turns[0]);
      RoundMoves(bus, caps, clientId, turns[0], other);
      if round.stop.Some? {
        assert Out(Deliver(bus, caps, clientId, turns), clientId, other)
          == if other == clientId && round.consumed.Some? then [round.consumed.value.message] else [];
      } else {
        var rest := Deliver(round.bus, caps, clientId, turns[1..]);
        DeliveryConserves(round.bus, caps, clientId, turns[1..], other);
        RoundThenRest(bus, round, rest, clientId, other);
      }
    }
  }

  lemma RoundThenRest(bus: Bus, round: Round, rest: Delivery, clientId: u32, other: u32)
    requires round.consumed.Some? && Conserved(round.bus, rest, other, Out(rest, clientId, other))
    requires Moves(bus, round.bus, round.origins, other,
                   if other == clientId then [round.consumed.value.message] else [])
    ensures var d := rest.After(round.consumed.value, round.origins); Conserved(bus, d, other, Out(d, clientId, other))
  {
    var c := round.consumed.value;
    var d := rest.After(c, round.origins);
    var out := if other == clientId then [c.message] else [];
    assert ConsumedMessages(d.consumed) == [c.message] + ConsumedMessages(rest.consumed);
    assert Out(d, clientId, other) == out + Out(rest, clientId, other);
    MessagesConcat(round.origins, rest.enqueued, other);
    ConservationChain(Pending(bus.queue, other), Pending(MessagesOf(round.origins), other), out,
      Pending(round.bus.queue, other),
      Pending(MessagesOf(rest.enqueued), other), Out(rest, clientId, other), Pending(rest.bus.queue, other));
  }

  /**
   * The loop consumes one message per turn, so it is still running after `n` turns only if more than
   * `n` messages were pending at the start or enqueued for the client meanwhile. A guest that enqueues
   * nothing for itself is drained within its initial pending count.
   */
  lemma LoopEndsInTime(bus: Bus, caps: seq<Capability>, clientId: u32, turns: seq<Turn>)
    ensures var d := Deliver(bus, caps, clientId, turns);
      d.stop == OutOfTurns ==> |turns| < |Pending(bus.queue, clientId)| + |Pending(MessagesOf(d.enqueued), clientId)|
  {
    var d := Deliver(bus, caps, clientId, turns);
    DeliveryConserves(bus, caps, clientId, turns, clientId);
    if d.stop == OutOfTurns {
      TurnsUsed(bus, caps, clientId, turns);
    }
  }

  lemma {:induction false} TurnsUsed(bus: Bus, caps: seq<Capability>, clientId: u32, turns: seq<Turn>)
    requires Deliver(bus, caps, clientId, turns).stop == OutOfTurns
    ensures var d := Deliver(bus, caps, clientId, turns);
      |d.consumed| == |turns| && Pending(d.bus.queue, clientId) != []
    decreases |turns|
  {
    FirstForIsPending(bus.queue, clientId);
    if turns != [] {
      TurnsUsed(Play(bus, caps, clientId, turns[0]).bus, caps, clientId, turns[1..]);
    }
  }

  /** A guest that sends itself a message whenever it receives one. */
  function SelfFeeding(clientId: u32, n: nat): seq<Turn> {
    if n == 0 then []
    else
      var send := IpcSend(clientId, Some([]), 0, 0);
      [Turn(Callback([], I32(1)), Some(1024), Callback([send], NoValue))] + SelfFeeding(clientId, n - 1)
  }

  /** The bound cannot be improved to any constant: such a guest keeps the loop running for as long as it likes. */
  lemma {:induction false} SelfFeedingNeverEnds(bus: Bus, caps: seq<Capability>, clientId: u32, n: nat)
    requires Pending(bus.queue, clientId) != [] && |bus.queue| <= MAX_IPC_QUEUE_DEPTH
    requires FindCapability(caps, Endpoint, clientId).Some?
      && FindCapability(caps, Endpoint, clientId).value.rights.write
    ensures |SelfFeeding(clientId, n)| == n
    ensures Deliver(bus, caps, clientId, SelfFeeding(clientId, n)).stop == OutOfTurns
    decreases n
  {
    FirstForIsPending(bus.queue, clientId);
    if n > 0 {
      var pos := FirstFor(bus.queue, clientId);
      var taken, turns := RemovedAt(bus, pos), SelfFeeding(clientId, n);
      assert turns[1..] == SelfFeeding(clientId, n - 1);
      var send := IpcSend(clientId, Some([]), 0, 0);
      var next := AllCalled(taken, caps, [send]);
      OneCall(taken, caps, send);
      assert next.queue == taken.queue + [IpcMessage(clientId, [])];
      PendingConcat(taken.queue, [IpcMessage(clientId, [])], clientId);
      assert BufferOffered(turns[0]) && BufferFits(turns[0], bus.queue[pos]);
      SelfFeedingNeverEnds(next, caps, clientId, n - 1);
    }
  }

  // ----- Lost messages -----

  /** The guest takes the message: it offers a buffer that fits and its receiver does not trap. */
  predicate Takes(turn: Turn, m: IpcMessage) {
    BufferOffered(turn) && BufferFits(turn, m) && !turn.receive.result.Trap?
  }

  /** A message is lost in a round when it is off the queue for good without having been accepted. */
  predicate Loses(round: Round) {
    round.consumed.Some? && round.consumed.value.payload.None?
  }

  /**
   * A round keeps its promise that no message is lost if and only if the guest takes the message, or
   * fails outright in `allocate_message_buffer`; any other answer destroys it.
   */
  lemma RoundLosesExactly(bus: Bus, caps: seq<Capability>, clientId: u32, turn: Turn)
    requires FirstFor(bus.queue, clientId) < |bus.queue|
    ensures var m := bus.queue[FirstFor(bus.queue, clientId)];
      !Loses(Play(bus, caps, clientId, turn)) <==> turn.allocate.result.Trap? || Takes(turn, m)
  {
    var m := bus.queue[FirstFor(bus.queue, clientId)];
    assert turn.allocate.result.Trap? ==> !BufferOffered(turn);
    assert turn.memorySize.None? ==> !BufferFits(turn, m);
  }

  /** The turns a delivery gets to play, each with the message it is played for. */
  function Played(bus: Bus, caps: seq<Capability>, clientId: u32, turns: seq<Turn>): seq<(Turn, IpcMessage)>
    decreases |turns|
  {
    if FirstFor(bus.queue, clientId) == |bus.queue| || turns == [] then []
    else
      var round := Play(bus, caps, clientId, turns[0]);
      [(turns[0], bus.queue[FirstFor(bus.queue, clientId)])]
      + if round.stop.Some? then [] else Played(round.bus, caps, clientId, turns[1..])
  }

  ghost predicate AllAccepted(consumed: seq<Consumed>) {
    forall c :: c in consumed ==> c.payload.Some?
  }

  ghost predicate AllKept(played: seq<(Turn, IpcMessage)>) {
    forall p :: p in played ==> Kept(p)
  }

  predicate Kept(p: (Turn, IpcMessage)) {
    p.0.allocate.result.Trap? || Takes(p.0, p.1)
  }

  lemma AllKeptCons(p: (Turn, IpcMessage), rest: seq<(Turn, IpcMessage)>)
    ensures AllKept([p] + rest) <==> Kept(p) && AllKept(rest)
  {
    assert forall q :: q in [p] + rest <==> q == p || q in rest;
  }

  lemma AllAcceptedCons(c: Consumed, rest: seq<Consumed>)
    ensures AllAccepted([c] + rest) <==> c.payload.Some? && AllAccepted(rest)
  {
    assert forall d :: d in [c] + rest <==> d == c || d in rest;
  }

  /**
   * A whole delivery loses no message if and only if in every turn played the guest takes the message
   * or traps in the allocation. The returned count shows it: it is then the number of messages taken
   * off the queue, and smaller otherwise.
   */
  lemma {:induction false} DeliveryLosesExactly(bus: Bus, caps: seq<Capability>, clientId: u32, turns: seq<Turn>)
    ensures var consumed := Deliver(bus, caps, clientId, turns).consumed;
      && (AllAccepted(consumed) <==> AllKept(Played(bus, caps, clientId, turns)))
      && (AllAccepted(consumed) <==> DeliveredCount(consumed) == |consumed|)
      && DeliveredCount(consumed) <= |consumed|
    decreases |turns|
  {
    CountIsAll(Deliver(bus, caps, clientId, turns).consumed);
    if FirstFor(bus.queue, clientId) < |bus.queue| && turns != [] {
      var round := Play(bus, caps, clientId, turns[0]);
      var p := (turns[0], bus.queue[FirstFor(bus.queue, clientId)]);
      RoundLosesExactly(bus, caps, clientId, turns[0]);
      if round.stop.Some? {
        AllKeptCons(p, []);
      } else {
        DeliveryLosesExactly(round.bus, caps, clientId, turns[1..]);
        AllKeptCons(p, Played(round.bus, caps, clientId, turns[1..]));
        AllAcceptedCons(round.consumed.value, Deliver(round.bus, caps, clientId, turns[1..]).consumed);
      }
    }
  }

  lemma {:induction false} CountIsAll(consumed: seq<Consumed>)
    ensures DeliveredCount(consumed) <= |consumed|
    ensures DeliveredCount(consumed) == |consumed| <==> AllAccepted(consumed)
  {
    if consumed != [] {
      CountIsAll(consumed[1..]);
      AllAcceptedCons(consumed[0], consumed[1..]);
      assert consumed == [consumed[0]] + consumed[1..];
    }
  }

  function CountTrue(marks: seq<bool>): nat {
    if marks == [] then 0 else (if marks[0] then 1 else 0) + CountTrue(marks[1..])
  }

  lemma {:induction false} CountTrueSnoc(marks: seq<bool>, last: bool)
    ensures CountTrue(marks + [last]) == CountTrue(marks) + if last then 1 else 0
  {
    if marks == [] {
      assert ([] + [last])[1..] == [];
    } else {
      assert (marks + [last])[1..] == marks[1..] + [last];
      CountTrueSnoc(marks[1..], last);
    }
  }

  lemma {:induction false} CountTrueIsCardinality(marks: seq<bool>)
    ensures CountTrue(marks) == |set i | 0 <= i < |marks| && marks[i]|
  {
    if marks != [] {
      var n, init := |marks| - 1, marks[..|marks| - 1];
      assert marks == init + [marks[n]];
      CountTrueSnoc(init, marks[n]);
      CountTrueIsCardinality(init);
      var before := set i | 0 <= i < |init| && init[i];
      assert (set i | 0 <= i < |marks| && marks[i]) == if marks[n] then before + {n} else before;
    }
  }

  function AcceptedMarks(consumed: seq<Consumed>): seq<bool> {
    seq(|consumed|, i requires 0 <= i < |consumed| => consumed[i].payload.Some?)
  }

  function TakenMarks(played: seq<(Turn, IpcMessage)>): seq<bool> {
    seq(|played|, i requires 0 <= i < |played| => Takes(played[i].0, played[i].1))
  }

  lemma {:induction false} CountMarks(consumed: seq<Consumed>)
    ensures DeliveredCount(consumed) == CountTrue(AcceptedMarks(consumed))
  {
    if consumed != [] {
      CountMarks(consumed[1..]);
      assert AcceptedMarks(consumed)[1..] == AcceptedMarks(consumed[1..]);
    }
  }

  lemma {:induction false} CountTaken(bus: Bus, caps: seq<Capability>, clientId: u32, turns: seq<Turn>)
    ensures DeliveredCount(Deliver(bus, caps, clientId, turns).consumed)
         == CountTrue(TakenMarks(Played(bus, caps, clientId, turns)))
    decreases |turns|
  {
    if FirstFor(bus.queue, clientId) < |bus.queue| && turns != [] {
      var round := Play(bus, caps, clientId, turns[0]);
      var played := Played(bus, caps, clientId, turns);
      RoundOutcome(bus, caps, clientId, turns[0]);
      if round.stop.Some? {
        assert TakenMarks(played)[1..] == [];
      } else {
        CountTaken(round.bus, caps, clientId, turns[1..]);
        assert played[1..] == Played(round.bus, caps, clientId, turns[1..]);
        assert TakenMarks(played)[1..] == TakenMarks(played[1..]);
      }
    }
  }

  /**
   * The returned count, for any guest: the number of messages accepted among those taken off the queue,
   * which is the number of turns played in which the guest took its message.
   */
  lemma DeliveryCountsAccepted(bus: Bus, caps: seq<Capability>, clientId: u32, turns: seq<Turn>)
    ensures var consumed, played := Deliver(bus, caps, clientId, turns).consumed, Played(bus, caps, clientId, turns);
      && DeliveredCount(consumed) == |set i | 0 <= i < |consumed| && consumed[i].payload.Some?|
      && DeliveredCount(consumed) == |set i | 0 <= i < |played| && Takes(played[i].0, played[i].1)|
  {
    var consumed, played := Deliver(bus, caps, clientId, turns).consumed, Played(bus, caps, clientId, turns);
    CountMarks(consumed);
    CountTrueIsCardinality(AcceptedMarks(consumed));
    assert (set i | 0 <= i < |consumed| && consumed[i].payload.Some?)
        == set i | 0 <= i < |AcceptedMarks(consumed)| && AcceptedMarks(consumed)[i];
    CountTaken(bus, caps, clientId, turns);
    CountTrueIsCardinality(TakenMarks(played));
    assert (set i | 0 <= i < |played| && Takes(played[i].0, played[i].1))
        == set i | 0 <= i < |TakenMarks(played)| && TakenMarks(played)[i];
  }

  /** A guest takes a message exactly by a positive pointer to a buffer inside its memory and a normal return. */
  lemma TakesExactly(turn: Turn, m: IpcMessage)
    ensures Takes(turn, m) <==>
      && turn.allocate.result.I32? && turn.allocate.result.value > 0 && turn.memorySize.Some?
      && turn.allocate.result.value + Min(|m.message|, 512) <= turn.memorySize.value
      && !turn.receive.result.Trap?
  {
  }

  /**
   * How a round ends. A failing allocation puts the message back and ends the loop, a missing memory ends it
   * too, and everything else goes on; what an accepting guest is handed are the first 512 bytes.
   */
  lemma RoundOutcome(bus: Bus, caps: seq<Capability>, clientId: u32, turn: Turn)
    requires FirstFor(bus.queue, clientId) < |bus.queue|
    ensures var m, round := bus.queue[FirstFor(bus.queue, clientId)], Play(bus, caps, clientId, turn);
      var failed := turn.allocate.result.Trap?;
      && round.consumed == (if failed then None
           else Some(Consumed(m, if Takes(turn, m) then Some(m.message[..Min(|m.message|, 512)]) else None)))
      && (failed <==> round.stop == Some(Requeued(|round.origins|)))
      && (round.stop == Some(NoMemory) <==>
            turn.allocate.result.I32? && turn.allocate.result.value > 0 && turn.memorySize.None?)
      && (round.stop.Some? ==> failed || round.stop == Some(NoMemory))
  {
  }

  /** The queue after a round: a message that is put back stands at the very front, host calls add at the end. */
  lemma RoundQueue(bus: Bus, caps: seq<Capability>, clientId: u32, turn: Turn)
    requires FirstFor(bus.queue, clientId) < |bus.queue|
    ensures var pos, round := FirstFor(bus.queue, clientId), Play(bus, caps, clientId, turn);
      round.bus.queue == (if turn.allocate.result.Trap? then [bus.queue[pos]] else [])
                       + (bus.queue[..pos] + bus.queue[pos + 1..] + MessagesOf(round.origins))
  {
    var taken := RemovedAt(bus, FirstFor(bus.queue, clientId));
    var asked := AllCalled(taken, caps, turn.allocate.calls);
    CallsAppend(taken, caps, turn.allocate.calls);
    Nothing([], asked.queue);
    var m := bus.queue[FirstFor(bus.queue, clientId)];
    if !turn.allocate.result.Trap? && BufferOffered(turn) && BufferFits(turn, m) {
      CallsAppendAgain(taken, caps, turn.allocate.calls, turn.receive.calls);
    }
  }

  lemma CallsAppendAgain(bus: Bus, caps: seq<Capability>, calls: seq<HostCall>, more: seq<HostCall>)
    ensures var mid := AllCalled(bus, caps, calls);
      AllCalled(mid, caps, more).queue
      == [] + (bus.queue + MessagesOf(AllOrigins(bus, caps, calls) + AllOrigins(mid, caps, more)))
  {
    var mid := AllCalled(bus, caps, calls);
    var first, rest := AllOrigins(bus, caps, calls), AllOrigins(mid, caps, more);
    CallsAppend(bus, caps, calls);
    CallsAppend(mid, caps, more);
    MessagesConcat(first, rest, 0);
    ConcatAssociates(bus.queue, MessagesOf(first), MessagesOf(rest));
  }

  /** The loop ends by itself only when nothing is pending any more; otherwise all given turns were played. */
  lemma {:induction false} DrainedMeansEmpty(bus: Bus, caps: seq<Capability>, clientId: u32, turns: seq<Turn>)
    ensures var d := Deliver(bus, caps, clientId, turns);
      && (d.stop == Drained ==> Pending(d.bus.queue, clientId) == [])
      && (d.stop == OutOfTurns ==> |Played(bus, caps, clientId, turns)| == |turns|)
    decreases |turns|
  {
    FirstForIsPending(bus.queue, clientId);
    if FirstFor(bus.queue, clientId) < |bus.queue| && turns != [] {
      var round := Play(bus, caps, clientId, turns[0]);
      if round.stop.None? {
        DrainedMeansEmpty(round.bus, caps, clientId, turns[1..]);
      }
    }
  }

  /** The guest's host calls take effect in the order in which it makes them. */
  lemma {:induction false} CallsInOrder(bus: Bus, caps: seq<Capability>, calls: seq<HostCall>, last: HostCall)
    ensures AllCalled(bus, caps, calls + [last]) == Called(AllCalled(bus, caps, calls), caps, last)
    ensures AllOrigins(bus, caps, calls + [last])
         == AllOrigins(bus, caps, calls) + Origins(AllCalled(bus, caps, calls), caps, last)
    decreases |calls|
  {
    if calls == [] {
      OneCall(bus, caps, last);
      assert [] + [last] == [last];
    } else {
      var next := Called(bus, caps, calls[0]);
      assert (calls + [last])[0] == calls[0] && (calls + [last])[1..] == calls[1..] + [last];
      CallsInOrder(next, caps, calls[1..], last);
      ConcatAssociates(Origins(bus, caps, calls[0]), AllOrigins(next, caps, calls[1..]),
        Origins(AllCalled(next, caps, calls[1..]), caps, last));
    }
  }

  /** A guest that answers with a null pointer destroys every message it is offered, and is told of none. */
  lemma NullPointerLoses(clientId: u32, message: Bytes, caps: seq<Capability>, turn: Turn)
    requires turn.allocate == Callback([], I32(0))
    ensures var d := Deliver(Bus([IpcMessage(clientId, message)], []), caps, clientId, [turn]);
      && d.bus.queue == [] && d.consumed == [Consumed(IpcMessage(clientId, message), None)]
      && DeliveredCount(d.consumed) == 0
  {
    var bus := Bus([IpcMessage(clientId, message)], []);
    var round := Play(bus, caps, clientId, turn);
    assert round.bus.queue == [] && round.stop.None?;
    assert Deliver(round.bus, caps, clientId, [turn][1..]) == Delivery(round.bus, [], [], Drained);
  }

  // ----- The true depth bound -----

  /** While a message is off the queue and may still come back, queue and message stay within the limit plus one. */
  lemma DepthWithMessageInFlight(bus: Bus, caps: seq<Capability>, clientId: u32, calls: seq<HostCall>)
    requires FirstFor(bus.queue, clientId) < |bus.queue| <= MAX_IPC_QUEUE_DEPTH + 1
    ensures |AllCalled(RemovedAt(bus, FirstFor(bus.queue, clientId)), caps, calls).queue| + 1 <= MAX_IPC_QUEUE_DEPTH + 1
  {
    CallsKeepDepth(RemovedAt(bus, FirstFor(bus.queue, clientId)), caps, calls);
  }

  /** Every message that comes onto the queue leaves it or is still there. */
  lemma {:induction false} DeliveryCounts(bus: Bus, caps: seq<Capability>, clientId: u32, turns: seq<Turn>)
    ensures var d := Deliver(bus, caps, clientId, turns);
      |d.bus.queue| + |d.consumed| == |bus.queue| + |d.enqueued|
    decreases |turns|
  {
    if FirstFor(bus.queue, clientId) < |bus.queue| && turns != [] {
      var round := Play(bus, caps, clientId, turns[0]);
      RoundCounts(bus, caps, clientId, turns[0]);
      if round.stop.None? {
        DeliveryCounts(round.bus, caps, clientId, turns[1..]);
      }
    }
  }

  lemma RoundCounts(bus: Bus, caps: seq<Capability>, clientId: u32, turn: Turn)
    requires FirstFor(bus.queue, clientId) < |bus.queue|
    ensures var round := Play(bus, caps, clientId, turn);
      |round.bus.queue| + (if round.consumed.Some? then 1 else 0) == |bus.queue| + |round.origins|
  {
    var taken := RemovedAt(bus, FirstFor(bus.queue, clientId));
    CallsAppend(taken, caps, turn.allocate.calls);
    CallsAppend(AllCalled(taken, caps, turn.allocate.calls), caps, turn.receive.calls);
  }

  /**
   * The turn's allocation fails after host calls that enqueue more messages than the queue, with the
   * message that is to come back, has room for: the case the put-back does not check for.
   */
  predicate RoundOverfills(bus: Bus, caps: seq<Capability>, clientId: u32, turn: Turn)
    requires FirstFor(bus.queue, clientId) < |bus.queue|
  {
    var taken := RemovedAt(bus, FirstFor(bus.queue, clientId));
    turn.allocate.result.Trap? && |AllOrigins(taken, caps, turn.allocate.calls)| > MAX_IPC_QUEUE_DEPTH - |bus.queue|
  }

  /** Some turn that a delivery gets to play overfills the queue. */
  predicate AnyOverfills(bus: Bus, caps: seq<Capability>, clientId: u32, turns: seq<Turn>)
    decreases |turns|
  {
    FirstFor(bus.queue, clientId) < |bus.queue| && turns != [] &&
    var round := Play(bus, caps, clientId, turns[0]);
    if round.stop.Some? then RoundOverfills(bus, caps, clientId, turns[0])
    else AnyOverfills(round.bus, caps, clientId, turns[1..])
  }

  /**
   * The true depth bound of one delivery: at most one message over the limit, and from within the limit
   * over it if and only if some turn's failing allocation enqueues more than there is room for.
   */
  lemma {:induction false} DeliveryDepth(bus: Bus, caps: seq<Capability>, clientId: u32, turns: seq<Turn>)
    requires |bus.queue| <= MAX_IPC_QUEUE_DEPTH + 1
    ensures var after := |Deliver(bus, caps, clientId, turns).bus.queue|;
      && after <= MAX_IPC_QUEUE_DEPTH + 1
      && (|bus.queue| <= MAX_IPC_QUEUE_DEPTH ==>
            (after > MAX_IPC_QUEUE_DEPTH <==> AnyOverfills(bus, caps, clientId, turns)))
    decreases |turns|
  {
    if FirstFor(bus.queue, clientId) < |bus.queue| && turns != [] {
      RoundDepth(bus, caps, clientId, turns[0]);
      var round := Play(bus, caps, clientId, turns[0]);
      if round.stop.None? {
        DeliveryDepth(round.bus, caps, clientId, turns[1..]);
      }
    }
  }

  lemma RoundDepth(bus: Bus, caps: seq<Capability>, clientId: u32, turn: Turn)
    requires FirstFor(bus.queue, clientId) < |bus.queue| <= MAX_IPC_QUEUE_DEPTH + 1
    ensures var round := Play(bus, caps, clientId, turn);
      && (round.consumed.Some? ==> |round.bus.queue| <= MAX_IPC_QUEUE_DEPTH)
      && (round.consumed.None? ==>
            |round.bus.queue| == |bus.queue| + |round.origins| <= MAX_IPC_QUEUE_DEPTH + 1
              && round.stop == Some(Requeued(|round.origins|)))
  {
    var taken := RemovedAt(bus, FirstFor(bus.queue, clientId));
    CallsKeepDepth(taken, caps, turn.allocate.calls);
    CallsAppend(taken, caps, turn.allocate.calls);
    CallsKeepDepth(AllCalled(taken, caps, turn.allocate.calls), caps, turn.receive.calls);
  }

  /**
   * The extra message is reached: with the queue full, an allocation that sends one message and then
   * fails leaves 65 in the queue.
   */
  lemma LimitIsExceeded(bus: Bus, caps: seq<Capability>, clientId: u32, dest: u32, turn: Turn)
    requires |bus.queue| == MAX_IPC_QUEUE_DEPTH && Pending(bus.queue, clientId) != []
    requires FindCapability(caps, Endpoint, dest).Some? && FindCapability(caps, Endpoint, dest).value.rights.write
    requires turn.allocate == Callback([IpcSend(dest, Some([]), 0, 0)], Trap)
    ensures |Deliver(bus, caps, clientId, [turn]).bus.queue| == MAX_IPC_QUEUE_DEPTH + 1
  {
    FirstForIsPending(bus.queue, clientId);
    var taken := RemovedAt(bus, FirstFor(bus.queue, clientId));
    var send := IpcSend(dest, Some([]), 0, 0);
    OneCall(taken, caps, send);
    assert |Appended(taken, caps, send)| == 1;
  }

  // ----- Provenance -----

  /** The range of guest memory a call names, which is inside that memory. */
  ghost predicate IsSliceOf(bytes: Bytes, memory: Option<WasmMemory>, ptr: i32, len: i32) {
    memory.Some? && 0 <= ptr && 0 <= len && ptr + len <= |memory.value| && bytes == memory.value[ptr..ptr + len]
  }

  /**
   * The message is at most 512 bytes of the memory range its call named, and it is addressed either to
   * an endpoint for which the caller's first matching capability allows writing, or to a subscriber.
   */
  ghost predicate Legitimate(o: Origin) {
    && |o.message.message| <= MAX_IPC_MESSAGE_SIZE
    && match o.call
       case IpcSend(dest, memory, ptr, len) =>
         && IsSliceOf(o.message.message, memory, ptr, len) && o.message.destClientId == dest
         && var cap := FindCapability(o.caps, Endpoint, dest);
            cap.Some? && cap.value.rights.write && cap.value in o.caps && cap.value.resourceId == dest
       case MqttPublish(memory, _, _, ptr, len) =>
         IsSliceOf(o.message.message, memory, ptr, len) && o.message.destClientId in o.before.subscribers
       case MqttSubscribe(_, _, _, _) => false
  }

  lemma FoundCapability(caps: seq<Capability>, resourceType: ResourceType, resourceId: u64)
    ensures var found := FindCapability(caps, resourceType, resourceId);
      found.Some? ==>
        found.value in caps && found.value.resourceType == resourceType && found.value.resourceId == resourceId
  {
  }

  lemma OriginsLegitimate(bus: Bus, caps: seq<Capability>, call: HostCall)
    ensures forall o :: o in Origins(bus, caps, call) ==> Legitimate(o)
  {
    match call
    case IpcSend(dest, memory, ptr, len) =>
      FoundCapability(caps, Endpoint, dest);
      if memory.Some? {
        BoundsCheckIsExact(memory.value, ptr, len);
      }
    case MqttPublish(memory, topicPtr, topicLen, ptr, len) =>
      if memory.Some? {
        BoundsCheckIsExact(memory.value, ptr, len);
      }
    case MqttSubscribe(_, _, _, _) =>
  }

  lemma {:induction false} CallsLegitimate(bus: Bus, caps: seq<Capability>, calls: seq<HostCall>)
    ensures forall o :: o in AllOrigins(bus, caps, calls) ==> Legitimate(o)
    decreases |calls|
  {
    if calls != [] {
      OriginsLegitimate(bus, caps, calls[0]);
      CallsLegitimate(Called(bus, caps, calls[0]), caps, calls[1..]);
    }
  }

  lemma {:induction false} DeliveryLegitimate(bus: Bus, caps: seq<Capability>, clientId: u32, turns: seq<Turn>)
    ensures forall o :: o in Deliver(bus, caps, clientId, turns).enqueued ==> Legitimate(o)
    decreases |turns|
  {
    if FirstFor(bus.queue, clientId) < |bus.queue| && turns != [] {
      var round := Play(bus, caps, clientId, turns[0]);
      var taken := RemovedAt(bus, FirstFor(bus.queue, clientId));
      CallsLegitimate(taken, caps, turns[0].allocate.calls);
      CallsLegitimate(AllCalled(taken, caps, turns[0].allocate.calls), caps, turns[0].receive.calls);
      if round.stop.None? {
        DeliveryLegitimate(round.bus, caps, clientId, turns[1..]);
      }
    }
  }

  /** When every queued message is within the size limit, a guest that accepts a message is handed all of it. */
  lemma {:induction false} PayloadsAreWhole(bus: Bus, caps: seq<Capability>, clientId: u32, turns: seq<Turn>)
    requires forall m :: m in bus.queue ==> |m.message| <= MAX_IPC_MESSAGE_SIZE
    ensures forall c :: c in Deliver(bus, caps, clientId, turns).consumed && c.payload.Some? ==>
      c.payload.value == c.message.message
    decreases |turns|
  {
    if FirstFor(bus.queue, clientId) < |bus.queue| && turns != [] {
      var m := bus.queue[FirstFor(bus.queue, clientId)];
      var taken := RemovedAt(bus, FirstFor(bus.queue, clientId));
      CallsKeepSizes(taken, caps, turns[0].allocate.calls);
      CallsKeepSizes(AllCalled(taken, caps, turns[0].allocate.calls), caps, turns[0].receive.calls);
      assert m.message[..|m.message|] == m.message;
      var round := Play(bus, caps, clientId, turns[0]);
      if round.stop.None? {
        PayloadsAreWhole(round.bus, caps, clientId, turns[1..]);
      }
    }
  }

  lemma CallsKeepSizes(bus: Bus, caps: seq<Capability>, calls: seq<HostCall>)
    requires forall m :: m in bus.queue ==> |m.message| <= MAX_IPC_MESSAGE_SIZE
    ensures forall m :: m in AllCalled(bus, caps, calls).queue ==> |m.message| <= MAX_IPC_MESSAGE_SIZE
  {
    CallsAppend(bus, caps, calls);
    CallsLegitimate(bus, caps, calls);
    var origins := AllOrigins(bus, caps, calls);
    forall m | m in MessagesOf(origins)
      ensures |m.message| <= MAX_IPC_MESSAGE_SIZE
    {
      var i :| 0 <= i < |origins| && MessagesOf(origins)[i] == m;
      assert origins[i] in origins;
    }
  }

  // ----- Publishing -----

  /**
   * An accepted publish appends one copy for each of the first subscribers, as many as free slots
   * allow. The code returned to the publisher counts all subscribers, so, while that count fits an
   * i32, it is the number of copies exactly when none was dropped.
   */
  lemma PublishFansOut(bus: Bus, caps: seq<Capability>, call: HostCall)
    requires call.MqttPublish? && PublishAccepted(call.memory, call.topicPtr, call.topicLen, call.ptr, call.len)
    ensures var copies := Appended(bus, caps, call);
      && |copies| == Min(|bus.subscribers|, Max(0, MAX_IPC_QUEUE_DEPTH - |bus.queue|))
      && (forall i :: 0 <= i < |copies| ==>
            copies[i] == IpcMessage(bus.subscribers[i], call.memory.value[call.ptr..call.ptr + call.len]))
      && (|bus.subscribers| < 0x8000_0000 ==>
            (PublishCode(bus, call.memory, call.topicPtr, call.topicLen, call.ptr, call.len) == |copies|
             <==> |bus.queue| + |bus.subscribers| <= MAX_IPC_QUEUE_DEPTH || bus.subscribers == []))
  {
    BoundsCheckIsExact(call.memory.value, call.ptr, call.len);
  }

  /**
   * Subscribing succeeds exactly for a topic range inside the memory; a range with a negative part is
   * refused, or panics, the latter exactly when the sum of its two numbers lands back inside the memory.
   */
  lemma SubscribeOutcomes(memory: WasmMemory, topicPtr: i32, topicLen: i32)
    ensures SubscribeReply(Some(memory), topicPtr, topicLen) == Code(0) <==> !OutOfBounds(memory, topicPtr, topicLen)
    ensures SubscribeReply(Some(memory), topicPtr, topicLen) == Panic
      <==> (topicPtr < 0 || topicLen < 0) && 0 <= topicPtr + topicLen <= |memory|
  {
    BoundsCheckIsExact(memory, topicPtr, topicLen);
    var sum := AsUsize(topicPtr) + AsUsize(topicLen);
    if sum >= TWO_64 {
      DivModUnique(sum, TWO_64, 1, sum - TWO_64);
    }
  }

  lemma {:induction false} CallsKeepSubscribersDistinct(bus: Bus, caps: seq<Capability>, calls: seq<HostCall>)
    requires NoDup(bus.subscribers)
    ensures NoDup(AllCalled(bus, caps, calls).subscribers)
    decreases |calls|
  {
    if calls != [] {
      CallsKeepSubscribersDistinct(Called(bus, caps, calls[0]), caps, calls[1..]);
    }
  }
}
