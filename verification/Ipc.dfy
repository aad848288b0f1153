/** Message passing with capability checks: endpoints, their registry, sending and receiving (src/ipc.rs). */
module Ipc {
  import opened Prelude
  import opened Capabilities
  import opened Tasks
  import opened Scheduling

  const MAX_MESSAGE_SIZE: nat := 4096
  const MAX_QUEUE_SIZE: nat := 16

  datatype Message = Message(sender: TaskId, data: seq<bv8>, transferredCap: Option<u64>)

  datatype IpcError = MessageTooLarge | QueueFull | EndpointNotFound | PermissionDenied | NoMessage
  datatype Outcome<+T> = Ok(value: T) | Err(error: IpcError)

  datatype EndpointValue = EndpointValue(messages: seq<Message>, waiters: seq<TaskId>)

  const FRESH := EndpointValue([], [])

  /** The endpoints that lookups by id can reach. */
  type Endpoints = map<u64, EndpointValue>

  method NewMessage(sender: TaskId, data: seq<bv8>) returns (r: Outcome<Message>)
    ensures r == if |data| > MAX_MESSAGE_SIZE then Err(MessageTooLarge) else Ok(Message(sender, data, None))
  {
    if |data| > MAX_MESSAGE_SIZE {
      return Err(MessageTooLarge);
    }
    return Ok(Message(sender, data, None));
  }

  class IpcEndpoint {
    const id: u64
    const maxQueueSize: nat
    var messages: seq<Message>
    var waitingTasks: seq<TaskId>

    constructor (id: u64)
      ensures this.id == id && maxQueueSize == MAX_QUEUE_SIZE && Value() == FRESH
    {
      this.id := id;
      messages := [];
      waitingTasks := [];
      maxQueueSize := 16;
    }

    function Value(): EndpointValue
      reads this
    {
      EndpointValue(messages, waitingTasks)
    }

    method Send(message: Message) returns (r: Outcome<()>)
      modifies this`messages
      ensures |old(messages)| >= maxQueueSize ==> r == Err(QueueFull) && messages == old(messages)
      ensures |old(messages)| < maxQueueSize ==> r == Ok(()) && messages == old(messages) + [message]
    {
      if |messages| >= maxQueueSize {
        return Err(QueueFull);
      }
      messages := messages + [message];
      return Ok(());
    }

    method TryReceive() returns (r: Option<Message>)
      modifies this`messages
      ensures old(messages) == [] ==> r == None && messages == []
      ensures old(messages) != [] ==> r.Some? && old(messages) == [r.value] + messages
    {
      if messages == [] {
        return None;
      }
      r := Some(messages[0]);
      messages := messages[1..];
    }

    method AddWaiter(task: TaskId)
      modifies this`waitingTasks
      ensures waitingTasks == if task in old(waitingTasks) then old(waitingTasks) else old(waitingTasks) + [task]
    {
      if task !in waitingTasks {
        waitingTasks := waitingTasks + [task];
      }
    }

    method TakeWaiters() returns (waiters: seq<TaskId>)
      modifies this`waitingTasks
      ensures waiters == old(waitingTasks) && waitingTasks == []
    {
      waiters := waitingTasks;
      waitingTasks := [];
    }
  }

  /** A vector of endpoints searched front to back; it stands for the map `View()`. */
  class IpcRegistry {
    var endpoints: seq<IpcEndpoint>

    constructor ()
      ensures Valid() && View() == map[]
    {
      endpoints := [];
    }

    ghost predicate Valid()
      reads this, endpoints
    {
      NoDup(endpoints) && forall e :: e in endpoints ==> e.maxQueueSize == MAX_QUEUE_SIZE
    }

    ghost function Entries(): seq<(u64, EndpointValue)>
      reads this, endpoints
    {
      seq(|endpoints|, i requires 0 <= i < |endpoints| reads this, endpoints => (endpoints[i].id, endpoints[i].Value()))
    }

    ghost function View(): Endpoints
      reads this, endpoints
    {
      FirstMatch(Entries())
    }

    /** An id that is already taken gets a second endpoint that no lookup ever reaches. */
    method CreateEndpoint(capId: u64) returns (r: u64)
      requires Valid()
      modifies this
      ensures Valid() && r == capId
      ensures exists e :: fresh(e) && endpoints == old(endpoints) + [e]
      ensures View() == map[capId := FRESH] + old(View())
    {
      var endpoint := new IpcEndpoint(capId);
      endpoints := endpoints + [endpoint];
      assert Entries() == old(Entries()) + [(capId, FRESH)];
      FirstMatchAppend(old(Entries()), capId, FRESH);
      return capId;
    }

    ghost predicate IsFirst(i: int, id: u64)
      reads this, endpoints
    {
      0 <= i < |endpoints| && endpoints[i].id == id && forall j :: 0 <= j < i ==> Entries()[j].0 != id
    }

    method GetEndpointMut(capId: u64) returns (r: Option<IpcEndpoint>, ghost at: nat)
      requires Valid()
      ensures r.Some? <==> capId in View()
      ensures r.Some? ==> IsFirst(at, capId) && r.value == endpoints[at] && r.value.Value() == View()[capId]
    {
      at := 0;
      var i := 0;
      while i < |endpoints|
        invariant 0 <= i <= |endpoints|
        invariant forall j :: 0 <= j < i ==> Entries()[j].0 != capId
      {
        assert Entries()[i] == (endpoints[i].id, endpoints[i].Value());
        if endpoints[i].id == capId {
          FirstMatchAt(Entries(), i, endpoints[i].Value());
          return Some(endpoints[i]), i;
        }
        i := i + 1;
      }
      FirstMatchAbsent(Entries(), capId);
      return None, 0;
    }

    /** Changing only the endpoint a lookup reached changes the map at that id alone. */
    twostate lemma OnlyChanged(at: nat)
      requires old(Valid()) && endpoints == old(endpoints) && at < |endpoints|
      requires old(IsFirst(at, endpoints[at].id))
      requires forall j :: 0 <= j < |endpoints| && j != at ==> unchanged(endpoints[j])
      ensures Valid() && View() == old(View())[endpoints[at].id := endpoints[at].Value()]
    {
      var before := old(Entries());
      assert before[at] == old((endpoints[at].id, endpoints[at].Value()));
      FirstMatchAt(before, at, endpoints[at].Value());
      assert Entries() == before[at := (endpoints[at].id, endpoints[at].Value())];
    }
  }

  /** The global registry before `init` is null and reaches no endpoint. */
  ghost function ViewOf(registry: IpcRegistry?): Endpoints
    reads registry, if registry == null then [] else registry.endpoints
  {
    if registry == null then map[] else registry.View()
  }

  ghost predicate ValidOrNull(registry: IpcRegistry?)
    reads registry, if registry == null then [] else registry.endpoints
  {
    registry != null ==> registry.Valid()
  }

  method CreateEndpoint(registry: IpcRegistry?, capId: u64) returns (r: Outcome<u64>)
    requires ValidOrNull(registry)
    modifies registry
    ensures ValidOrNull(registry)
    ensures r == if registry == null then Err(EndpointNotFound) else Ok(capId)
    ensures registry != null ==> registry.View() == map[capId := FRESH] + old(registry.View())
  {
    if registry == null {
      return Err(EndpointNotFound);
    }
    var id := registry.CreateEndpoint(capId);
    return Ok(id);
  }

  /** The endpoint a presented capability opens for sending (`write`) or receiving (`read`). */
  function Opens(cs: CapSpace, capId: u64, needed: Rights): Outcome<u64> {
    if capId in cs.caps && cs.caps[capId].resourceType == Endpoint && cs.caps[capId].rights.Has(needed)
    then Ok(cs.caps[capId].resourceId)
    else Err(PermissionDenied)
  }

  const SEND := Rights(false, true, false, false)
  const RECEIVE := Rights(true, false, false, false)

  method CheckCapability(cspace: CSpace, capId: u64, needed: Rights) returns (r: Outcome<u64>)
    ensures r == Opens(cspace.State(), capId, needed)
  {
    var cap := cspace.Get(capId);
    if cap.None? {
      return Err(PermissionDenied);
    }
    if cap.value.resourceType != Endpoint {
      return Err(PermissionDenied);
    }
    if !cap.value.rights.Has(needed) {
      return Err(PermissionDenied);
    }
    return Ok(cap.value.resourceId);
  }

  /** Where an accepted send goes, or why it is refused. The checks are made in this order. */
  function SendVerdict(eps: Endpoints, cs: CapSpace, capId: u64, data: seq<bv8>): Outcome<u64> {
    var target := Opens(cs, capId, SEND);
    if target.Err? then target else EnqueueVerdict(eps, target.value, data)
  }

  function EnqueueVerdict(eps: Endpoints, target: u64, data: seq<bv8>): Outcome<u64> {
    if target !in eps then Err(EndpointNotFound)
    else if |data| > MAX_MESSAGE_SIZE then Err(MessageTooLarge)
    else if |eps[target].messages| >= MAX_QUEUE_SIZE then Err(QueueFull)
    else Ok(target)
  }

  function ReceiveVerdict(eps: Endpoints, cs: CapSpace, capId: u64): Outcome<u64> {
    var target := Opens(cs, capId, RECEIVE);
    if target.Ok? && target.value !in eps then Err(EndpointNotFound) else target
  }

  /** The capability presented is for sending to endpoint `e`. */
  predicate GrantsSend(cs: CapSpace, capId: u64, e: u64) {
    capId in cs.caps && IsFor(cs.caps[capId], e) && cs.caps[capId].rights.write
  }

  /** The capability presented is for receiving from endpoint `e`. */
  predicate GrantsReceive(cs: CapSpace, capId: u64, e: u64) {
    capId in cs.caps && IsFor(cs.caps[capId], e) && cs.caps[capId].rights.read
  }

  /**
   * When a send is accepted, and which error it gets otherwise: an endpoint capability with the write right
   * first of all, then an existing endpoint, then at most 4096 bytes, then fewer than 16 messages queued.
   */
  lemma SendVerdictExactly(eps: Endpoints, cs: CapSpace, capId: u64, data: seq<bv8>, e: u64)
    ensures var verdict := SendVerdict(eps, cs, capId, data);
      && (verdict == Ok(e) <==> GrantsSend(cs, capId, e) && e in eps && |data| <= 4096 && |eps[e].messages| < 16)
      && (verdict == Err(PermissionDenied) <==> forall any :: !GrantsSend(cs, capId, any))
      && (GrantsSend(cs, capId, e) ==>
            && (verdict == Err(EndpointNotFound) <==> e !in eps)
            && (verdict == Err(MessageTooLarge) <==> e in eps && |data| > 4096)
            && (verdict == Err(QueueFull) <==> e in eps && |data| <= 4096 && |eps[e].messages| >= 16))
  {
    if Opens(cs, capId, SEND).Ok? {
      assert GrantsSend(cs, capId, cs.caps[capId].resourceId);
    }
  }

  /** When a receive finds its endpoint, which error it gets otherwise, and what it answers. */
  lemma ReceiveVerdictExactly(eps: Endpoints, cs: CapSpace, capId: u64, e: u64)
    ensures var verdict, reply := ReceiveVerdict(eps, cs, capId), ReceiveReply(eps, cs, capId);
      && (verdict == Ok(e) <==> GrantsReceive(cs, capId, e) && e in eps)
      && (verdict == Err(PermissionDenied) <==> forall any :: !GrantsReceive(cs, capId, any))
      && (GrantsReceive(cs, capId, e) ==> (verdict == Err(EndpointNotFound) <==> e !in eps))
      && (verdict.Err? ==> reply == Err(verdict.error))
      && (verdict == Ok(e) ==> reply == Ok(if eps[e].messages == [] then None else Some(eps[e].messages[0])))
  {
    if Opens(cs, capId, RECEIVE).Ok? {
      assert GrantsReceive(cs, capId, cs.caps[capId].resourceId);
    }
  }

  /** A derived capability is as good as its source for the rights it was derived with. */
  lemma DerivedCapabilityWorks(cs: CapSpace, sourceId: u64, requested: Rights, e: u64)
    requires sourceId in cs.caps && cs.caps[sourceId].rights.Has(requested)
    ensures var derived := cs.Derived(sourceId, requested);
      && (GrantsSend(cs, sourceId, e) && requested.write ==> GrantsSend(derived, cs.nextId, e))
      && (GrantsReceive(cs, sourceId, e) && requested.read ==> GrantsReceive(derived, cs.nextId, e))
  {
    HasIsInclusion(cs.caps[sourceId].rights, requested);
    DerivedCarriesTheRequest(cs, sourceId, requested, Rights(true, false, false, false));
    DerivedCarriesTheRequest(cs, sourceId, requested, Rights(false, true, false, false));
  }

  function Queued(eps: Endpoints, e: u64, message: Message): Endpoints
    requires e in eps
  {
    eps[e := EndpointValue(eps[e].messages + [message], [])]
  }

  function Dequeued(eps: Endpoints, e: u64): Endpoints
    requires e in eps
  {
    if eps[e].messages == [] then eps else eps[e := EndpointValue(eps[e].messages[1..], eps[e].waiters)]
  }

  function Registered(eps: Endpoints, e: u64, task: TaskId): Endpoints
    requires e in eps
  {
    if task in eps[e].waiters then eps else eps[e := EndpointValue(eps[e].messages, eps[e].waiters + [task])]
  }

  function TriedReceive(eps: Endpoints, cs: CapSpace, capId: u64): Endpoints {
    match ReceiveVerdict(eps, cs, capId)
    case Ok(e) => Dequeued(eps, e)
    case Err(_) => eps
  }

  function ReceiveReply(eps: Endpoints, cs: CapSpace, capId: u64): Outcome<Option<Message>> {
    match ReceiveVerdict(eps, cs, capId)
    case Ok(e) => Ok(if eps[e].messages == [] then None else Some(eps[e].messages[0]))
    case Err(error) => Err(error)
  }

  function UnblockedAll(s: Sched, waiters: seq<TaskId>): Sched
    decreases |waiters|
  {
    if waiters == [] then s else UnblockedAll(s.Unblocked(waiters[0]), waiters[1..])
  }

  /** The scheduler and the reachable endpoints, as one value. */
  datatype Kernel = Kernel(sched: Sched, endpoints: Endpoints) {

    function Sent(sender: TaskId, cs: CapSpace, capId: u64, data: seq<bv8>): Kernel {
      match Opens(cs, capId, SEND)
      case Ok(target) => SentTo(target, sender, data)
      case Err(_) => this
    }

    function SentTo(target: u64, sender: TaskId, data: seq<bv8>): Kernel {
      match EnqueueVerdict(endpoints, target, data)
      case Ok(e) => Kernel(UnblockedAll(sched, endpoints[e].waiters), Queued(endpoints, e, Message(sender, data, None)))
      case Err(_) => this
    }

    /** Register `receiver` at `e` and block the current task. */
    function Waiting(e: u64, receiver: TaskId): Kernel
      requires e in endpoints
    {
      Kernel(sched.BlockedCurrent(), Registered(endpoints, e, receiver))
    }

    /** One pass of the blocking receive loop with nothing interleaved. */
    function Passed(receiver: TaskId, cs: CapSpace, capId: u64): Kernel {
      if ReceiveReply(endpoints, cs, capId) == Ok(None) then Waiting(cs.caps[capId].resourceId, receiver)
      else this.(endpoints := TriedReceive(endpoints, cs, capId))
    }
  }

  /** Endpoint `e` has these messages and waiters, and every other endpoint is as before. */
  ghost predicate OnlyAt(before: Endpoints, after: Endpoints, e: u64, messages: seq<Message>, waiters: seq<TaskId>) {
    && after.Keys == before.Keys && e in after && after[e] == EndpointValue(messages, waiters)
    && forall other :: other in before && other != e ==> after[other] == before[other]
  }

  /** What a send does: the message is last and no waiter is left, or nothing happens at all. */
  lemma SendOutcome(k: Kernel, sender: TaskId, cs: CapSpace, capId: u64, data: seq<bv8>)
    ensures var after := k.Sent(sender, cs, capId, data);
      match SendVerdict(k.endpoints, cs, capId, data)
      case Ok(e) => OnlyAt(k.endpoints, after.endpoints, e, k.endpoints[e].messages + [Message(sender, data, None)], [])
      case Err(_) => after == k
  {
  }

  /** What a receive does: the head is gone and the waiters stay, or nothing happens at all. */
  lemma TryReceiveOutcome(eps: Endpoints, cs: CapSpace, capId: u64)
    ensures match ReceiveVerdict(eps, cs, capId)
      case Ok(e) => OnlyAt(eps, TriedReceive(eps, cs, capId), e,
                           if eps[e].messages == [] then [] else eps[e].messages[1..], eps[e].waiters)
      case Err(_) => TriedReceive(eps, cs, capId) == eps
  {
  }

  /** What a pass that waits does to the endpoints: the receiver is listed, at the end unless it is already. */
  lemma WaitingOutcome(k: Kernel, e: u64, receiver: TaskId)
    requires e in k.endpoints
    ensures var ws := k.endpoints[e].waiters;
      OnlyAt(k.endpoints, k.Waiting(e, receiver).endpoints, e, k.endpoints[e].messages,
             if receiver in ws then ws else ws + [receiver])
  {
  }

  ghost function KernelOf(registry: IpcRegistry?, scheduler: Scheduler): Kernel
    reads registry, if registry == null then [] else registry.endpoints
    reads scheduler, scheduler.tasks, scheduler.tasks.tasks
  {
    Kernel(scheduler.State(), ViewOf(registry))
  }

  /** The part of a send that works on the endpoint: queue the message and take the waiters. */
  method Enqueue(registry: IpcRegistry?, target: u64, sender: TaskId, data: seq<bv8>) returns (r: Outcome<seq<TaskId>>)
    requires ValidOrNull(registry)
    modifies if registry == null then [] else registry.endpoints
    ensures ValidOrNull(registry)
    ensures var eps := old(ViewOf(registry));
      match EnqueueVerdict(eps, target, data)
      case Ok(e) => ViewOf(registry) == Queued(eps, e, Message(sender, data, None)) && r == Ok(eps[e].waiters)
      case Err(error) => r == Err(error) && ViewOf(registry) == eps
  {
    if registry == null {
      return Err(EndpointNotFound);
    }
    var endpoint, at := registry.GetEndpointMut(target);
    if endpoint.None? {
      return Err(EndpointNotFound);
    }
    var message := NewMessage(sender, data);
    if message.Err? {
      return Err(message.error);
    }
    var sent := endpoint.value.Send(message.value);
    if sent.Err? {
      return Err(sent.error);
    }
    var waiters := endpoint.value.TakeWaiters();
    registry.OnlyChanged(at);
    return Ok(waiters);
  }

  /** One step under the registry lock: queue the message, take the waiters, wake them in order. */
  method SendMessage(registry: IpcRegistry?, scheduler: Scheduler, sender: TaskId, senderCspace: CSpace,
                     endpointCap: u64, data: seq<bv8>)
    returns (r: Outcome<()>)
    requires ValidOrNull(registry) && scheduler.Valid()
    modifies if registry == null then [] else registry.endpoints
    modifies scheduler`readyQueue, scheduler.tasks.tasks
    ensures ValidOrNull(registry) && scheduler.Valid()
    ensures KernelOf(registry, scheduler)
      == old(KernelOf(registry, scheduler)).Sent(sender, senderCspace.State(), endpointCap, data)
    ensures r == match SendVerdict(old(ViewOf(registry)), senderCspace.State(), endpointCap, data)
                 case Ok(_) => Ok(())
                 case Err(error) => Err(error)
  {
    var target := CheckCapability(senderCspace, endpointCap, SEND);
    if target.Err? {
      return Err(target.error);
    }
    r := SendTo(registry, scheduler, target.value, sender, data);
  }

  method SendTo(registry: IpcRegistry?, scheduler: Scheduler, target: u64, sender: TaskId, data: seq<bv8>)
    returns (r: Outcome<()>)
    requires ValidOrNull(registry) && scheduler.Valid()
    modifies if registry == null then [] else registry.endpoints
    modifies scheduler`readyQueue, scheduler.tasks.tasks
    ensures ValidOrNull(registry) && scheduler.Valid()
    ensures KernelOf(registry, scheduler) == old(KernelOf(registry, scheduler)).SentTo(target, sender, data)
    ensures r == match EnqueueVerdict(old(ViewOf(registry)), target, data)
                 case Ok(_) => Ok(())
                 case Err(error) => Err(error)
  {
    var waiters := Enqueue(registry, target, sender, data);
    assert scheduler.State() == old(scheduler.State());
    if waiters.Err? {
      return Err(waiters.error);
    }
    ghost var queued := ViewOf(registry);
    WakeAll(scheduler, waiters.value);
    assert ViewOf(registry) == queued;
    return Ok(());
  }

  method WakeAll(scheduler: Scheduler, waiters: seq<TaskId>)
    requires scheduler.Valid()
    modifies scheduler`readyQueue, scheduler.tasks.tasks
    ensures scheduler.Valid() && scheduler.State() == UnblockedAll(old(scheduler.State()), waiters)
  {
    var i := 0;
    while i < |waiters|
      invariant 0 <= i <= |waiters|
      invariant scheduler.Valid()
      invariant UnblockedAll(scheduler.State(), waiters[i..]) == UnblockedAll(old(scheduler.State()), waiters)
    {
      scheduler.UnblockTask(waiters[i]);
      assert waiters[i..][1..] == waiters[i + 1..];
      i := i + 1;
    }
  }

  method TryReceiveMessage(registry: IpcRegistry?, receiver: TaskId, receiverCspace: CSpace, endpointCap: u64)
    returns (r: Outcome<Option<Message>>)
    requires ValidOrNull(registry)
    modifies if registry == null then [] else registry.endpoints
    ensures ValidOrNull(registry)
    ensures ViewOf(registry) == TriedReceive(old(ViewOf(registry)), receiverCspace.State(), endpointCap)
    ensures r == ReceiveReply(old(ViewOf(registry)), receiverCspace.State(), endpointCap)
  {
    var target := CheckCapability(receiverCspace, endpointCap, RECEIVE);
    if target.Err? {
      return Err(target.error);
    }
    if registry == null {
      return Err(EndpointNotFound);
    }
    var endpoint, at := registry.GetEndpointMut(target.value);
    if endpoint.None? {
      return Err(EndpointNotFound);
    }
    var message := endpoint.value.TryReceive();
    registry.OnlyChanged(at);
    return Ok(message);
  }

  /** The second critical section of a blocking receive: add the receiver to the waiters of `target`. */
  method RegisterWaiter(registry: IpcRegistry?, target: u64, receiver: TaskId) returns (r: Outcome<()>)
    requires ValidOrNull(registry)
    modifies if registry == null then [] else registry.endpoints
    ensures ValidOrNull(registry)
    ensures var eps := old(ViewOf(registry));
      if target in eps then r == Ok(()) && ViewOf(registry) == Registered(eps, target, receiver)
      else r == Err(EndpointNotFound) && ViewOf(registry) == eps
  {
    if registry == null {
      return Err(EndpointNotFound);
    }
    var endpoint, at := registry.GetEndpointMut(target);
    if endpoint.None? {
      return Err(EndpointNotFound);
    }
    endpoint.value.AddWaiter(receiver);
    registry.OnlyChanged(at);
    return Ok(());
  }

  /** The third critical section follows the second: register at `target`, then block the current task. */
  method WaitOn(registry: IpcRegistry?, scheduler: Scheduler, target: u64, receiver: TaskId)
    requires ValidOrNull(registry) && scheduler.Valid() && target in ViewOf(registry)
    modifies if registry == null then [] else registry.endpoints
    modifies scheduler, scheduler.tasks.tasks
    ensures ValidOrNull(registry) && scheduler.Valid()
    ensures KernelOf(registry, scheduler) == old(KernelOf(registry, scheduler)).Waiting(target, receiver)
  {
    var registered := RegisterWaiter(registry, target, receiver);
    assert scheduler.State() == old(scheduler.State());
    ghost var waiting := ViewOf(registry);
    scheduler.BlockCurrent();
    assert ViewOf(registry) == waiting;
  }

  /**
   * One pass of the loop in `receive_message_blocking`, with nothing interleaved: try to receive,
   * otherwise register as a waiter and block the current task. `Ok(None)` means the pass blocked.
   */
  method ReceivePass(registry: IpcRegistry?, scheduler: Scheduler, receiver: TaskId, receiverCspace: CSpace,
                     endpointCap: u64)
    returns (r: Outcome<Option<Message>>)
    requires ValidOrNull(registry) && scheduler.Valid()
    modifies if registry == null then [] else registry.endpoints
    modifies scheduler, scheduler.tasks.tasks
    ensures ValidOrNull(registry) && scheduler.Valid()
    ensures KernelOf(registry, scheduler)
      == old(KernelOf(registry, scheduler)).Passed(receiver, receiverCspace.State(), endpointCap)
    ensures r == ReceiveReply(old(ViewOf(registry)), receiverCspace.State(), endpointCap)
  {
    var target := CheckCapability(receiverCspace, endpointCap, RECEIVE);
    if target.Err? {
      return Err(target.error);
    }
    r := TryThenWait(registry, scheduler, receiver, receiverCspace, endpointCap, target.value);
  }

  /** The body of the loop, `target` having been determined before it. */
  method TryThenWait(registry: IpcRegistry?, scheduler: Scheduler, receiver: TaskId, receiverCspace: CSpace,
                     endpointCap: u64, target: u64)
    returns (r: Outcome<Option<Message>>)
    requires ValidOrNull(registry) && scheduler.Valid()
    requires Opens(receiverCspace.State(), endpointCap, RECEIVE) == Ok(target)
    modifies if registry == null then [] else registry.endpoints
    modifies scheduler, scheduler.tasks.tasks
    ensures ValidOrNull(registry) && scheduler.Valid()
    ensures r == ReceiveReply(old(ViewOf(registry)), receiverCspace.State(), endpointCap)
    ensures var before, after := old(KernelOf(registry, scheduler)), KernelOf(registry, scheduler);
      if r == Ok(None) then target in before.endpoints && after == before.Waiting(target, receiver)
      else after == before.(endpoints := TriedReceive(before.endpoints, receiverCspace.State(), endpointCap))
  {
    r := TryReceiveMessage(registry, receiver, receiverCspace, endpointCap);
    assert scheduler.State() == old(scheduler.State());
    if r == Ok(None) {
      WaitOn(registry, scheduler, target, receiver);
    }
  }
}
