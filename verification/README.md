# JerichoOS: a Dafny model of the kernel's interacting state machines

JerichoOS is a small capability-based microkernel for x86-64 and AArch64 that also runs WebAssembly
modules. This project models the parts of it whose behaviour depends on many steps taken in some
order, and proves what holds over whole runs:

- the x86 round-robin scheduler and blocking IPC, apart and together;
- the shared WebAssembly message queue and the loop that delivers from it to untrusted guests;
- capability spaces and the system calls that act on them;
- the AArch64 tick-driven task switcher, from the interrupted instruction to the exception return;
- the boot frame allocator and the mapping of the kernel heap.

## How the model is built

Code that updates objects in place is a class with the source's fields; each method is proved against a
function on the class's value (`Sched`, `CapSpace`, `Endpoints`, `Kernel`, `Bus`, `Core`), and the results over
runs are lemmas about those functions. `Step` and `Run` in the modules ending in `Runs` are the state machines.

| file | contents |
|---|---|
| `Prelude.dfy` | machine integers, removal from a queue, first-match lists as maps, division facts |
| `Capability.dfy`, `SpaceRuns.dfy`, `Syscall.dfy` | rights, capability spaces and their runs, the system-call machine and its traces |
| `Task.dfy`, `Scheduler.dfy`, `SchedulerRuns.dfy` | tasks, the x86 scheduler, its invariant, rotation and bounded waiting |
| `Ipc.dfy`, `KernelRuns.dfy`, `EndpointRuns.dfy`, `WakeLatency.dfy` | endpoints and their registry; scheduler and endpoints over whole runs: no lost wake-up, conservation, provenance, time to delivery |
| `SplitReceive.dfy`, `SplitRuns.dfy` | the blocking receive as it is literally written: exactly when each part is harmless, and over every run and interleaving |
| `SplitTraffic.dfy` | conservation, limits and provenance of messages for the same code and interleavings |
| `Revocation.dfy` | what a receive notices of a revocation |
| `WasmBus.dfy`, `HostCalls.dfy`, `DeliveryRuns.dfy`, `BusRuns.dfy`, `Subscriptions.dfy` | host calls, the delivery loop against any guest, the shared queue and the subscribers over whole runs |
| `Arm.dfy`, `ArmRuns.dfy` | exception frames, IRQ path and task switcher; register fidelity and equal shares over whole runs |
| `Frames.dfy`, `Heap.dfy` | the frame allocator and the heap mapping |

Assumptions:

- Each section under a lock is one step. A send is one step: the registry guard lives to the end of the
  function, because binding its shadow to `_` does not drop it (src/ipc.rs:234).
- `KernelRuns` takes one pass of the blocking receive (try, register, block) as one step, after which the
  receiver does not run until it is scheduled again; the loop is that pass repeated whenever the task runs.
  This is what the comments at src/ipc.rs:318-327 describe; the code falls short of it, see below.
- Arithmetic is that of the release profile, where overflow wraps: id and tick counters wrap at 2^64, and
  a theorem that needs a counter not to wrap says so in its `requires`. `usize` has 64 bits.
- A guest is any list of turns, each giving the host calls made inside a callback and its result. Every list is
  allowed, so the theorems hold for every guest. A missing export is a trap without host calls.
- AArch64 code between interrupts may change registers, PC, PSTATE and stack pointers in any way. The interrupt
  handler's own stack words are assumed to lie outside the frame it returns.
- `map_to` is an oracle that takes any number of page-table frames from the same allocator and may refuse.

## Where the code differs from what it says or is meant to do

Each of these is a lemma with the exact condition under which the code does meet the intention.

- The blocking receive has three critical sections and blocks whichever task is current. `block_current` only
  updates scheduler state, so the caller runs on and the loop goes round again. `SplitRuns.NoneLostExactly` says for
  every run and interleaving when no wake-up is lost; `SplitReceive` treats each section and any number of rounds,
  with traces from a reachable state that lose a wake-up or put bystanders to sleep for good.
- "Capability re-verified on each wake-up (handles revocation)" (src/ipc.rs:281): the capability space is borrowed
  for the whole call and often is a snapshot, so every check gives the first one's answer
  (`Revocation.EveryPassAgrees`, and `Revocation.RevokedReceiverStillReceives` for what follows). A check against the
  live space would notice: `Revocation.LiveCheckNoticesExactly`.
- The boot code inserts a capability under id 1 while the counter stands at 1 (src/main.rs:625-641), so the task's
  first derivation replaces it: `Capabilities.BootInsertIsOverwritten`, and `Capabilities.DeriveKeepsEntriesExactly`
  for the condition.
- `MAX_IPC_QUEUE_DEPTH` is 64, but a message put back at the front can make it 65: `DeliveryRuns.LimitIsExceeded`, and
  `BusRuns.LimitHoldsExactly` for the condition.
- "Re-queue the message so it's not lost" (src/wasm_runtime.rs:509) is done for a failing allocation only. A null
  pointer, a wrong result type, a missing memory, a buffer out of bounds or a trapping receiver destroys the message:
  `DeliveryRuns.NullPointerLoses`, and `DeliveryRuns.DeliveryLosesExactly` for the condition.
- A publish that is cut short by a full queue is said to return a partial count (src/wasm_runtime.rs:243), but returns
  the number of all subscribers: `DeliveryRuns.PublishFansOut`.
- `host_sys_mqtt_subscribe` adds its arguments without saturation, unlike the other host calls; some negative arguments
  wrap past its check and then panic on the slice: `DeliveryRuns.SubscribeOutcomes`.
- "The task's SP is preserved in its context" (src/arch/aarch64/scheduler.rs:271-273): it is never updated, so a task
  that was switched, even to itself, resumes with an empty stack: `ArmRuns.StackPointerSurvivesExactly`.
- `usable_frames` rounds addresses down, so regions that do not start on a frame boundary can share a frame:
  `Frames.UnalignedRegionsCollide`, and `Frames.FramesAreDistinctExactly` and `Frames.FramesWhollyInsideExactly` for
  the conditions.

## Model

| member | source | states |
|---|---|---|
| `Capabilities.HasIsInclusion` | src/capability.rs:66-73 | holding rights is inclusion of the four rights as sets |
| `Capabilities.RightsOrder` | src/capability.rs:66-82 | holding rights is a partial order (reflexive, antisymmetric, transitive), and a request for rights is granted exactly when it lies below, unchanged |
| `Capabilities.CSpace.constructor` | src/capability.rs:165-170 | a new space is empty and its counter stands at 1 |
| `Capabilities.CSpace.Insert` | src/capability.rs:173-177 | the capability is stored under its own id whatever that is, replacing what was there; the counter is untouched |
| `Capabilities.CSpace.Get` | src/capability.rs:180-182 | a lookup succeeds exactly for ids that have an entry, and yields that entry |
| `Capabilities.CSpace.Revoke` | src/capability.rs:185-187 | the entry is gone, all others stay, and the removed capability is returned exactly when there was one |
| `Capabilities.CSpace.Create` | src/capability.rs:190-197 | the new capability sits under the counter's old value, which is returned, and the counter moves on by one |
| `Capabilities.CSpace.Derive` | src/capability.rs:200-210 | the whole new state in all three cases: no source changes nothing, too few rights only uses up an id, success adds an entry for the source's resource with exactly the rights requested |
| `Capabilities.DerivedCarriesTheRequest` | src/capability.rs:138-147 | a derivation succeeds exactly when the source has every right requested, and what it stores satisfies exactly what the request satisfies; a refusal adds nothing but uses up an id |
| `Capabilities.InsertKeepsWellFormedExactly` | src/capability.rs:173-177 | `insert` keeps "every id was handed out by the counter" if and only if the inserted id is below the counter |
| `Capabilities.DeriveKeepsEntriesExactly` | src/capability.rs:200-210 | a successful derivation leaves all earlier entries alone if and only if the next id is unused or already holds that same capability |
| `Capabilities.BootInsertIsOverwritten` | src/main.rs:625-641 | whatever rights were granted, to receiver or sender: the boot grant violates the counter discipline, and one derivation without rights destroys all of the task's authority over endpoint 100 |
| `SpaceRuns.StepKeeps` | src/capability.rs:185-210 | one creation, derivation or revocation keeps the counter discipline, never changes what an issued id names except by removing it, and hands out the counter's value only |
| `SpaceRuns.NoResurrection` | src/capability.rs:185-210 | over any run of create, derive and revoke that does not wrap the counter, an issued id keeps naming the same capability or is gone for good; the counter advances by the ids used, burnt ones included |
| `SpaceRuns.IdsAreFresh` | src/capability.rs:190-210 | the ids handed out in such a run are pairwise distinct and none was in use before it |
| `SpaceRuns.ResolvesOnlyWhenIssued` | src/capability.rs:173-210 | with no bound on the counter: an absent id comes to resolve at some point of a run if and only if the counter hands it out in that run |
| `SpaceRuns.WrappedCounterReissues` | src/capability.rs:190-197 | at the wrap creation hands out id 0 again |
| `Syscalls.EncodeRights` | src/syscall.rs:177-184 | encoding fits in four bits, and decoding as `sys_cap_derive` does gives the rights back |
| `Syscalls.EncodingIsUnique` | src/syscall.rs:112-120 | two arguments ask for the same rights if and only if their low four bits agree |
| `Syscalls.DecodedBits` | src/syscall.rs:115-120 | bits 0 to 3 mean read, write, execute and grant |
| `Syscalls.CallsByNumber` | src/syscall.rs:26-35 | which number does what, with which reply, and that only 1 and 2 change anything |
| `Syscalls.DerivationDelivers` | src/syscall.rs:112-126 | delegation works: asking for rights the source has is answered with a new id that then names the source's resource with exactly those rights |
| `Syscalls.SyscallContext.constructor` | src/syscall.rs:62-66 | a context starts with an empty capability space of its own |
| `Syscalls.SyscallContext.Syscall` | src/syscall.rs:69-89 | the new capability space and the reply of every call, for every number and argument: unknown numbers are refused, creation is denied |
| `Syscalls.SyscallContext.SysCapDerive` | src/syscall.rs:112-126 | derivation with decoded rights; a missing source and missing rights are both reported as denied |
| `Syscalls.SyscallContext.SysCapRevoke` | src/syscall.rs:130-137 | revocation, reported as invalid exactly when there was nothing to revoke |
| `Syscalls.SyscallContext.SysCapInvoke` | src/syscall.rs:142-155 | succeeds exactly for ids that resolve, whatever their rights |
| `Syscalls.NoAmplification` | src/syscall.rs:69-137 | after any trace of calls, each capability held names the resource of an initial one and has no right that one lacked |
| `Syscalls.EmptyStaysEmpty` | src/syscall.rs:103-106 | a context that starts with nothing has nothing after any trace: capabilities cannot be forged |
| `Syscalls.CallsAreOperations` | src/syscall.rs:69-137 | a trace of calls, whatever the numbers and arguments, is a run of derivations and revocations: no call creates |
| `Syscalls.NoResurrection` | src/syscall.rs:112-137 | over any trace of calls that does not wrap the counter, an issued id keeps naming the same capability or is gone for good |
| `Syscalls.ResolvesUnlessRevoked` | src/syscall.rs:112-137 | an issued id resolves after a trace if and only if it did before and no call of the trace revokes it |
| `Syscalls.WrappedCounterResurrects` | src/capability.rs:203-204 | at the wrap the guarantee ends: two derivations make a revoked id 0 resolve again |
| `Syscalls.SnapshotsCarryNoNewAuthority` | src/scheduler.rs:179-185 | a snapshot taken after any calls authorises nothing on an endpoint that the initial space did not |
| `Tasks.TaskIds.NewTask` | src/task.rs:135-163 | the task is Ready and takes the counter's value, which moves on by one and wraps |
| `Tasks.TaskList.Add` | src/task.rs:225-229 | the list grows at the end; as a map, an id already present keeps its first task |
| `Tasks.TaskList.Position` | src/task.rs:232-239 | the search stops at the first task with the id, which exists exactly when the map has the id |
| `Tasks.TaskList.Get` | src/task.rs:232-234 | a lookup finds exactly the task the map shows |
| `Tasks.TaskList.SetState` | src/task.rs:176-178 | changing the found task changes the map at that id alone, and an unknown id changes nothing |
| `Scheduling.Scheduler.constructor` | src/scheduler.rs:25-31 | no tasks, no current task, an empty queue |
| `Scheduling.Scheduler.AddTask` | src/scheduler.rs:34-40 | the task joins the list and the end of the queue, and a repeated id is queued although its second task can never be found |
| `Scheduling.Scheduler.Schedule` | src/scheduler.rs:65-97 | the whole new state: the head is popped, the previous task becomes Ready only if it was Running, the head runs and goes to the back only if it is Ready |
| `Scheduling.Scheduler.MarkPreviousReady` | src/scheduler.rs:69-75 | only a current task that is still Running becomes Ready |
| `Scheduling.Scheduler.RunIfReady` | src/scheduler.rs:78-93 | the popped id becomes current, Running and last in the queue if it is Ready, and otherwise is dropped |
| `Scheduling.Scheduler.BlockCurrent` | src/scheduler.rs:109-122 | the current task is Blocked and off the queue before the next one is scheduled, but stays current if there is none |
| `Scheduling.Scheduler.UnblockTask` | src/scheduler.rs:125-133 | a Blocked task becomes Ready and joins the end of the queue; any other task is untouched |
| `Scheduling.Scheduler.TerminateCurrent` | src/scheduler.rs:136-151 | the current task is Terminated, off the queue and no longer current before the next one is scheduled |
| `Scheduling.Scheduler.TaskYield` | src/scheduler.rs:337-406 | nothing happens without a current task; otherwise it schedules, and switches contexts exactly when a different task was picked, both of which exist |
| `SchedulerRuns.AddedConsistentExactly` | src/scheduler.rs:34-40 | adding a task keeps the invariant if and only if its id is new |
| `SchedulerRuns.SpawnOutcome` | src/scheduler.rs:34-40 | a new task is Ready and last in the queue, and nothing else changes |
| `SchedulerRuns.ScheduleOutcome` | src/scheduler.rs:65-97 | with a task running: the head of the queue runs and goes to its end, the task that ran is Ready, every other task keeps its place and state; `task_yield` does the same |
| `SchedulerRuns.ScheduleOutcomeIdle` | src/scheduler.rs:65-97 | with none running: the head starts and no other task changes; `task_yield` acts only if there is a current task |
| `SchedulerRuns.BlockOutcome` | src/scheduler.rs:109-122 | the current task is Blocked and off the queue, the first of the others runs, the rest keep order and state; alone, the sleeper stays current |
| `SchedulerRuns.TerminateOutcome` | src/scheduler.rs:136-151 | the same with Terminated, and a terminated task never stays current |
| `SchedulerRuns.SleeperOutcome` | src/scheduler.rs:109-151 | the same for a current task that is asleep and so not queued |
| `SchedulerRuns.NothingCurrent` | src/scheduler.rs:109-151 | without a current task, blocking, yielding and terminating do nothing |
| `SchedulerRuns.UnblockOutcome` | src/scheduler.rs:125-133 | a Blocked task becomes Ready and last in the queue; any other id changes nothing |
| `SchedulerRuns.ScheduledConsistent` | src/scheduler.rs:65-97 | scheduling restores the invariant even when the previous task just left the queue, and picks the head of any non-empty queue |
| `SchedulerRuns.StepInv` | src/scheduler.rs:34-151 | every operation keeps: no duplicates in the queue, queued means Ready or Running, at most the current task is Running, ids stay below the counter |
| `SchedulerRuns.RunInv` | src/scheduler.rs:34-151 | that invariant holds after every sequence of operations that does not exhaust the id counter |
| `SchedulerRuns.ReachableInv` | src/scheduler.rs:161-164 | the scheduler as `init` leaves it satisfies the invariant, and so does every state reached from it |
| `SchedulerRuns.ScheduleNeverLosesATask` | src/scheduler.rs:65-97 | in every reachable state `schedule` returns none exactly when no task is runnable, what it returns runs, and the queue keeps all its ids |
| `SchedulerRuns.TerminatedForever` | src/scheduler.rs:136-151 | a terminated task stays terminated and is never queued, current or running again |
| `SchedulerRuns.TerminateIsFinal` | src/scheduler.rs:136-151 | terminating the current task is for good: no later run queues, selects or runs it |
| `SchedulerRuns.ExactRotation` | src/scheduler.rs:65-97 | `k` calls of `schedule` rotate a non-empty queue `q` by `k`, and the running task is `q[(k-1) mod n]` |
| `SchedulerRuns.StepProgress` | src/scheduler.rs:65-151 | in each step a waiting task runs, or moves up one place if the step dispatched, and never moves back |
| `SchedulerRuns.BoundedWaiting` | src/scheduler.rs:65-151 | a ready task at index `p` runs within `p + 1` scheduling steps under any interleaving of additions, wake-ups, blocks and terminations |
| `Ipc.NewMessage` | src/ipc.rs:27-37 | more than 4096 bytes are refused; otherwise the message carries sender and data and no capability |
| `Ipc.IpcEndpoint.constructor` | src/ipc.rs:74-81 | an empty queue limited to 16 messages, and no waiters |
| `Ipc.IpcEndpoint.Send` | src/ipc.rs:84-97 | appends exactly when the queue is below its limit, and a full queue is left as it was |
| `Ipc.IpcEndpoint.TryReceive` | src/ipc.rs:100-102 | takes the oldest message off the front, or none from an empty queue |
| `Ipc.IpcEndpoint.AddWaiter` | src/ipc.rs:110-114 | a task is in the waiter list once, in order of first arrival |
| `Ipc.IpcEndpoint.TakeWaiters` | src/ipc.rs:117-119 | hands over all waiters in order and leaves none |
| `Ipc.IpcRegistry.CreateEndpoint` | src/ipc.rs:144-153 | as a map, a new id gets an empty endpoint and an id already present keeps its old endpoint |
| `Ipc.IpcRegistry.GetEndpointMut` | src/ipc.rs:156-158 | finds the first endpoint with the id, which is the one the map shows |
| `Ipc.IpcRegistry.OnlyChanged` | src/ipc.rs:156-158 | writing through the reference a lookup returned changes the map at that id and nowhere else |
| `Ipc.CreateEndpoint` | src/ipc.rs:192-196 | fails exactly when the registry is not initialised |
| `Ipc.CheckCapability` | src/ipc.rs:206-220 | opens an endpoint exactly with an endpoint capability that has the right asked for; any other id is denied alike |
| `Ipc.SendVerdictExactly` | src/ipc.rs:205-230 | a send is accepted if and only if the capability is an endpoint capability with the write right, the endpoint exists, the data has at most 4096 bytes and fewer than 16 messages wait; the error names the first of these that fails |
| `Ipc.ReceiveVerdictExactly` | src/ipc.rs:252-273 | a receive finds its endpoint if and only if the capability is an endpoint capability with the read right and the endpoint exists; the answer is the head of the queue, or the error of the first check that fails |
| `Ipc.DerivedCapabilityWorks` | src/ipc.rs:206-220 | a derived capability opens what its source opens, for the rights it was derived with |
| `Ipc.SendOutcome` | src/ipc.rs:222-243 | an accepted message is last at its endpoint, no waiter is left there, no other endpoint changes; a refusal changes nothing at all |
| `Ipc.TryReceiveOutcome` | src/ipc.rs:252-273 | the head is gone, the waiters stay, no other endpoint changes; a refusal changes nothing |
| `Ipc.WaitingOutcome` | src/ipc.rs:110-114 | a waiting receiver is listed once, after those already there, and nothing else changes at any endpoint |
| `Ipc.Enqueue` | src/ipc.rs:222-233 | checks in the source's order (endpoint, size, space); a refused message changes no endpoint, an accepted one is last in the queue and takes all waiters |
| `Ipc.SendTo` | src/ipc.rs:222-243 | the effect on endpoints and scheduler together: waiters are woken exactly when the message was accepted |
| `Ipc.WakeAll` | src/ipc.rs:236-241 | wakes each waiter in turn, whatever states they are in |
| `Ipc.SendMessage` | src/ipc.rs:199-244 | the new state of endpoints and scheduler, and the error, for every capability space, endpoint and payload |
| `Ipc.TryReceiveMessage` | src/ipc.rs:247-274 | the reply is the head of the endpoint the capability opens for reading; nothing else changes, and a refused receive changes nothing |
| `Ipc.RegisterWaiter` | src/ipc.rs:308-316 | the second critical section of a blocking receive: adds the waiter without looking at the queue |
| `Ipc.ReceivePass` | src/ipc.rs:282-331 | one uninterrupted pass of the receive loop: the head of the queue if there is one, otherwise the receiver is registered and the current task blocked |
| `Ipc.TryThenWait` | src/ipc.rs:302-330 | the body of the loop: it waits at the endpoint determined before the loop exactly when the try finds no message, which is then still there |
| `KernelRuns.WaitingKeepsExactly` | src/ipc.rs:306-325 | a pass that finds nothing keeps "no lost wake-up" if and only if the blocked task is the receiver, or nothing changes for either of them |
| `KernelRuns.UnblockedAllEffect` | src/scheduler.rs:125-133 | waking distinct blocked tasks makes all of them ready, queued in order behind the others, and touches no other task |
| `KernelRuns.SchedulerRefines` | src/ipc.rs:322-325 | every kernel step other than a send acts on the scheduler as one scheduler operation or not at all |
| `KernelRuns.StepInv` | src/ipc.rs:199-331 | every kernel step keeps: a non-empty endpoint has no waiters, and the waiters are exactly the Blocked tasks, each waiting once |
| `KernelRuns.RunInv` | src/ipc.rs:199-331 | no lost wake-up, in every reachable state of scheduler and endpoints together, when a receive is one step; task ids are never reused |
| `KernelRuns.ReachableInv` | src/ipc.rs:186-189 | the kernel as initialised satisfies the invariant, and so does every state reached from it |
| `KernelRuns.SendWakesEveryWaiter` | src/ipc.rs:231-241 | an accepted send leaves each former waiter Ready and queued, in waiting order behind those already there |
| `EndpointRuns.StepConserves` | src/ipc.rs:84-102 | in one step, queued then accepted equals received then still queued, at every endpoint |
| `EndpointRuns.Conservation` | src/ipc.rs:84-102 | over every run and for each endpoint id, repeated creation included: what was queued and then accepted is what was received and then is still queued, in order |
| `EndpointRuns.RefusedChangesNothing` | src/ipc.rs:205-230 | any number of refused operations leave endpoints, waiters and scheduler as they were |
| `EndpointRuns.LimitsHold` | src/ipc.rs:84-87 | no reachable queue exceeds 16 messages, and no message 4096 bytes |
| `EndpointRuns.SendProvenance` | src/ipc.rs:205-230 | the `k`-th message accepted by an endpoint was accepted at one particular step, after exactly `k` others, by a send whose snapshot allowed writing to that endpoint |
| `EndpointRuns.ReceiveProvenance` | src/ipc.rs:252-273 | the `k`-th message received from an endpoint was handed out at one particular step, after exactly `k` others, by a receive whose snapshot allowed reading from that endpoint |
| `EndpointRuns.QueueProvenance` | src/ipc.rs:205-230 | every message still queued at the end of a run was there at its start or was accepted at an authorised step |
| `EndpointRuns.NoAuthorityNoMessage` | src/ipc.rs:205-220 | across system calls and IPC: if no sender's process began with write authority over an endpoint, nothing is ever accepted there, however stale the snapshots |
| `EndpointRuns.NoAuthorityNoReceipt` | src/ipc.rs:252-264 | the read side: if no receiver's process began with read authority over an endpoint, nothing ever leaves it |
| `Revocation.LiveCheckNoticesExactly` | src/ipc.rs:252-264 | checked against the live space after any calls, a capability opens what it did before if and only if it opened nothing then or none of the calls revokes it |
| `Revocation.EveryPassAgrees` | src/ipc.rs:281-304 | checked against the space borrowed at the start, every pass of a receive in any run has the verdict of the first, so no revocation ends the waiting |
| `Revocation.RevokedReceiverStillReceives` | src/ipc.rs:281-304 | for every waiting receiver and run: once its capability is revoked the live space refuses, and the next pass takes the message all the same |
| `WakeLatency.BoundedWaiting` | src/scheduler.rs:65-151 | the `p + 1` bound also holds in runs of the whole kernel, with sends and receives interleaved |
| `WakeLatency.FirstMessageStays` | src/ipc.rs:252-273 | until something is received from an endpoint, the next receive gets the message at its head |
| `WakeLatency.WokenReceiverGetsTheMessage` | src/ipc.rs:231-241 | end to end: the `i`-th waiter runs within `ready + i + 1` scheduling steps of the send, and receives exactly that message unless another receive came first |
| `SplitReceive.RegisteringKeepsExactly` | src/ipc.rs:308-316 | registering after a separate check is harmless if and only if the queue is still empty at that moment |
| `SplitReceive.BlockingKeepsExactly` | src/ipc.rs:322-325 | blocking after a separate registration is harmless if and only if the task is still registered |
| `SplitReceive.LoopFindsNothing` | src/ipc.rs:302-330 | at an empty endpoint each of any number of uninterrupted passes registers and blocks |
| `SplitReceive.PassesBlockInTurn` | src/ipc.rs:302-330 | the whole state after `n + 1` such passes: the receiver and the first `n` other runnable tasks sleep in queue order, until nothing is runnable, and the endpoint lists the receiver only |
| `SplitReceive.LoopingOnKeepsExactly` | src/ipc.rs:302-330 | going round two or more times, since `block_current` returns, is harmless if and only if no other task was runnable |
| `SplitReceive.UnregisteredSleepsForever` | src/scheduler.rs:125-133 | a blocked task that no endpoint lists stays blocked in every run |
| `SplitReceive.FirstPass` | src/scheduler.rs:109-122 | after one pass the receiver sleeps, and the next queued task, if any, is marked running without having been switched to |
| `SplitReceive.BystandersSleepForever` | src/ipc.rs:302-330 | every task put to sleep by a pass after the first, none of which asked for a message, stays blocked in every later run |
| `SplitReceive.SendBeforeRegistering` | src/ipc.rs:304-316 | a send between check and registration leaves the receiver blocked at an endpoint that holds its message |
| `SplitReceive.SendBeforeBlocking` | src/ipc.rs:308-325 | a send between registration and block leaves the receiver blocked in every later run |
| `SplitReceive.TwoTasksIsReachable` | src/ipc.rs:192-196 | the state both traces start from is reached from boot by ordinary operations and satisfies the invariant |
| `SplitRuns.StepExactly` | src/ipc.rs:199-331 | with the three sections of a receive as separate steps, a step loses a wake-up if and only if it registers at an endpoint no longer empty or blocks a task no longer listed |
| `SplitRuns.NoneLostExactly` | src/ipc.rs:199-331 | the code as written, over every run and interleaving: no wake-up is lost at any point if and only if every registration and every block comes in time |
| `SplitRuns.ReachableNoneLostExactly` | src/ipc.rs:186-189 | the same for every run from boot, where no wake-up is lost yet |
| `SplitRuns.AtomicReceiveIsInTime` | src/ipc.rs:302-330 | the one-step receive of `KernelRuns` is exactly a registration followed by a block, both in time |
| `SplitRuns.LostTaskSleepsForever` | src/scheduler.rs:125-133 | a task blocked while no endpoint lists it never runs again in any run, unless it is registered anew |
| `SplitTraffic.Conservation` | src/ipc.rs:84-102 | with the sections of a receive interleaved in any way: what was queued and then accepted is what was received and then is still queued, in order, at every endpoint |
| `SplitTraffic.LimitsHold` | src/ipc.rs:84-87 | in every interleaving no queue exceeds 16 messages, and no message 4096 bytes |
| `SplitTraffic.SendProvenance` | src/ipc.rs:205-230 | in every interleaving the `k`-th accepted message was accepted at one step, after exactly `k` others, by a send under write authority over that endpoint |
| `SplitTraffic.ReceiveProvenance` | src/ipc.rs:252-273 | in every interleaving the `k`-th received message was handed out at one step, after exactly `k` others, under read authority over that endpoint |
| `SplitTraffic.QueueProvenance` | src/ipc.rs:205-230 | in every interleaving a message still queued was there at the start or was accepted at an authorised step |
| `WasmBus.BoundsCheckIsExact` | src/wasm_runtime.rs:311-317 | on sign-extended 32-bit arguments the saturating check accepts exactly the ranges inside the guest's memory |
| `WasmBus.FirstFor` | src/wasm_runtime.rs:478 | the index found has the client's id, and no earlier message has |
| `HostCalls.FoundExactly` | src/wasm_runtime.rs:53-57 | the capability found is the first of the module's for that endpoint, and none is found exactly when it has none |
| `HostCalls.SendOutcome` | src/wasm_runtime.rs:274-346 | accepted if and only if size, first matching capability, memory range and queue allow it; then that range is the new last message, otherwise nothing changes; each code stands for the first check that failed |
| `HostCalls.PublishOutcome` | src/wasm_runtime.rs:187-255 | the queue after a publish, message by message, and its answer, for all arguments and any number of subscribers |
| `HostCalls.SubscribeOutcome` | src/wasm_runtime.rs:146-184 | an accepted subscribe lists its client, at the end unless it is listed already; no other call or client is listed, and nobody is removed |
| `WasmBus.MessageBus.HostSysIpcSend` | src/wasm_runtime.rs:274-346 | queue and return code in every case, with the checks in the source's order (size, capability, right, memory, space) |
| `WasmBus.MessageBus.HostSysMqttPublish` | src/wasm_runtime.rs:187-255 | one copy for each of the first subscribers that free slots allow; the code counts all subscribers, cut to 32 bits |
| `WasmBus.MessageBus.HostSysMqttSubscribe` | src/wasm_runtime.rs:146-184 | the client is listed once; refused or panicking calls list nothing |
| `WasmBus.MessageBus.Perform` | src/wasm_runtime.rs:388-407 | a callback's host calls act on the shared queue and subscribers one after the other |
| `WasmBus.MessageBus.TakeFirst` | src/wasm_runtime.rs:475-483 | removes exactly the first message for the client and keeps the order of all others |
| `WasmBus.MessageBus.DeliverPendingMessages` | src/wasm_runtime.rs:470-562 | the loop against any guest ends in the state of the specified delivery and returns the number of messages the guest accepted |
| `DeliveryRuns.RemovalTakesTheHead` | src/wasm_runtime.rs:475-483 | the removal takes the head of the client's pending list and nothing from any other client |
| `DeliveryRuns.CallsAppend` | src/wasm_runtime.rs:239-252 | host calls only ever append to the queue |
| `DeliveryRuns.CallsInOrder` | src/wasm_runtime.rs:388-407 | a callback's host calls take effect in the order they are made |
| `DeliveryRuns.DeliveryConserves` | src/wasm_runtime.rs:470-562 | for any guest, re-entrant or failing: pending then enqueued equals consumed then still pending, in order; other clients only gain messages, in order |
| `DeliveryRuns.RoundLosesExactly` | src/wasm_runtime.rs:485-556 | a round does not lose its message if and only if the guest takes it, or fails outright in the allocation |
| `DeliveryRuns.DeliveryLosesExactly` | src/wasm_runtime.rs:470-562 | a delivery loses no message if and only if that holds of every turn played, and if and only if the returned count is the number of messages taken off the queue |
| `DeliveryRuns.DeliveryCountsAccepted` | src/wasm_runtime.rs:547-561 | the returned count is the number of messages accepted among those taken off the queue, and the number of turns in which the guest took its message, for any guest |
| `DeliveryRuns.TakesExactly` | src/wasm_runtime.rs:491-555 | a guest takes a message exactly by a positive pointer, a buffer inside its memory and a normal return |
| `DeliveryRuns.RoundOutcome` | src/wasm_runtime.rs:485-556 | how each answer of the guest ends a round: a failing allocation and a missing memory end the loop, nothing else does; an accepted payload is the first 512 bytes |
| `DeliveryRuns.RoundQueue` | src/wasm_runtime.rs:475-513 | the queue after a round: a message put back is at the very front, the others keep their order, host calls add at the end |
| `DeliveryRuns.DrainedMeansEmpty` | src/wasm_runtime.rs:557 | the loop ends by itself only when nothing is pending for the client |
| `DeliveryRuns.NullPointerLoses` | src/wasm_runtime.rs:496-500 | an allocation that answers with a null pointer destroys the message |
| `DeliveryRuns.LoopEndsInTime` | src/wasm_runtime.rs:474-559 | the loop is done within as many turns as messages were pending or enqueued for the client, so within the pending count if callbacks enqueue none |
| `DeliveryRuns.SelfFeedingNeverEnds` | src/wasm_runtime.rs:474-559 | there is no constant bound: a guest that sends to itself on each delivery keeps the loop running for any number of turns |
| `DeliveryRuns.DepthWithMessageInFlight` | src/wasm_runtime.rs:475-513 | while a message may still be put back, the queue together with it stays within 65 |
| `DeliveryRuns.DeliveryCounts` | src/wasm_runtime.rs:470-562 | queue length: what is on the queue after a delivery and what was consumed add up to what was on it and what was enqueued |
| `DeliveryRuns.DeliveryDepth` | src/wasm_runtime.rs:475-513 | a delivery leaves at most 65 messages, and from within 64 leaves more if and only if in some turn played the allocation fails after host calls that enqueue more than the 64 slots less the messages queued before the turn |
| `DeliveryRuns.RoundDepth` | src/wasm_runtime.rs:475-513 | a round that puts its message back leaves exactly as many messages more as the failing allocation enqueued; any other round ends within 64 |
| `DeliveryRuns.LimitIsExceeded` | src/wasm_runtime.rs:506-513 | with 64 queued, an allocation that sends one message and then fails leaves 65 |
| `DeliveryRuns.FoundCapability` | src/wasm_runtime.rs:53-57 | a capability that is found is one of the module's own, of the type and resource sought |
| `DeliveryRuns.DeliveryLegitimate` | src/wasm_runtime.rs:274-343 | messages enqueued from inside callbacks are legitimate too: a slice of in-range memory, at most 512 bytes, to a writable endpoint or a subscriber |
| `DeliveryRuns.PayloadsAreWhole` | src/wasm_runtime.rs:487-539 | the cut to 512 bytes never bites: an accepted message is handed over in full |
| `DeliveryRuns.PublishFansOut` | src/wasm_runtime.rs:235-254 | the number and content of the copies, and: the returned code equals that number if and only if nothing was cut off |
| `DeliveryRuns.SubscribeOutcomes` | src/wasm_runtime.rs:152-165 | subscribing succeeds if and only if the topic lies inside the memory, and panics if and only if a negative part wraps the sum back inside |
| `BusRuns.RunConserves` | src/wasm_runtime.rs:470-574 | first in, first out for each client over every run of host calls, deliveries and clearings by any modules |
| `BusRuns.RunDepth` | src/wasm_runtime.rs:17-18 | no reachable queue holds more than 65 messages |
| `BusRuns.LimitHoldsExactly` | src/wasm_runtime.rs:17-18 | the stated limit of 64 holds throughout a run if and only if no delivery in it plays a turn whose failing allocation enqueues more than there is room for |
| `BusRuns.LimitHoldsWithoutReentry` | src/wasm_runtime.rs:506-513 | in particular the limit holds throughout every run whose failing allocations enqueue nothing |
| `BusRuns.SubscribersStayDistinct` | src/wasm_runtime.rs:176-180 | the subscriber list never gets a duplicate, in any run with re-entrant guests |
| `Subscriptions.ListedExactly` | src/wasm_runtime.rs:176-180 | over any run a client is listed if and only if it was at the start or made an accepted subscribe call, on its own or inside a callback; the list only grows at its end |
| `Subscriptions.SubscriberGetsACopy` | src/wasm_runtime.rs:235-252 | from subscription to message: whoever subscribed in a run gets a copy of every accepted publish after it that has room for all |
| `BusRuns.QueueProvenance` | src/wasm_runtime.rs:274-343 | every queued message has an origin in the run: a call whose own memory it is a slice of and whose caller could write to its destination, or published to a subscriber |
| `Arm.CyclicCover` | src/arch/aarch64/scheduler.rs:112-131 | going round from any start meets every index within `n` steps, the start itself only at the last |
| `Arm.NextIsFirstReady` | src/arch/aarch64/scheduler.rs:112-131 | the task selected is the first Ready one in the order start+1, ..., start+n modulo n, and the start is kept without being Ready only when no task is |
| `Arm.SearchEndsExactly` | src/arch/aarch64/scheduler.rs:112-131 | the loop ends if and only if there are no tasks, the start is a task's index, or some task is Ready |
| `Arm.Board.constructor` | src/arch/aarch64/scheduler.rs:56-63 | eight blocked, zeroed tasks, switching disabled, no ticks |
| `Arm.Board.Spawn` | src/arch/aarch64/scheduler.rs:72-99 | the next slot becomes Ready at its entry point with its own stack in EL1h, and the ninth spawn is refused |
| `Arm.Board.Schedule` | src/arch/aarch64/scheduler.rs:112-131 | the loop terminates by cyclic distance and leaves the specified index current |
| `Arm.Board.SaveRegs` | src/arch/aarch64/exceptions.S:54-83 | after the seventeen stores the frame below SP holds x0 to x30, SP_EL0, ELR and SPSR as they were on entry, and no word outside it changed |
| `Arm.Board.RestoreRegs` | src/arch/aarch64/exceptions.S:86-115 | every register has its frame word although x0, x1 and x30 serve as temporaries, and SP is above the frame |
| `Arm.Board.BuildFrame` | src/arch/aarch64/scheduler.rs:307-354 | the frame written for the next task holds that task's context word for word |
| `Arm.Board.SaveContext` | src/arch/aarch64/scheduler.rs:230-277 | the interrupted task's context gets the frame's registers, its stack pointer excepted, and the task is Ready; an index out of range saves nothing |
| `Arm.Board.SwitchTask` | src/arch/aarch64/scheduler.rs:223-360 | the returned frame and the task table are those of the specified switch, the save included when a task is switched to itself |
| `Arm.Board.HandleIrq` | src/arch/aarch64/exceptions.rs:171-198 | each interrupt counts one tick, and every tenth switches if enabled |
| `Arm.Board.Enter` | src/arch/aarch64/exceptions.S:144-146 | on entry the frame on the stack holds the interrupted state |
| `Arm.Board.Leave` | src/arch/aarch64/exceptions.S:151-154 | returning through a frame that holds a state puts the processor in that state |
| `Arm.Board.Irq` | src/arch/aarch64/exceptions.S:144-154 | the whole path from interrupted instruction to exception return equals the specified interrupt, whatever the handler leaves in registers and on its stack |
| `ArmRuns.SpawnOutcome` | src/arch/aarch64/task.rs:105-123 | a spawned task takes the next of 8 slots: Ready, at its entry point, on its own stack, in EL1h, registers zero; the ninth is refused |
| `ArmRuns.SwitchedStates` | src/arch/aarch64/scheduler.rs:274-284 | after a switch the selected task is Running, all others are Ready, and ids and unused slots stay |
| `ArmRuns.QuietIrq` | src/arch/aarch64/exceptions.rs:191-196 | an interrupt that is not due for a switch only counts its tick |
| `ArmRuns.SwitchedTakesTurns` | src/arch/aarch64/scheduler.rs:279-288 | in every reachable state a switch ends, moves on by exactly one task, and keeps the invariant |
| `ArmRuns.FirstSpawnEstablishesInv` | src/main_aarch64.rs:417-419 | the first spawn establishes the invariant of all later runs |
| `ArmRuns.StepRefines` | src/arch/aarch64/scheduler.rs:223-360 | each step of the one processor is a step of a machine where every task owns its registers |
| `ArmRuns.RunRefines` | src/arch/aarch64/scheduler.rs:223-360 | register fidelity: whole runs with save, switch and restore are indistinguishable from a machine where interrupts only choose who runs |
| `ArmRuns.OthersLeaveFileAlone` | src/arch/aarch64/scheduler.rs:307-354 | nothing done while other tasks run changes a task's registers |
| `ArmRuns.ResumesWhereInterrupted` | src/arch/aarch64/exceptions.S:144-154 | a task that gets the processor back has the x0-x30, PC and PSTATE it had when it lost it, whatever ran in between |
| `ArmRuns.StackPointerSurvivesExactly` | src/arch/aarch64/scheduler.rs:271-274 | a task that has the processor again after an interrupt, at once or after others, finds SP (and SP_EL0) as it left it if and only if that tick did not switch or SP was the stack top |
| `ArmRuns.FirstRunStartsAtEntry` | src/arch/aarch64/task.rs:105-123 | over any run: when a new task first gets the processor, it is at its entry point in EL1h, on its own empty stack, with x0 to x30 zero |
| `ArmRuns.IrqMoves` | src/arch/aarch64/exceptions.rs:176-196 | an interrupt moves to the next task and counts a switch on ticks that are multiples of ten, and does neither on others |
| `ArmRuns.TicksDecideTheTask` | src/arch/aarch64/exceptions.rs:171-198 | after `k` interrupts from tick `t0` the current task and the switch counter have advanced by `(t0 + k) / 10 - t0 / 10` |
| `ArmRuns.EachTaskOnceARound` | src/arch/aarch64/scheduler.rs:112-131 | among any `n` consecutive switches each of the `n` tasks is selected exactly once |
| `Frames.FrameAllocator.NthUsable` | src/memory.rs:66-82 | walking the regions finds the `n`-th frame of the flattened list, or none past its end |
| `Frames.FrameAllocator.AllocateFrame` | src/memory.rs:85-89 | returns the frame at the index and moves the index on, also when there is none left |
| `Frames.AllocationEnumerates` | src/memory.rs:85-89 | `k` calls return the usable frames in order while there are any, and none from then on |
| `Frames.CountsSteps` | src/memory.rs:69-77 | a usable region has a frame for each multiple of 4096 that keeps below its end, any other region none |
| `Frames.FrameInPlace` | src/memory.rs:66-82 | which frame comes where: regions in the order of the memory map, and the `k`-th frame of a region at `4096 * k` into it, rounded down |
| `Frames.FrameInUsableRegion` | src/memory.rs:66-82 | when usable regions start on boundaries, overlapping or not, every frame is aligned and starts in a usable region, and lies wholly in it when the region ends on a boundary |
| `Frames.FramesWhollyInsideExactly` | src/memory.rs:72-81 | for every region whatsoever: its frames all lie wholly inside it if and only if it has none, or it starts and ends on frame boundaries |
| `Frames.EveryUsableFrameIsListed` | src/memory.rs:66-82 | when usable regions start on boundaries, every aligned address of a usable region is one of the frames |
| `Frames.FramesAreDistinctExactly` | src/memory.rs:66-82 | for every memory map whatsoever: no frame is handed out twice if and only if the usable regions' frame ranges, with starts rounded down, do not meet |
| `Frames.FramesAreDistinct` | src/memory.rs:66-82 | in particular none is when usable regions are disjoint and start on boundaries, wherever they end |
| `Frames.UnalignedRegionsCollide` | src/memory.rs:80-81 | without aligned starts, two disjoint regions hand out the same frame |
| `Heap.PagesExactly` | src/allocator.rs:38-42 | the pages mapped are exactly the 2048 that hold a byte of the 8 MiB heap |
| `Heap.Mapper.MapTo` | src/allocator.rs:49-51 | mapping a page succeeds exactly when it is not refused and the allocator can supply its page tables, which then come from the same list |
| `Heap.MapPage` | src/allocator.rs:44-51 | a page's own frame is the next of the list and its page tables the ones after it; it fails exactly when refused or when the list is too short |
| `Heap.InitHeap` | src/allocator.rs:33-62 | the heap is mapped if and only if no page is refused and the memory map has a frame for each page and each page table; page `j` has its own place in the list, and no page outside the heap is touched |
| `Heap.HeapFramesAreItsOwn` | src/allocator.rs:39-53 | on success, unless the memory map itself hands a frame out twice, every page holding a heap byte is mapped, no two to the same frame, and none to a frame used as a page table |

## Left out

- ReceivePass: is one pass of the loop. That the receiver does not run between blocking and its next turn is an assumption of `KernelRuns`; `SplitReceive` and `SplitRuns` treat the code without it.
- StepInv: in `KernelRuns`, takes the three sections of a receive as one step; `SplitRuns.StepExactly` is the statement for separate steps.
- RunInv: in `KernelRuns`, likewise; `SplitRuns.NoneLostExactly` is the statement for separate steps.
- TaskYield: covers the decision made under the lock; the context switch itself is left out, and the scheduler is taken to be initialised (as for all the `unwrap`s on it), with the current task present in the list.
- TaskIds.NewTask: leaves out stack, register context, name, priority (which the scheduler never reads) and the task's own capability space.
- DeliverPendingMessages: takes the guest's turns as a list and stops when the list does, since the loop itself need not end; guest memory contents written by the kernel are represented by the payload handed over.
- HostSysMqttSubscribe: a panic leaves the state as it was and the run goes on, which allows more runs than a halted kernel.
- Irq: memory is a map of 64-bit words at unbounded integer addresses, so a frame address does not wrap below zero; overlap of the new frame with live stack data of the task is not tracked.
- StackPointerSurvivesExactly: only the stack pointer is covered; the contents of task stacks are not part of the model.
- AllocateFrame: the index is unbounded, and addresses beyond 52 bits, for which `PhysAddr::new` panics, are treated like others.
- InitHeap: handing the mapped range to the linked-list allocator is left out.
- MapTo: which pages need new tables, flags and TLB flushes are not modelled; the oracle allows every number of tables.
- Messages that carry a capability (src/ipc.rs:40-54): nothing in the repository sends one.
- `TaskList::remove` and `yield_cpu`: not used on any modelled path.
- x86 `switch_context` and `task_entry_wrapper`, and AArch64 `switch_context` and `switch_to_next`, which the interrupt path does not use.
- The AArch64 boot jump into the first task, and interrupts taken before it.
- `src/arch/aarch64/mmu.rs`: disabled in the source.
- The wasmi interpreter and module loading; `host_syscall`, `sys_print` and `host_print`, whose answers are constants; topic strings, which are only logged.
- Serial output, interrupt controllers, timers, descriptor tables, benchmarks, scripts and demo modules.
- Lock order, interrupt masking and memory ordering: every section under a lock is one step.
