/**
 * The AArch64 tick-driven task switcher: exception frames, the scheduler and the IRQ path
 * (src/arch/aarch64/scheduler.rs, exceptions.rs, exceptions.S, task.rs). Memory is word-granular.
 */
module Arm {
  import opened Prelude

  const MAX_TASKS: nat := 8
  const FRAME_BYTES: nat := 272

  /** x0 to x30. */
  type Regs = s: seq<u64> | |s| == 31 witness seq(31, _ => 0)

  function ZeroRegs(): Regs { seq(31, _ => 0) }

  datatype TaskContext = TaskContext(x: Regs, sp: u64, pc: u64, pstate: u64)

  /** EL1h, all exceptions unmasked. */
  const EL1H: u64 := 0x5

  function Init(entryPoint: u64, stackTop: u64): TaskContext {
    TaskContext(ZeroRegs(), stackTop, entryPoint, EL1H)
  }

  datatype TaskState = Ready | Running | Blocked
  datatype Task = Task(context: TaskContext, state: TaskState, id: nat)

  // ----- Exception frames -----

  type Memory = map<int, u64>

  function Word(mem: Memory, a: int): u64 {
    if a in mem then mem[a] else 0
  }

  /** An `ExceptionFrame` read from memory: x0 to x30, SP_EL0, ELR_EL1, SPSR_EL1. */
  function FrameAt(mem: Memory, base: int): seq<u64> {
    seq(34, i requires 0 <= i < 34 => Word(mem, base + 8 * i))
  }

  predicate InFrame(a: int, base: int) {
    base <= a < base + FRAME_BYTES
  }

  ghost predicate OnlyFrameChanged(before: Memory, after: Memory, base: int) {
    forall a :: !InFrame(a, base) ==> Word(after, a) == Word(before, a)
  }

  // ----- The scheduler's search -----

  predicate IsReady(tasks: seq<Task>, i: nat) {
    i < |tasks| && tasks[i].state == Ready
  }

  /** The index `k` places after `start`, going round. */
  function Ahead(start: nat, n: nat, k: nat): nat
    requires 0 < n
  {
    (start + k) % n
  }

  /** The task at which the cyclic search stops that has `k` steps behind it after this one. */
  function Search(tasks: seq<Task>, n: nat, start: nat, k: nat): (r: nat)
    requires 0 < n
    ensures r < n
    decreases n - k
  {
    if k >= n || IsReady(tasks, Ahead(start, n, k)) then Ahead(start, n, k) else Search(tasks, n, start, k + 1)
  }

  function Next(tasks: seq<Task>, n: nat, start: nat): (r: nat)
    ensures n > 0 ==> r < n
  {
    if n == 0 then start else Search(tasks, n, start, 1)
  }

  /** The search ends: it comes back to its start, or finds a ready task. */
  ghost predicate SearchEnds(tasks: seq<Task>, n: nat, start: nat) {
    n == 0 || start < n || exists i :: 0 <= i < n && IsReady(tasks, i)
  }

  /** Going round from `start` meets every index within `n` steps, `start` itself only at the last. */
  lemma CyclicCover(start: nat, n: nat, i: nat) returns (k: nat)
    requires i < n
    ensures 1 <= k <= n && Ahead(start, n, k) == i
    ensures start == i ==> k == n
  {
    var r := start % n;
    k := if i > r then i - r else i - r + n;
    var q := start / n;
    if i > r {
      assert start + k == q * n + i;
      DivModUnique(start + k, n, q, i);
    } else {
      assert start + k == (q + 1) * n + i;
      DivModUnique(start + k, n, q + 1, i);
    }
    if start == i {
      DivModUnique(start, n, 0, start);
    }
  }

  lemma CyclicDistinct(start: nat, n: nat, j: nat, k: nat)
    requires 0 < n && 1 <= j <= k <= n && Ahead(start, n, j) == Ahead(start, n, k)
    ensures j == k
  {
    var qj, qk := (start + j) / n, (start + k) / n;
    assert (qk - qj) * n == k - j by {
      assert start + j == qj * n + Ahead(start, n, j);
      assert start + k == qk * n + Ahead(start, n, k);
      assert (qk - qj) * n == qk * n - qj * n;
    }
    MulGrows(qk - qj, n);
  }

  /** The search passes over tasks that are not ready, in cyclic order, and stops at the first that is. */
  lemma {:induction false} SearchFindsFirst(tasks: seq<Task>, n: nat, start: nat, k: nat) returns (stop: nat)
    requires 1 <= k <= n
    ensures k <= stop <= n && Search(tasks, n, start, k) == Ahead(start, n, stop)
    ensures stop < n ==> IsReady(tasks, Ahead(start, n, stop))
    ensures forall j :: k <= j < stop ==> !IsReady(tasks, Ahead(start, n, j))
    decreases n - k
  {
    if k >= n || IsReady(tasks, Ahead(start, n, k)) {
      stop := k;
    } else {
      stop := SearchFindsFirst(tasks, n, start, k + 1);
    }
  }

  /**
   * `schedule` selects the first ready task in the order start+1, ..., start+n modulo n; it comes back
   * to a start that is not ready only when no task is.
   */
  lemma NextIsFirstReady(tasks: seq<Task>, n: nat, start: nat) returns (stop: nat)
    requires start < n
    ensures 1 <= stop <= n && Next(tasks, n, start) == Ahead(start, n, stop)
    ensures forall j :: 1 <= j < stop ==> !IsReady(tasks, Ahead(start, n, j))
    ensures IsReady(tasks, Next(tasks, n, start)) <==> exists i :: 0 <= i < n && IsReady(tasks, i)
    ensures !IsReady(tasks, Next(tasks, n, start)) ==> Next(tasks, n, start) == start
  {
    stop := SearchFindsFirst(tasks, n, start, 1);
    var back := CyclicCover(start, n, start);
    if !IsReady(tasks, Next(tasks, n, start)) {
      forall i | 0 <= i < n
        ensures !IsReady(tasks, i)
      {
        var k := CyclicCover(start, n, i);
      }
    }
  }

  // ----- One core, as a value -----

  /**
   * What a task and the scheduler can observe between interrupts: registers, stack pointers, the task
   * table and the tick state.
   */
  datatype Core = Core(x: Regs, pc: u64, pstate: u64, sp: int, spEl0: u64,
                       tasks: seq<Task>, numTasks: nat, current: nat,
                       ticks: u64, enabled: bool, switches: u64) {

    /** `scheduler_switch_task` seen from outside. */
    function Switched(): Core
      requires numTasks <= |tasks| == MAX_TASKS && (numTasks == 0 ==> current < MAX_TASKS)
    {
      var next := Next(Saved(), numTasks, current);
      var task := Saved()[next];
      Core(task.context.x, task.context.pc, task.context.pstate, task.context.sp, task.context.sp,
           Saved()[next := Task(task.context, Running, task.id)], numTasks, next, ticks, enabled, Bumped(switches))
    }

    /** The task table with the interrupted task's registers stored, all but SP, and the task ready again. */
    function Saved(): seq<Task> {
      if current < numTasks && current < |tasks|
      then tasks[current := Task(TaskContext(x, tasks[current].context.sp, pc, pstate), Ready, tasks[current].id)]
      else tasks
    }

    /** A timer interrupt: count it, and switch on every tenth tick while switching is enabled. */
    function Interrupted(): Core
      requires numTasks <= |tasks| == MAX_TASKS && (numTasks == 0 ==> current < MAX_TASKS)
    {
      var ticked := this.(ticks := Bumped(ticks));
      if enabled && ticked.ticks % 10 == 0 then ticked.Switched() else ticked
    }

    function Spawned(entryPoint: u64, stackTop: u64): Core
      requires |tasks| == MAX_TASKS
    {
      if numTasks >= MAX_TASKS then this
      else this.(tasks := tasks[numTasks := Task(Init(entryPoint, stackTop), Ready, numTasks)],
        numTasks := numTasks + 1)
    }
  }

  class Board {
    var x: Regs
    var pc: u64
    var pstate: u64
    var sp: int
    var spEl0: u64
    var elr: u64
    var spsr: u64
    var mem: Memory

    const tasks: array<Task>
    var numTasks: nat
    var currentTask: nat
    var timerTicks: u64
    var schedulerEnabled: bool
    var switchCounter: u64

    ghost predicate Valid()
      reads this
    {
      numTasks <= MAX_TASKS == tasks.Length && (numTasks == 0 ==> currentTask < MAX_TASKS)
    }

    ghost function State(): Core
      reads this, tasks
    {
      Core(x, pc, pstate, sp, spEl0, tasks[..], numTasks, currentTask, timerTicks, schedulerEnabled, switchCounter)
    }

    /** The registers an exception frame holds, in frame order. */
    function FrameWords(): seq<u64>
      reads this
    {
      x + [spEl0, elr, spsr]
    }

    constructor ()
      ensures Valid() && fresh(tasks) && numTasks == 0 && currentTask == 0
      ensures timerTicks == 0 && !schedulerEnabled && switchCounter == 0
      ensures forall i :: 0 <= i < MAX_TASKS ==> tasks[i] == Task(TaskContext(ZeroRegs(), 0, 0, 0), Blocked, 0)
    {
      x, pc, pstate, sp, spEl0, elr, spsr, mem := ZeroRegs(), 0, 0, 0, 0, 0, 0, map[];
      tasks := new Task[MAX_TASKS](_ => Task(TaskContext(ZeroRegs(), 0, 0, 0), Blocked, 0));
      numTasks, currentTask, timerTicks, schedulerEnabled, switchCounter := 0, 0, 0, false, 0;
    }

    // ----- Scheduler -----

    method Spawn(entryPoint: u64, stackTop: u64) returns (r: Option<nat>)
      requires Valid()
      modifies this`numTasks, tasks
      ensures Valid() && State() == old(State()).Spawned(entryPoint, stackTop)
      ensures r == if old(numTasks) < MAX_TASKS then Some(old(numTasks)) else None
    {
      if numTasks >= MAX_TASKS {
        return None;
      }
      var taskId := numTasks;
      tasks[taskId] := Task(Init(entryPoint, stackTop), Ready, taskId);
      numTasks := numTasks + 1;
      return Some(taskId);
    }

    /** The loop ends because each step moves one place round towards the start, or towards a ready task. */
    method Schedule()
      requires Valid() && SearchEnds(tasks[..], numTasks, currentTask)
      modifies this`currentTask
      ensures Valid() && currentTask == Next(tasks[..], numTasks, old(currentTask))
      ensures numTasks == 0 ==> currentTask == old(currentTask)
    {
      if numTasks == 0 {
        return;
      }
      var start := currentTask;
      ghost var k := 0;
      ghost var stop := StopsInTime(tasks[..], numTasks, start);
      while true
        invariant 0 <= k < stop
        invariant k == 0 ==> currentTask == start
        invariant k > 0 ==> currentTask == Ahead(start, numTasks, k)
        decreases numTasks - k
      {
        StepRound(start, numTasks, k, currentTask);
        currentTask := (currentTask + 1) % numTasks;
        k := k + 1;
        assert k < stop ==> !StopsAfter(tasks[..], numTasks, start, k);
        if tasks[currentTask].state == Ready {
          break;
        }
        if currentTask == start {
          break;
        }
      }
    }

    // ----- Exception entry and exit -----

    /** Store registers `i` and `j` of `regs` as the next pair of the frame `words` at `base`, over `before`. */
    method StpX(base: int, regs: Regs, i: nat, j: nat, offset: nat, ghost words: seq<u64>, ghost before: Memory)
      requires j == i + 1 < 31 && offset == 8 * i && Stored(before, mem, base, words, i)
      requires regs[i] == words[i] && regs[j] == words[j]
      modifies this`mem
      ensures Stored(before, mem, base, words, i + 2)
    {
      Stp(base, regs[i], regs[j], offset, words, before);
    }

    method Stp(base: int, a: u64, b: u64, offset: nat, ghost words: seq<u64>, ghost before: Memory)
      requires offset % 8 == 0 && offset / 8 < 33 && Stored(before, mem, base, words, offset / 8)
      requires a == words[offset / 8] && b == words[offset / 8 + 1]
      modifies this`mem
      ensures Stored(before, mem, base, words, offset / 8 + 2)
    {
      mem := mem[base + offset := a][base + offset + 8 := b];
    }

    /** x0 to x15. */
    method StoreLow(base: int, regs: Regs, ghost words: seq<u64>, ghost before: Memory)
      requires Stored(before, mem, base, words, 0) && words[..31] == regs
      modifies this`mem
      ensures Stored(before, mem, base, words, 16)
    {
      StpX(base, regs, 0, 1, 16 * 0, words, before);
      StpX(base, regs, 2, 3, 16 * 1, words, before);
      StpX(base, regs, 4, 5, 16 * 2, words, before);
      StpX(base, regs, 6, 7, 16 * 3, words, before);
      StpX(base, regs, 8, 9, 16 * 4, words, before);
      StpX(base, regs, 10, 11, 16 * 5, words, before);
      StpX(base, regs, 12, 13, 16 * 6, words, before);
      StpX(base, regs, 14, 15, 16 * 7, words, before);
    }

    /** x16 to x29. */
    method StoreHigh(base: int, regs: Regs, ghost words: seq<u64>, ghost before: Memory)
      requires Stored(before, mem, base, words, 16) && words[..31] == regs
      modifies this`mem
      ensures Stored(before, mem, base, words, 30)
    {
      StpX(base, regs, 16, 17, 16 * 8, words, before);
      StpX(base, regs, 18, 19, 16 * 9, words, before);
      StpX(base, regs, 20, 21, 16 * 10, words, before);
      StpX(base, regs, 22, 23, 16 * 11, words, before);
      StpX(base, regs, 24, 25, 16 * 12, words, before);
      StpX(base, regs, 26, 27, 16 * 13, words, before);
      StpX(base, regs, 28, 29, 16 * 14, words, before);
    }

    method SaveRegs()
      modifies this`sp, this`mem, this`x
      ensures sp == old(sp) - 272
      ensures FrameAt(mem, sp) == old(FrameWords())
      ensures forall i :: 0 <= i < 31 ==> FrameAt(mem, sp)[i] == old(x)[i]
      ensures Word(mem, sp + 248) == old(spEl0) && Word(mem, sp + 256) == old(elr) && Word(mem, sp + 264) == old(spsr)
      ensures OnlyFrameChanged(old(mem), mem, sp)
    {
      ghost var words, before := FrameWords(), mem;
      sp := sp - FRAME_BYTES;
      StoreLow(sp, x, words, before);
      StoreHigh(sp, x, words, before);
      x := Updated(x, 0, spEl0);
      Stp(sp, x[30], x[0], 16 * 15, words, before);
      x := Updated(Updated(x, 0, elr), 1, spsr);
      Stp(sp, x[0], x[1], 16 * 16, words, before);
      StoredAll(before, mem, sp, words);
      FrameFields(mem, sp, old(x), spEl0, elr, spsr);
    }

    /** `ldp xi, xj, [sp, #offset]`, the registers above having been loaded from the frame `words`. */
    method LdpX(i: nat, j: nat, offset: nat, ghost words: seq<u64>)
      requires j == i + 1 < 30 && offset == 8 * i
      requires words == FrameAt(mem, sp) && x[30] == words[30] && Loaded(x, words, i + 2)
      modifies this`x
      ensures x[30] == words[30] && Loaded(x, words, i)
    {
      x := Updated(Updated(x, i, Word(mem, sp + offset)), j, Word(mem, sp + offset + 8));
    }

    method LoadHigh(ghost words: seq<u64>)
      requires words == FrameAt(mem, sp) && x[30] == words[30]
      modifies this`x
      ensures x[30] == words[30] && Loaded(x, words, 16)
    {
      LdpX(28, 29, 16 * 14, words);
      LdpX(26, 27, 16 * 13, words);
      LdpX(24, 25, 16 * 12, words);
      LdpX(22, 23, 16 * 11, words);
      LdpX(20, 21, 16 * 10, words);
      LdpX(18, 19, 16 * 9, words);
      LdpX(16, 17, 16 * 8, words);
    }

    method LoadLow(ghost words: seq<u64>)
      requires words == FrameAt(mem, sp) && x[30] == words[30] && Loaded(x, words, 16)
      modifies this`x
      ensures x[30] == words[30] && Loaded(x, words, 0)
    {
      LdpX(14, 15, 16 * 7, words);
      LdpX(12, 13, 16 * 6, words);
      LdpX(10, 11, 16 * 5, words);
      LdpX(8, 9, 16 * 4, words);
      LdpX(6, 7, 16 * 3, words);
      LdpX(4, 5, 16 * 2, words);
      LdpX(2, 3, 16 * 1, words);
      LdpX(0, 1, 16 * 0, words);
    }

    method RestoreRegs()
      modifies this`sp, this`x, this`spEl0, this`elr, this`spsr
      ensures sp == old(sp) + 272
      ensures FrameWords() == FrameAt(mem, old(sp))
    {
      ghost var words := FrameAt(mem, sp);
      x := Updated(Updated(x, 0, Word(mem, sp + 16 * 16)), 1, Word(mem, sp + 16 * 16 + 8));
      elr, spsr := x[0], x[1];
      x := Updated(Updated(x, 30, Word(mem, sp + 16 * 15)), 0, Word(mem, sp + 16 * 15 + 8));
      spEl0 := x[0];
      LoadHigh(words);
      LoadLow(words);
      sp := sp + FRAME_BYTES;
    }

    // ----- The timer interrupt -----

    /** Write `context` as an exception frame at `base`. */
    method BuildFrame(base: int, context: TaskContext)
      modifies this`mem
      ensures FrameAt(mem, base) == context.x + [context.sp, context.pc, context.pstate]
      ensures OnlyFrameChanged(old(mem), mem, base)
    {
      ghost var words, before := context.x + [context.sp, context.pc, context.pstate], mem;
      StoreLow(base, context.x, words, before);
      StoreHigh(base, context.x, words, before);
      Stp(base, context.x[30], context.sp, 16 * 15, words, before);
      Stp(base, context.pc, context.pstate, 16 * 16, words, before);
      StoredAll(before, mem, base, words);
    }

    /** Store the interrupted task's registers, except SP, from the frame; a task index out of range saves nothing. */
    method SaveContext(frame: int)
      requires Valid()
      modifies tasks
      ensures var words, t := FrameAt(mem, frame), old(tasks[..]);
        tasks[..] == if currentTask < numTasks
          then t[currentTask := Task(TaskContext(words[..31], t[currentTask].context.sp, words[32], words[33]),
                                     Ready, t[currentTask].id)]
          else t
    {
      if currentTask < numTasks {
        var words := FrameAt(mem, frame);
        var task := tasks[currentTask];
        tasks[currentTask] := Task(TaskContext(words[..31], task.context.sp, words[32], words[33]), Ready, task.id);
      }
    }

    /** The scheduler side of `core` is the board's, and the frame in memory holds its registers. */
    ghost predicate Holds(frame: int, core: Core)
      reads this, tasks
    {
      && FrameAt(mem, frame) == core.x + [core.spEl0, core.pc, core.pstate]
      && tasks[..] == core.tasks && numTasks == core.numTasks && currentTask == core.current
      && timerTicks == core.ticks && schedulerEnabled == core.enabled && switchCounter == core.switches
    }

    /** `scheduler_switch_task`: returns the frame to restore, built on the next task's stack. */
    method SwitchTask(frame: int, ghost core: Core) returns (nextFrame: int)
      requires Valid() && Holds(frame, core) && SearchEnds(core.Saved(), numTasks, currentTask)
      modifies this`mem, this`currentTask, this`switchCounter, tasks
      ensures Valid() && Holds(nextFrame, core.Switched()) && nextFrame == core.Switched().sp - FRAME_BYTES
    {
      assert FrameAt(mem, frame)[..31] == core.x;
      SaveContext(frame);
      assert tasks[..] == core.Saved();
      Schedule();
      var next := tasks[currentTask];
      tasks[currentTask] := Task(next.context, Running, next.id);
      switchCounter := Bumped(switchCounter);
      nextFrame := next.context.sp - FRAME_BYTES;
      BuildFrame(nextFrame, next.context);
    }

    method HandleIrq(frame: int, ghost core: Core) returns (returned: int)
      requires Valid() && Holds(frame, core) && frame == core.sp - FRAME_BYTES
      requires SearchEnds(core.Saved(), numTasks, currentTask)
      modifies this`mem, this`currentTask, this`switchCounter, this`timerTicks, tasks
      ensures Valid() && Holds(returned, core.Interrupted()) && returned == core.Interrupted().sp - FRAME_BYTES
    {
      timerTicks := Bumped(timerTicks);
      if schedulerEnabled && timerTicks % 10 == 0 {
        returned := SwitchTask(frame, core.(ticks := timerTicks));
      } else {
        returned := frame;
      }
    }

    /** Exception entry: the processor banks PC and PSTATE, then `SAVE_REGS`. */
    method Enter(ghost core: Core)
      requires core == State()
      modifies this`elr, this`spsr, this`sp, this`mem, this`x
      ensures Holds(sp, core) && sp == core.sp - FRAME_BYTES
    {
      elr, spsr := pc, pstate;
      SaveRegs();
    }

    /** `mov sp, x0`, `RESTORE_REGS` and `eret`. */
    method Leave(frame: int, ghost core: Core)
      requires Holds(frame, core) && frame == core.sp - FRAME_BYTES
      modifies this`sp, this`x, this`spEl0, this`elr, this`spsr, this`pc, this`pstate
      ensures State() == core
    {
      sp := frame;
      RestoreRegs();
      assert FrameWords()[..31] == x && FrameWords()[31..] == [spEl0, elr, spsr];
      pc, pstate := elr, spsr;
    }

    /**
     * `el1_spx_irq`, from the interrupted instruction to the exception return. The handler may leave any
     * values in the registers and write its own stack words, as long as those are not in the frame it returns.
     */
    method Irq(junk: Regs, scratch: Memory)
      requires Valid() && SearchEnds(State().Saved(), numTasks, currentTask)
      requires forall a :: a in scratch ==> !InFrame(a, State().Interrupted().sp - FRAME_BYTES)
      modifies this, tasks
      ensures Valid() && State() == old(State()).Interrupted()
    {
      ghost var core := State();
      Enter(core);
      var returned := HandleIrq(sp, core);
      ScratchKeepsFrame(mem, scratch, returned);
      x := junk;
      mem := mem + scratch;
      Leave(returned, core.Interrupted());
    }
  }

  lemma ScratchKeepsFrame(mem: Memory, scratch: Memory, base: int)
    requires forall a :: a in scratch ==> !InFrame(a, base)
    ensures FrameAt(mem + scratch, base) == FrameAt(mem, base)
  {
  }

  /** Where the fields of an exception frame are: xi at 8 * i, SP_EL0 at 248, ELR_EL1 at 256, SPSR_EL1 at 264. */
  lemma FrameFields(mem: Memory, base: int, x: Regs, spEl0: u64, elr: u64, spsr: u64)
    requires FrameAt(mem, base) == x + [spEl0, elr, spsr]
    ensures forall i :: 0 <= i < 31 ==> FrameAt(mem, base)[i] == x[i]
    ensures Word(mem, base + 248) == spEl0 && Word(mem, base + 256) == elr && Word(mem, base + 264) == spsr
  {
    assert FrameAt(mem, base)[31] == spEl0 && FrameAt(mem, base)[32] == elr && FrameAt(mem, base)[33] == spsr;
  }

  lemma StoredAll(before: Memory, mem: Memory, base: int, words: seq<u64>)
    requires Stored(before, mem, base, words, 34)
    ensures FrameAt(mem, base) == words && OnlyFrameChanged(before, mem, base)
  {
  }

  function Updated(x: Regs, i: nat, v: u64): (r: Regs)
    requires i < 31
    ensures r == x[i := v]
  {
    var r: seq<u64> := x[i := v];
    r
  }

  /** The first `k` words of a frame are in memory at `base`, and nothing outside the frame has changed. */
  ghost predicate Stored(before: Memory, mem: Memory, base: int, words: seq<u64>, k: nat) {
    && k <= |words| == 34
    && (forall i :: 0 <= i < k ==> Word(mem, base + 8 * i) == words[i])
    && OnlyFrameChanged(before, mem, base)
  }

  ghost predicate Loaded(x: Regs, words: seq<u64>, from: nat) {
    |words| == 34 && forall i :: from <= i < 30 ==> x[i] == words[i]
  }

  lemma StepRound(start: nat, n: nat, k: nat, current: nat)
    requires 0 < n && (if k == 0 then current == start else current == Ahead(start, n, k))
    ensures (current + 1) % n == Ahead(start, n, k + 1)
  {
    DivModStep(start + k, n);
    if k > 0 {
      var r := Ahead(start, n, k);
      DivModUnique(r, n, 0, r);
      DivModStep(r, n);
    }
  }

  /** Whether the loop in `schedule` stops after its `k`-th step round. */
  ghost predicate StopsAfter(tasks: seq<Task>, n: nat, start: nat, k: nat)
    requires 0 < n
  {
    IsReady(tasks, Ahead(start, n, k)) || Ahead(start, n, k) == start
  }

  /**
   * `SearchEnds` is exactly termination: started from an index that is not a task's, with no task
   * ready, the loop goes round for ever.
   */
  lemma SearchEndsExactly(tasks: seq<Task>, n: nat, start: nat)
    ensures SearchEnds(tasks, n, start) <==> n == 0 || exists k: nat :: 1 <= k && StopsAfter(tasks, n, start, k)
  {
    if 0 < n && SearchEnds(tasks, n, start) {
      var i := start;
      if start >= n {
        i :| 0 <= i < n && IsReady(tasks, i);
      }
      var k := CyclicCover(start, n, i);
      assert StopsAfter(tasks, n, start, k);
    }
  }

  /** When the search ends, the loop stops where it should, and nowhere before. */
  lemma StopsInTime(tasks: seq<Task>, n: nat, start: nat) returns (stop: nat)
    requires 0 < n && SearchEnds(tasks, n, start)
    ensures 1 <= stop <= n && Next(tasks, n, start) == Ahead(start, n, stop)
    ensures StopsAfter(tasks, n, start, stop)
    ensures forall j :: 1 <= j < stop ==> !StopsAfter(tasks, n, start, j)
  {
    stop := SearchFindsFirst(tasks, n, start, 1);
    forall j | 1 <= j < stop
      ensures !StopsAfter(tasks, n, start, j)
    {
      if Ahead(start, n, j) == start {
        var k := CyclicCover(start, n, start);
        CyclicDistinct(start, n, j, k);
      }
    }
    if stop == n && !IsReady(tasks, Ahead(start, n, n)) {
      var i := start;
      if start >= n {
        i :| 0 <= i < n && IsReady(tasks, i);
      }
      var k := CyclicCover(start, n, i);
    }
  }
}
