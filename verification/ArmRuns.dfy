/** Whole runs of the AArch64 switcher: every task has the machine to itself, in equal shares. */
module ArmRuns {
  import opened Prelude
  import opened Arm

  /** Between interrupts the running task changes its registers, PC, PSTATE and stack pointers as it likes. */
  datatype Event =
    | Exec(x: Regs, pc: u64, pstate: u64, sp: int, spEl0: u64)
    | Irq
    | Enable
    | Spawn(entryPoint: u64, stackTop: u64)

  /** At least one task exists, the current one is among them, and all the others are ready. */
  ghost predicate Inv(core: Core) {
    && 0 < core.numTasks <= |core.tasks| == MAX_TASKS && core.current < core.numTasks
    && forall j :: 0 <= j < core.numTasks && j != core.current ==> core.tasks[j].state == Ready
  }

  /** The first spawn after boot, when the current index is still 0, establishes the invariant. */
  lemma FirstSpawnEstablishesInv(core: Core, entryPoint: u64, stackTop: u64)
    requires |core.tasks| == MAX_TASKS && core.numTasks == core.current == 0
    ensures Inv(core.Spawned(entryPoint, stackTop))
  {
  }

  /** A spawned task takes the next slot, Ready at its entry point in EL1h with its own stack; the ninth is refused. */
  lemma SpawnOutcome(core: Core, entryPoint: u64, stackTop: u64)
    requires |core.tasks| == MAX_TASKS
    ensures var after, n := core.Spawned(entryPoint, stackTop), core.numTasks;
      if n >= 8 then after == core
      else
        && after.numTasks == n + 1 && after.(tasks := core.tasks, numTasks := n) == core
        && |after.tasks| == |core.tasks|
        && (forall j :: 0 <= j < |core.tasks| && j != n ==> after.tasks[j] == core.tasks[j])
        && after.tasks[n].state == Ready && after.tasks[n].id == n
        && after.tasks[n].context.sp == stackTop && after.tasks[n].context.pc == entryPoint
        && after.tasks[n].context.pstate == 5 && forall r :: 0 <= r < 31 ==> after.tasks[n].context.x[r] == 0
  {
  }

  /** What a switch does to the task table: the selected task is Running, all others are Ready, ids stay. */
  lemma SwitchedStates(core: Core, j: nat)
    requires Inv(core) && j < MAX_TASKS
    ensures var after := core.Switched();
      && after.tasks[j].id == core.tasks[j].id
      && (j < core.numTasks ==> after.tasks[j].state == if j == after.current then Running else Ready)
      && (j >= core.numTasks ==> after.tasks[j] == core.tasks[j])
      && after.numTasks == core.numTasks && after.ticks == core.ticks && after.enabled == core.enabled
  {
    SwitchedTakesTurns(core);
  }

  /** An interrupt that is not due for a switch is only counted. */
  lemma QuietIrq(core: Core)
    requires Inv(core) && (!core.enabled || (core.ticks + 1) % TWO_64 % 10 != 0)
    ensures Step(core, Irq) == core.(ticks := (core.ticks + 1) % TWO_64)
  {
  }

  lemma SwitchedTakesTurns(core: Core)
    requires Inv(core)
    ensures Inv(core.Switched()) && core.Switched().current == (core.current + 1) % core.numTasks
    ensures SearchEnds(core.Saved(), core.numTasks, core.current)
  {
    var saved, n := core.Saved(), core.numTasks;
    assert Ahead(core.current, n, 1) == (core.current + 1) % n;
    assert IsReady(saved, Ahead(core.current, n, 1));
  }

  ghost function Step(core: Core, event: Event): (r: Core)
    requires Inv(core)
    ensures Inv(r)
  {
    match event
    case Exec(x, pc, pstate, sp, spEl0) => core.(x := x, pc := pc, pstate := pstate, sp := sp, spEl0 := spEl0)
    case Irq =>
      SwitchedTakesTurns(core.(ticks := Bumped(core.ticks)));
      core.Interrupted()
    case Enable => core.(enabled := true)
    case Spawn(entryPoint, stackTop) => core.Spawned(entryPoint, stackTop)
  }

  ghost function Run(core: Core, events: seq<Event>): (r: Core)
    requires Inv(core)
    ensures Inv(r)
    decreases |events|
  {
    if events == [] then core else Run(Step(core, events[0]), events[1..])
  }

  // ----- Register fidelity -----

  /** What a task can tell about itself: x0 to x30, PC and PSTATE. */
  datatype Visible = Visible(x: Regs, pc: u64, pstate: u64)

  /** A machine that needs no saving and restoring: each task owns a register file. */
  datatype Virtual = Virtual(files: seq<Visible>, current: nat, ticks: u64, enabled: bool, switches: u64)

  function VirtualStep(v: Virtual, event: Event): Virtual
    requires v.current < |v.files|
  {
    match event
    case Exec(x, pc, pstate, _, _) => v.(files := v.files[v.current := Visible(x, pc, pstate)])
    case Irq =>
      var ticked := v.(ticks := Bumped(v.ticks));
      if v.enabled && ticked.ticks % 10 == 0
      then ticked.(current := (v.current + 1) % |v.files|, switches := Bumped(v.switches)) else ticked
    case Enable => v.(enabled := true)
    case Spawn(entryPoint, _) =>
      if |v.files| >= MAX_TASKS then v else v.(files := v.files + [Visible(ZeroRegs(), entryPoint, EL1H)])
  }

  function VirtualRun(v: Virtual, events: seq<Event>): (r: Virtual)
    requires v.current < |v.files|
    ensures r.current < |r.files|
    decreases |events|
  {
    if events == [] then v else VirtualRun(VirtualStep(v, events[0]), events[1..])
  }

  /** The registers of task `j`: live if it runs, in its context otherwise. */
  function FileOf(core: Core, j: nat): Visible
    requires j < |core.tasks|
  {
    if j == core.current then Visible(core.x, core.pc, core.pstate)
    else Visible(core.tasks[j].context.x, core.tasks[j].context.pc, core.tasks[j].context.pstate)
  }

  ghost function Abstract(core: Core): Virtual
    requires Inv(core)
  {
    Virtual(seq(core.numTasks, j requires 0 <= j < core.numTasks => FileOf(core, j)), core.current, core.ticks,
      core.enabled, core.switches)
  }

  lemma SwitchRefines(core: Core)
    requires Inv(core)
    ensures Inv(core.Switched())
    ensures Abstract(core.Switched())
      == Abstract(core).(current := (core.current + 1) % core.numTasks, switches := Bumped(core.switches))
  {
    SwitchedTakesTurns(core);
    var after := core.Switched();
    forall j | 0 <= j < core.numTasks
      ensures FileOf(after, j) == FileOf(core, j)
    {
    }
    assert Abstract(after).files == Abstract(core).files;
  }

  lemma StepRefines(core: Core, event: Event)
    requires Inv(core)
    ensures Abstract(Step(core, event)) == VirtualStep(Abstract(core), event)
  {
    match event
    case Exec(x, pc, pstate, sp, spEl0) =>
      assert Abstract(Step(core, event)).files == Abstract(core).files[core.current := Visible(x, pc, pstate)];
    case Irq =>
      var ticked := core.(ticks := Bumped(core.ticks));
      assert Abstract(ticked).files == Abstract(core).files;
      SwitchRefines(ticked);
    case Enable =>
      assert Abstract(Step(core, event)).files == Abstract(core).files;
    case Spawn(entryPoint, stackTop) =>
      if core.numTasks < MAX_TASKS {
        assert Abstract(Step(core, event)).files == Abstract(core).files + [Visible(ZeroRegs(), entryPoint, EL1H)];
      }
  }

  /**
   * Register fidelity over whole runs: one processor with save, switch and restore behaves exactly like
   * a machine in which every task owns its x0-x30, PC and PSTATE and interrupts only choose who runs.
   */
  lemma {:induction false} RunRefines(core: Core, events: seq<Event>)
    requires Inv(core)
    ensures Abstract(Run(core, events)) == VirtualRun(Abstract(core), events)
    decreases |events|
  {
    if events != [] {
      StepRefines(core, events[0]);
      RunRefines(Step(core, events[0]), events[1..]);
    }
  }

  /** Nothing that happens while other tasks run touches the register file of task `j`. */
  lemma {:induction false} OthersLeaveFileAlone(v: Virtual, events: seq<Event>, j: nat)
    requires v.current < |v.files| && j < |v.files|
    requires forall i :: 0 <= i < |events| ==> VirtualRun(v, events[..i]).current != j
    ensures j < |VirtualRun(v, events).files| && VirtualRun(v, events).files[j] == v.files[j]
    decreases |events|
  {
    if events != [] {
      assert VirtualRun(v, events[..0]).current != j;
      var next := VirtualStep(v, events[0]);
      forall i | 0 <= i < |events[1..]|
        ensures VirtualRun(next, events[1..][..i]).current != j
      {
        assert events[..i + 1][0] == events[0] && events[..i + 1][1..] == events[1..][..i];
        assert VirtualRun(v, events[..i + 1]).current != j;
      }
      OthersLeaveFileAlone(next, events[1..], j);
    }
  }

  /**
   * A task resumes where it was interrupted: if the current task loses the processor at an interrupt
   * and gets it back at the end of `events`, its x0-x30, PC and PSTATE are those it had.
   */
  lemma ResumesWhereInterrupted(core: Core, events: seq<Event>)
    requires Inv(core)
    requires var away := Step(core, Irq);
      && (forall i :: 0 <= i < |events| ==> Run(away, events[..i]).current != core.current)
      && Run(away, events).current == core.current
    ensures var back := Run(Step(core, Irq), events);
      back.x == core.x && back.pc == core.pc && back.pstate == core.pstate
  {
    StepRefines(core, Irq);
    var away, j := Step(core, Irq), core.current;
    var v := Abstract(away);
    forall i | 0 <= i < |events|
      ensures VirtualRun(v, events[..i]).current != j
    {
      RunRefines(away, events[..i]);
    }
    RunRefines(away, events);
    assert v.files[j] == Abstract(core).files[j] == FileOf(core, j);
    OthersLeaveFileAlone(v, events, j);
    assert Abstract(Run(away, events)).files[j] == FileOf(Run(away, events), j);
  }

  // ----- The stack pointer -----

  lemma {:induction false} RunSnoc(core: Core, events: seq<Event>, event: Event)
    requires Inv(core)
    ensures Run(core, events + [event]) == Step(Run(core, events), event)
    decreases |events|
  {
    if events == [] {
      assert Run(Step(core, event), []) == Step(core, event);
    } else {
      assert (events + [event])[1..] == events[1..] + [event];
      RunSnoc(Step(core, events[0]), events[1..], event);
    }
  }

  lemma StackTopStays(core: Core, event: Event, j: nat)
    requires Inv(core) && j < core.numTasks
    ensures j < Step(core, event).numTasks && Step(core, event).tasks[j].context.sp == core.tasks[j].context.sp
  {
  }

  lemma {:induction false} StackTopsStay(core: Core, events: seq<Event>, j: nat)
    requires Inv(core) && j < core.numTasks
    ensures j < Run(core, events).numTasks && Run(core, events).tasks[j].context.sp == core.tasks[j].context.sp
    decreases |events|
  {
    if events != [] {
      StackTopStays(core, events[0], j);
      StackTopsStay(Step(core, events[0]), events[1..], j);
    }
  }

  /** The next interrupt switches tasks, if only from a task to itself. */
  predicate SwitchIsDue(core: Core) {
    core.enabled && Bumped(core.ticks) % 10 == 0
  }

  /**
   * The stack pointers are the registers that do not survive a switch. A task that is interrupted and has
   * the processor again, at once or after others, finds SP as it left it if and only if that interrupt did
   * not switch, or SP was the stack top the task was spawned with; and likewise SP_EL0.
   */
  lemma StackPointerSurvivesExactly(core: Core, away: Core, events: seq<Event>)
    requires Inv(core) && away == Step(core, Irq) && Run(away, events).current == core.current
    requires forall i :: 0 <= i < |events| ==> Run(away, events[..i]).current != core.current
    ensures var back, top := Run(away, events), core.tasks[core.current].context.sp;
      && (back.sp == core.sp <==> !SwitchIsDue(core) || core.sp == top)
      && (back.spEl0 == core.spEl0 <==> !SwitchIsDue(core) || core.spEl0 == top)
      && (SwitchIsDue(core) ==> back.sp == back.spEl0 == top)
  {
    if away.current == core.current {
      assert Run(away, events[..0]) == away;
      assert events == [];
      IrqOfSameTask(core);
    } else {
      StackTopStays(core, Irq, core.current);
      ReturnsWithStackTop(away, events, core.current);
      assert SwitchIsDue(core);
    }
  }

  /**
   * A new task starts clean: when it gets the processor for the first time, however long after it was
   * spawned, it is at its entry point in EL1h, on its own empty stack, with x0 to x30 zero.
   */
  lemma FirstRunStartsAtEntry(core: Core, entryPoint: u64, stackTop: u64, born: Core, events: seq<Event>)
    requires Inv(core) && core.numTasks < 8 && born == Step(core, Event.Spawn(entryPoint, stackTop))
    requires forall i :: 0 <= i < |events| ==> Run(born, events[..i]).current != core.numTasks
    requires Run(born, events).current == core.numTasks
    ensures var first := Run(born, events);
      && (forall r :: 0 <= r < 31 ==> first.x[r] == 0) && first.pc == entryPoint && first.pstate == 5
      && first.sp == first.spEl0 == stackTop
  {
    var v, j := Abstract(born), core.numTasks;
    SpawnOutcome(core, entryPoint, stackTop);
    ReturnsWithStackTop(born, events, j);
    forall i | 0 <= i < |events|
      ensures VirtualRun(v, events[..i]).current != j
    {
      RunRefines(born, events[..i]);
    }
    RunRefines(born, events);
    assert v.files[j] == FileOf(born, j);
    OthersLeaveFileAlone(v, events, j);
    assert Abstract(Run(born, events)).files[j] == FileOf(Run(born, events), j);
  }

  /** An interrupt that comes back to the same task resets its stack pointers exactly when it switches. */
  lemma IrqOfSameTask(core: Core)
    requires Inv(core) && Step(core, Irq).current == core.current
    ensures var after, top := Step(core, Irq), core.tasks[core.current].context.sp;
      if SwitchIsDue(core) then after.sp == after.spEl0 == top else after.sp == core.sp && after.spEl0 == core.spEl0
  {
  }

  lemma ReturnsWithStackTop(away: Core, events: seq<Event>, j: nat)
    requires Inv(away) && j < away.numTasks && Run(away, events).current == j
    requires away.current != j && forall i :: 0 <= i < |events| ==> Run(away, events[..i]).current != j
    ensures Run(away, events).sp == Run(away, events).spEl0 == away.tasks[j].context.sp
  {
    var last := |events| - 1;
    assert Run(away, []) == away;
    assert events == events[..last] + [events[last]];
    RunSnoc(away, events[..last], events[last]);
    StackTopsStay(away, events[..last], j);
    ResumedWithStackTop(Run(away, events[..last]), events[last], j);
  }

  lemma ResumedWithStackTop(core: Core, event: Event, j: nat)
    requires Inv(core) && core.current != j && j < core.numTasks && Step(core, event).current == j
    ensures Step(core, event).sp == Step(core, event).spEl0 == core.tasks[j].context.sp
  {
  }

  // ----- Ticks and shares -----

  function Irqs(events: seq<Event>): nat {
    if events == [] then 0 else (if events[0].Irq? then 1 else 0) + Irqs(events[1..])
  }

  /** How many of the ticks after `from`, up to `to`, are multiples of ten. */
  function Turns(from: nat, to: nat): int {
    to / 10 - from / 10
  }

  /** From `core` to `after`, `k` interrupts were counted and `turns` places moved. */
  ghost predicate Moved(core: Core, after: Core, k: nat, turns: nat)
    requires core.numTasks > 0
  {
    && after.ticks == core.ticks + k && after.enabled && after.numTasks == core.numTasks
    && after.current == (core.current + turns) % core.numTasks
    && after.switches == core.switches + turns
  }

  /** From `core` to `after`, `k` interrupts were counted and one place moved for each tenth tick passed. */
  ghost predicate Turned(core: Core, after: Core, k: nat)
    requires core.numTasks > 0
  {
    && 0 <= Turns(core.ticks, after.ticks)
    && Moved(core, after, k, Turns(core.ticks, after.ticks))
  }

  /**
   * Tick arithmetic: with switching enabled and no task spawned, after `k` interrupts from tick `t0` the
   * current task has moved on by `(t0 + k) / 10 - t0 / 10` places, and so has the switch counter.
   */
  lemma {:induction false} TicksDecideTheTask(core: Core, events: seq<Event>)
    requires Inv(core) && core.enabled && forall e :: e in events ==> !e.Spawn?
    requires core.ticks + Irqs(events) < TWO_64 && core.switches + Irqs(events) < TWO_64
    ensures Turned(core, Run(core, events), Irqs(events))
    decreases |events|
  {
    if events == [] {
      DivModUnique(core.current, core.numTasks, 0, core.current);
    } else {
      var next := Step(core, events[0]);
      OneTick(core, events[0]);
      TicksDecideTheTask(next, events[1..]);
      TurnedTwice(core, next, Run(next, events[1..]), if events[0].Irq? then 1 else 0, Irqs(events[1..]));
    }
  }

  lemma TurnedTwice(core: Core, mid: Core, after: Core, k0: nat, k1: nat)
    requires core.numTasks > 0 && core.current < core.numTasks == mid.numTasks
    requires Turned(core, mid, k0) && Turned(mid, after, k1)
    ensures Turned(core, after, k0 + k1)
  {
    MovedTwice(core, mid, after, k0, k1, Turns(core.ticks, mid.ticks), Turns(mid.ticks, after.ticks));
  }

  lemma MovedTwice(core: Core, mid: Core, after: Core, k0: nat, k1: nat, turns0: nat, turns1: nat)
    requires core.numTasks > 0 && core.current < core.numTasks == mid.numTasks
    requires Moved(core, mid, k0, turns0) && Moved(mid, after, k1, turns1)
    ensures Moved(core, after, k0 + k1, turns0 + turns1)
  {
    TurnsAdd(core.current, core.numTasks, turns0, turns1);
  }

  lemma OneTick(core: Core, event: Event)
    requires Inv(core) && core.enabled && !event.Spawn?
    requires event.Irq? ==> core.ticks + 1 < TWO_64 && core.switches + 1 < TWO_64
    ensures Turned(core, Step(core, event), if event.Irq? then 1 else 0)
    ensures Step(core, event).switches <= core.switches + (if event.Irq? then 1 else 0)
  {
    DivModUnique(core.current, core.numTasks, 0, core.current);
    if event.Irq? {
      IrqMoves(core);
      DivModStep(core.ticks, 10);
    }
  }

  lemma IrqMoves(core: Core)
    requires Inv(core) && core.enabled && core.ticks + 1 < TWO_64 && core.switches + 1 < TWO_64
    ensures Moved(core, core.Interrupted(), 1, if (core.ticks + 1) % 10 == 0 then 1 else 0)
  {
    var ticked := core.(ticks := core.ticks + 1);
    assert Bumped(core.ticks) == core.ticks + 1 && Bumped(core.switches) == core.switches + 1;
    if ticked.ticks % 10 == 0 {
      SwitchedTakesTurns(ticked);
    } else {
      DivModUnique(core.current, core.numTasks, 0, core.current);
    }
  }

  lemma TurnsAdd(c: nat, n: nat, a: nat, b: nat)
    requires c < n
    ensures ((c + a) % n + b) % n == (c + (a + b)) % n
  {
    var q, r := (c + a) / n, (c + a) % n;
    var q2, r2 := (r + b) / n, (r + b) % n;
    assert c + (a + b) == (q + q2) * n + r2 by {
      assert c + a == q * n + r;
      assert r + b == q2 * n + r2;
      assert (q + q2) * n == q * n + q2 * n;
    }
    DivModUnique(c + (a + b), n, q + q2, r2);
  }

  /**
   * Equal shares: among any `n` consecutive switches, counted from any tick, each of the `n` tasks is
   * selected exactly once. The `i`-th switch from here is the one in effect after `10 * i` interrupts.
   */
  lemma EachTaskOnceARound(core: Core, runs: seq<seq<Event>>, j: nat) returns (i: nat)
    requires Inv(core) && core.enabled && j < core.numTasks && |runs| == core.numTasks + 1
    requires forall k :: 0 <= k < |runs| ==> Irqs(runs[k]) == 10 * k && forall e :: e in runs[k] ==> !e.Spawn?
    requires core.ticks + 10 * core.numTasks < TWO_64 && core.switches + 10 * core.numTasks < TWO_64
    ensures 1 <= i <= core.numTasks && Run(core, runs[i]).current == j
    ensures forall k :: 1 <= k <= core.numTasks && Run(core, runs[k]).current == j ==> k == i
  {
    var n := core.numTasks;
    forall k | 1 <= k <= n
      ensures Run(core, runs[k]).current == Ahead(core.current, n, k)
    {
      TicksDecideTheTask(core, runs[k]);
      assert (core.ticks + 10 * k) / 10 - core.ticks / 10 == k;
    }
    i := CyclicCover(core.current, n, j);
    forall k | 1 <= k <= n && Run(core, runs[k]).current == j
      ensures k == i
    {
      if k <= i {
        CyclicDistinct(core.current, n, k, i);
      } else {
        CyclicDistinct(core.current, n, i, k);
      }
    }
  }
}
