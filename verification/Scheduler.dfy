/** The x86 round-robin scheduler (src/scheduler.rs). */
module Scheduling {
  import opened Prelude
  import opened Tasks

  /** The scheduler's value. The ready queue keeps the running task inside it. */
  datatype Sched = Sched(tasks: map<TaskId, TaskState>, current: Option<TaskId>, ready: seq<TaskId>) {

    predicate Is(id: TaskId, state: TaskState) {
      id in tasks && tasks[id] == state
    }

    function With(id: TaskId, state: TaskState): Sched {
      if id in tasks then this.(tasks := tasks[id := state]) else this
    }

    /** A second task with an id already in the list is never found, but its id is queued all the same. */
    function Added(id: TaskId, state: TaskState): Sched {
      this.(tasks := map[id := state] + tasks, ready := ready + [id])
    }

    /** The previous task goes back to Ready unless it stopped running for another reason. */
    function Preempted(): Sched {
      if current.Some? && Is(current.value, Running) then With(current.value, Ready) else this
    }

    function Scheduled(): Sched {
      if ready == [] then this
      else
        var next, popped := ready[0], this.(ready := ready[1..]).Preempted();
        if popped.Is(next, Ready) then Sched(popped.tasks[next := Running], Some(next), popped.ready + [next])
        else popped
    }

    function Picked(): Option<TaskId> {
      if ready != [] && Preempted().Is(ready[0], Ready) then Some(ready[0]) else None
    }

    function BlockedCurrent(): Sched {
      if current.None? then this
      else With(current.value, Blocked).(ready := Without(ready, current.value)).Scheduled()
    }

    function Unblocked(id: TaskId): Sched {
      if Is(id, Blocked) then With(id, Ready).(ready := ready + [id]) else this
    }

    function TerminatedCurrent(): Sched {
      if current.None? then this
      else With(current.value, Terminated).(ready := Without(ready, current.value), current := None).Scheduled()
    }

    /** `task_yield` does not schedule when no task is current. */
    function Yielded(): Sched {
      if current.None? then this else Scheduled()
    }
  }

  const INITIAL := Sched(map[], None, [])

  /** What `task_yield` decides under the lock: the pair of contexts to switch between, if any. */
  datatype Switch = NoSwitch | Switch(from: TaskId, to: TaskId)

  class Scheduler {
    const tasks: TaskList
    var currentTask: Option<TaskId>
    var readyQueue: seq<TaskId>

    constructor ()
      ensures Valid() && fresh(tasks) && State() == INITIAL
    {
      tasks := new TaskList();
      currentTask := None;
      readyQueue := [];
    }

    ghost predicate Valid()
      reads this, tasks
    {
      tasks.Valid()
    }

    ghost function State(): Sched
      reads this, tasks, tasks.tasks
    {
      Sched(tasks.View(), currentTask, readyQueue)
    }

    method AddTask(task: Task) returns (id: TaskId)
      requires Valid() && task !in tasks.tasks
      modifies this`readyQueue, tasks
      ensures Valid() && id == task.id
      ensures tasks.tasks == old(tasks.tasks) + [task]
      ensures State() == old(State()).Added(task.id, task.state)
    {
      id := tasks.Add(task);
      readyQueue := readyQueue + [id];
    }

    /** The first half of `schedule`: a task that was still running becomes ready again. */
    method MarkPreviousReady()
      requires Valid()
      modifies tasks.tasks
      ensures Valid() && State() == old(State()).Preempted()
    {
      if currentTask.Some? {
        var current := tasks.Get(currentTask.value);
        if current.Some? && current.value.state == Running {
          var _ := tasks.SetState(currentTask.value, Ready);
        }
      }
    }

    method Schedule() returns (r: Option<TaskId>)
      requires Valid()
      modifies this, tasks.tasks
      ensures Valid() && State() == old(State()).Scheduled()
      ensures r == old(State()).Picked()
    {
      if readyQueue == [] {
        return None;
      }
      var nextId := readyQueue[0];
      readyQueue := readyQueue[1..];
      MarkPreviousReady();
      r := RunIfReady(nextId);
    }

    /** The second half of `schedule`: run the popped task and queue it for its next turn. */
    method RunIfReady(nextId: TaskId) returns (r: Option<TaskId>)
      requires Valid()
      modifies this, tasks.tasks
      ensures Valid() && r == if old(State()).Is(nextId, Ready) then Some(nextId) else None
      ensures State() == if r.None? then old(State())
                         else Sched(old(State()).tasks[nextId := Running], Some(nextId), old(readyQueue) + [nextId])
    {
      var next := tasks.Get(nextId);
      if next.Some? && next.value.state == Ready {
        var _ := tasks.SetState(nextId, Running);
        currentTask := Some(nextId);
        readyQueue := readyQueue + [nextId];
        return Some(nextId);
      }
      return None;
    }

    method BlockCurrent()
      requires Valid()
      modifies this, tasks.tasks
      ensures Valid() && State() == old(State()).BlockedCurrent()
    {
      if currentTask.Some? {
        var _ := tasks.SetState(currentTask.value, Blocked);
        readyQueue := Without(readyQueue, currentTask.value);
        var _ := Schedule();
      }
    }

    method UnblockTask(id: TaskId)
      requires Valid()
      modifies this`readyQueue, tasks.tasks
      ensures Valid() && State() == old(State()).Unblocked(id)
    {
      var task := tasks.Get(id);
      if task.Some? && task.value.state == Blocked {
        var _ := tasks.SetState(id, Ready);
        readyQueue := readyQueue + [id];
      }
    }

    method TerminateCurrent()
      requires Valid()
      modifies this, tasks.tasks
      ensures Valid() && State() == old(State()).TerminatedCurrent()
    {
      if currentTask.Some? {
        var _ := tasks.SetState(currentTask.value, Terminated);
        readyQueue := Without(readyQueue, currentTask.value);
        currentTask := None;
        var _ := Schedule();
      }
    }

    /** The bookkeeping half of `task_yield`: both tasks of a switch exist, so its two `unwrap`s cannot fail. */
    method TaskYield() returns (r: Switch)
      requires Valid() && (currentTask.Some? ==> currentTask.value in State().tasks)
      modifies this, tasks.tasks
      ensures Valid() && State() == old(State()).Yielded()
      ensures r.Switch? <==>
        old(currentTask).Some? && old(State()).Picked().Some? && old(State()).Picked() != old(currentTask)
      ensures r.Switch? ==>
        Some(r.from) == old(currentTask) && Some(r.to) == currentTask && {r.from, r.to} <= State().tasks.Keys
    {
      if currentTask.None? {
        return NoSwitch;
      }
      var oldId := currentTask.value;
      var newId := Schedule();
      if newId.None? || newId.value == oldId {
        return NoSwitch;
      }
      return Switch(oldId, newId.value);
    }
  }
}
