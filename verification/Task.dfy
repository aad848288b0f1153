/** Tasks and the task list (src/task.rs). */
module Tasks {
  import opened Prelude

  type TaskId = u64

  datatype TaskState = Ready | Running | Blocked | Terminated

  /** A task owned by the scheduler; its context, stack, name and priority are not part of the model. */
  class Task {
    const id: TaskId
    var state: TaskState

    /** `Task::new` with the id it takes from the global counter. */
    constructor (id: TaskId)
      ensures this.id == id && state == Ready
    {
      this.id := id;
      state := Ready;
    }

    method SetState(state: TaskState)
      modifies this
      ensures this.state == state
    {
      this.state := state;
    }

    function Entry(): (TaskId, TaskState)
      reads this
    {
      (id, state)
    }
  }

  /** The global id counter behind `Task::new`; `fetch_add` wraps. */
  class TaskIds {
    var next: u64

    constructor ()
      ensures next == 1
    {
      next := 1;
    }

    method NewTask() returns (task: Task)
      modifies this
      ensures fresh(task) && task.id == old(next) && task.state == Ready
      ensures next == Bumped(old(next))
    {
      var id := next;
      next := Bumped(next);
      task := new Task(id);
    }
  }

  /** A vector of tasks searched front to back; it stands for the map `View()`. */
  class TaskList {
    var tasks: seq<Task>

    constructor ()
      ensures Valid() && tasks == [] && View() == map[]
    {
      tasks := [];
    }

    ghost predicate Valid()
      reads this
    {
      NoDup(tasks)
    }

    ghost function Entries(): seq<(TaskId, TaskState)>
      reads this, tasks
    {
      seq(|tasks|, i requires 0 <= i < |tasks| reads this, tasks => tasks[i].Entry())
    }

    ghost function View(): map<TaskId, TaskState>
      reads this, tasks
    {
      FirstMatch(Entries())
    }

    method Add(task: Task) returns (id: TaskId)
      requires Valid() && task !in tasks
      modifies this
      ensures Valid() && id == task.id
      ensures tasks == old(tasks) + [task]
      ensures View() == map[task.id := task.state] + old(View())
    {
      id := task.id;
      tasks := tasks + [task];
      assert Entries() == old(Entries()) + [task.Entry()];
      FirstMatchAppend(old(Entries()), task.id, task.state);
    }

    /** The index at which the front-to-back search stops, or the length of the list. */
    method Position(id: TaskId) returns (i: nat)
      requires Valid()
      ensures i <= |tasks| && (i < |tasks| <==> id in View())
      ensures i < |tasks| ==> tasks[i].id == id && tasks[i].state == View()[id]
      ensures forall j :: 0 <= j < i ==> Entries()[j].0 != id
    {
      i := 0;
      while i < |tasks| && tasks[i].id != id
        invariant 0 <= i <= |tasks|
        invariant forall j :: 0 <= j < i ==> Entries()[j].0 != id
      {
        assert Entries()[i] == tasks[i].Entry();
        i := i + 1;
      }
      if i < |tasks| {
        assert Entries()[i] == tasks[i].Entry();
        FirstMatchAt(Entries(), i, tasks[i].state);
      } else {
        FirstMatchAbsent(Entries(), id);
      }
    }

    method Get(id: TaskId) returns (r: Option<Task>)
      requires Valid()
      ensures r.Some? <==> id in View()
      ensures r.Some? ==> r.value in tasks && r.value.id == id && r.value.state == View()[id]
    {
      var i := Position(id);
      return if i < |tasks| then Some(tasks[i]) else None;
    }

    /** `get_mut(id)` followed by `set_state`, when the task exists. */
    method SetState(id: TaskId, state: TaskState) returns (found: bool)
      requires Valid()
      modifies tasks
      ensures Valid() && found == (id in old(View()))
      ensures View() == if found then old(View())[id := state] else old(View())
    {
      var i := Position(id);
      if i == |tasks| {
        return false;
      }
      ghost var before := Entries();
      assert before[i] == tasks[i].Entry();
      FirstMatchAt(before, i, state);
      tasks[i].SetState(state);
      assert Entries() == before[i := (id, state)];
      return true;
    }
  }
}
