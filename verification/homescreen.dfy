/** The home screen's task-list state and the handlers that overwrite it. Each handler is one
    atomic step: the database call it awaits is taken to have succeeded, and what that call
    returned (the new task of `addTask`, or `null`) is a parameter. */
module HomeScreen {
  import opened Wrappers
  import opened TaskList

  class Screen {
    /** The `tasks` state: the list the screen shows and updates. */
    var tasks: seq<Task>
    /** The `filter` state. */
    var filter: Filter

    /** The screen as mounted: no tasks and the "pending" filter. The filter effect's
        first run filters the empty list and so leaves it empty. */
    constructor ()
      ensures tasks == [] && filter == Pending
    {
      tasks, filter := [], Pending;
    }

    /** The mount effect `loadDb`: the list becomes whatever the database returned. */
    method LoadTasks(loaded: seq<Task>)
      modifies this`tasks
      ensures tasks == loaded
    {
      tasks := loaded;
    }

    /** `setFilter(f)` and the effect that runs when `filter` changes: the list itself is
        replaced by its filtered version, so tasks that do not pass are gone from the state.
        Setting the filter to its current value does not run the effect. */
    method SetFilter(f: Filter)
      modifies this
      ensures filter == f
      ensures tasks == if f == old(filter) then old(tasks) else Filtered(old(tasks), f)
      ensures IsSubsequence(tasks, old(tasks))
      ensures f != old(filter) ==> forall t :: t in tasks <==> t in old(tasks) && Keeps(f, t)
      ensures UniqueIds(old(tasks)) ==> UniqueIds(tasks)
    {
      if f != filter {
        FilteredSpec(tasks, f);
        if UniqueIds(tasks) {
          FilteredKeepsUniqueIds(tasks, f);
        }
        filter := f;
        tasks := Filtered(tasks, f);
      } else {
        SubsequenceReflexive(tasks);
      }
    }

    /** `handleAddTask`: a task returned by the database is appended at the end;
        `null` leaves the list as it is. */
    method HandleAddTask(newTask: Option<Task>)
      modifies this`tasks
      ensures newTask.None? ==> tasks == old(tasks)
      ensures newTask.Some? ==>
        |tasks| == |old(tasks)| + 1 && tasks[..|old(tasks)|] == old(tasks) && tasks[|old(tasks)|] == newTask.value
      ensures newTask.Some? && UniqueIds(old(tasks)) ==>
        (UniqueIds(tasks) <==> !HasId(old(tasks), newTask.value.id))
      ensures newTask.Some? && !HasId(old(tasks), newTask.value.id) ==> Deleted(tasks, newTask.value.id) == old(tasks)
    {
      if newTask.Some? {
        if UniqueIds(tasks) {
          AppendKeepsUniqueIds(tasks, newTask.value);
        }
        if !HasId(tasks, newTask.value.id) {
          AddThenDelete(tasks, newTask.value);
        }
        tasks := tasks + [newTask.value];
      }
    }

    /** `handleToggleTask(id, completed)`: the matching tasks have their completion negated,
        whatever `completed` says; everything else stays. */
    method HandleToggleTask(id: int, completed: bool)
      modifies this`tasks
      ensures tasks == Toggled(old(tasks), id)
      ensures |tasks| == |old(tasks)|
      ensures forall i :: 0 <= i < |tasks| && old(tasks)[i].id != id ==> tasks[i] == old(tasks)[i]
      ensures forall i :: 0 <= i < |tasks| && old(tasks)[i].id == id ==>
        tasks[i] == old(tasks)[i].(completed := !old(tasks)[i].completed)
      ensures UniqueIds(old(tasks)) ==> UniqueIds(tasks)
    {
      ToggledAt(tasks, id);
      if UniqueIds(tasks) {
        ToggledKeepsUniqueIds(tasks, id);
      }
      tasks := Toggled(tasks, id);
    }

    /** `handleDeleteTask(id)`: exactly the tasks with another id remain, in their order. */
    method HandleDeleteTask(id: int)
      modifies this`tasks
      ensures tasks == Deleted(old(tasks), id)
      ensures IsSubsequence(tasks, old(tasks))
      ensures forall t :: multiset(tasks)[t] == if t.id != id then multiset(old(tasks))[t] else 0
      ensures !HasId(tasks, id)
      ensures !HasId(old(tasks), id) ==> tasks == old(tasks)
      ensures UniqueIds(old(tasks)) && HasId(old(tasks), id) ==> |tasks| == |old(tasks)| - 1
      ensures UniqueIds(old(tasks)) ==> UniqueIds(tasks)
    {
      DeletedSpec(tasks, id);
      if UniqueIds(tasks) {
        DeletedKeepsUniqueIds(tasks, id);
        if HasId(tasks, id) {
          DeletedOne(tasks, id);
        }
      }
      tasks := Deleted(tasks, id);
    }

    /** `handleEditTask`, reading the `editTask` and `editText` states: with no task selected
        nothing happens; otherwise the tasks with the selected id get the new text. */
    method HandleEditTask(editTask: Option<Task>, editText: string)
      modifies this`tasks
      ensures editTask.None? ==> tasks == old(tasks)
      ensures editTask.Some? ==> tasks == Edited(old(tasks), editTask.value.id, editText)
      ensures |tasks| == |old(tasks)|
      ensures editTask.Some? ==> forall i :: 0 <= i < |tasks| ==>
        tasks[i] == if old(tasks)[i].id == editTask.value.id then old(tasks)[i].(text := editText) else old(tasks)[i]
      ensures UniqueIds(old(tasks)) ==> UniqueIds(tasks)
    {
      if editTask.Some? {
        EditedAt(tasks, editTask.value.id, editText);
        if UniqueIds(tasks) {
          EditedKeepsUniqueIds(tasks, editTask.value.id, editText);
        }
        tasks := Edited(tasks, editTask.value.id, editText);
      }
    }
  }
}
