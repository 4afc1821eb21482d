/** The minimal variant of the app: plain text tasks that can only be added
    and ticked off. */
module MinimalApp {
  import opened JsString
  import TaskModel

  /** One stored task of the minimal variant. */
  datatype Task = Task(id: int, text: string, completed: bool)

  /** The list after toggling `id`: every record carrying `id` has its
      completion flipped, every other record is kept as it was. */
  function Toggled(tasks: seq<Task>, id: int): (r: seq<Task>)
    ensures |r| == |tasks|
    ensures forall i | 0 <= i < |tasks| ::
      if tasks[i].id == id then r[i] == tasks[i].(completed := !tasks[i].completed)
      else r[i] == tasks[i]
  {
    if tasks == [] then []
    else
      var t := tasks[0];
      var r := [if t.id == id then t.(completed := !t.completed) else t] + Toggled(tasks[1..], id);
      assert forall i | 1 <= i < |tasks| :: r[i] == Toggled(tasks[1..], id)[i - 1];
      r
  }

  /** Toggling the same id twice restores the list. */
  lemma ToggledTwice(tasks: seq<Task>, id: int)
    ensures Toggled(Toggled(tasks, id), id) == tasks
  {
    var once := Toggled(tasks, id);
    forall i | 0 <= i < |tasks| ensures Toggled(once, id)[i] == tasks[i] {
      assert once[i].id == tasks[i].id;
    }
  }

  /** Toggling an id no record carries changes nothing. */
  lemma ToggledMissing(tasks: seq<Task>, id: int)
    requires forall i | 0 <= i < |tasks| :: tasks[i].id != id
    ensures Toggled(tasks, id) == tasks
  {
  }

  /** The part of an extended record the minimal variant also keeps. */
  function Plain(t: TaskModel.Task): Task {
    Task(t.id, t.text, t.completed)
  }

  function PlainAll(tasks: seq<TaskModel.Task>): (r: seq<Task>)
    ensures |r| == |tasks|
    ensures forall i | 0 <= i < |tasks| :: r[i] == Plain(tasks[i])
  {
    seq(|tasks|, i requires 0 <= i < |tasks| => Plain(tasks[i]))
  }

  /** The two variants toggle alike: toggling an extended list and keeping
      only id, text and completion gives the minimal variant's toggle of the
      reduced list. */
  lemma ToggleAgreesWithExtended(tasks: seq<TaskModel.Task>, id: int)
    ensures PlainAll(TaskModel.Toggled(tasks, id)) == Toggled(PlainAll(tasks), id)
  {
  }

  class TodoApp {
    /** The stored task list, newest first; empty when nothing is stored yet. */
    var tasks: seq<Task>
    /** The contents of the new-task input. */
    var newTask: string

    constructor ()
      ensures tasks == [] && newTask == ""
    {
      tasks := [];
      newTask := "";
    }

    /** Typing in the new-task input. */
    method SetNewTask(value: string)
      modifies this
      ensures newTask == value && tasks == old(tasks)
    {
      newTask := value;
    }

    /** The add button or the Enter key, with `now` the clock reading. Blank
        input changes nothing; otherwise a record holding the input exactly as
        typed (not trimmed) is put in front of the list and the input is
        cleared. */
    method AddTask(now: int)
      modifies this
      ensures Trim(old(newTask)) == "" ==> tasks == old(tasks) && newTask == old(newTask)
      ensures Trim(old(newTask)) != "" ==>
        && |tasks| == |old(tasks)| + 1
        && tasks[0] == Task(now, old(newTask), false)
        && tasks[1..] == old(tasks)
        && newTask == ""
    {
      if Trim(newTask) != "" {
        tasks := [Task(now, newTask, false)] + tasks;
        newTask := "";
      }
    }

    /** Ticking a record's checkbox. */
    method ToggleTask(id: int)
      modifies this
      ensures tasks == Toggled(old(tasks), id)
      ensures newTask == old(newTask)
    {
      tasks := Toggled(tasks, id);
    }
  }
}
