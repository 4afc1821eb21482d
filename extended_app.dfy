/** The state held by the extended app's main component (the task list, the
    free-text box and the record the edit dialog is open on) and by its edit
    dialog (the working copy of that record), with the event handlers that
    update it. Each handler is one synchronous step on the current state. */
module ExtendedApp {
  import opened JsString
  import opened TaskModel

  class TodoApp {
    /** The stored task list, newest first; empty when nothing is stored yet. */
    var tasks: seq<Task>
    /** The contents of the free-text input. */
    var nlpInput: string
    /** The record the edit dialog is open on, if it is open. */
    var taskBeingEdited: Option<Task>

    constructor ()
      ensures tasks == [] && nlpInput == "" && taskBeingEdited == None
    {
      tasks := [];
      nlpInput := "";
      taskBeingEdited := None;
    }

    /** Typing in the free-text input. */
    method SetNlpInput(value: string)
      modifies this
      ensures nlpInput == value
      ensures tasks == old(tasks) && taskBeingEdited == old(taskBeingEdited)
    {
      nlpInput := value;
    }

    /** Submitting the free text. `response` is the extraction service's
        answer to the prompt built from `nlpInput`, after JSON parsing, and
        `now` is the clock reading. Blank input and an unparseable answer
        change nothing, so the text stays for another try; otherwise one
        record built from the answer is put in front of the list and the
        input is cleared. */
    method ProcessNlpInput(response: Extraction, now: int)
      modifies this
      ensures Trim(old(nlpInput)) != "" && response.Parsed? ==>
        && |tasks| == |old(tasks)| + 1
        && tasks[0] == NewTask(now, |old(tasks)|, response.fields)
        && tasks[1..] == old(tasks)
        && nlpInput == ""
      ensures Trim(old(nlpInput)) == "" || response.ParseError? ==>
        tasks == old(tasks) && nlpInput == old(nlpInput)
      ensures taskBeingEdited == old(taskBeingEdited)
    {
      if Trim(nlpInput) != "" {
        match response
        case ParseError =>
        case Parsed(fields) =>
          tasks := [NewTask(now, |tasks|, fields)] + tasks;
          nlpInput := "";
      }
    }

    /** Ticking a record's checkbox. */
    method ToggleTask(id: int)
      modifies this
      ensures tasks == Toggled(old(tasks), id)
      ensures nlpInput == old(nlpInput) && taskBeingEdited == old(taskBeingEdited)
    {
      tasks := Toggled(tasks, id);
    }

    /** The delete button of a record. */
    method DeleteTask(id: int)
      modifies this
      ensures tasks == Removed(old(tasks), id)
      ensures nlpInput == old(nlpInput) && taskBeingEdited == old(taskBeingEdited)
    {
      tasks := Removed(tasks, id);
    }

    /** The edit button of a record: opens the dialog on it. */
    method StartEditing(task: Task)
      modifies this
      ensures taskBeingEdited == Some(task)
      ensures tasks == old(tasks) && nlpInput == old(nlpInput)
    {
      taskBeingEdited := Some(task);
    }

    /** Closing the dialog without saving. */
    method CancelEditing()
      modifies this
      ensures taskBeingEdited == None
      ensures tasks == old(tasks) && nlpInput == old(nlpInput)
    {
      taskBeingEdited := None;
    }

    /** "Save Changes": the edited copy replaces the records with its id and
        the dialog closes. */
    method SaveEditedTask(editedTask: Task)
      modifies this
      ensures tasks == Saved(old(tasks), editedTask)
      ensures taskBeingEdited == None
      ensures nlpInput == old(nlpInput)
    {
      tasks := Saved(tasks, editedTask);
      taskBeingEdited := None;
    }
  }

  /** The edit dialog, opened on a copy of one record. */
  class EditTaskDialog {
    /** The working copy the dialog's inputs show and change. */
    var editedTask: Task

    constructor (task: Task)
      ensures editedTask == task
    {
      editedTask := task;
    }

    /** One input of the dialog changed. */
    method HandleChange(c: FieldChange)
      modifies this
      ensures editedTask == Changed(old(editedTask), c)
    {
      editedTask := Changed(editedTask, c);
    }

    /** The text shown in the tags input: the tags joined with ", ". When the
        copy has at least one tag and none holds a comma or surrounding
        whitespace, reading that text back gives the same tags. */
    function TagsFieldText(): (text: string)
      reads this
      ensures editedTask.tags == [] ==> text == ""
      ensures editedTask.tags != [] && (forall i | 0 <= i < |editedTask.tags| ::
                ',' !in editedTask.tags[i] && Trimmed(editedTask.tags[i]))
              ==> ParseTags(text) == editedTask.tags
    {
      var tags := editedTask.tags;
      if tags != [] && (forall i | 0 <= i < |tags| :: ',' !in tags[i] && Trimmed(tags[i])) then
        TagsRoundTrip(tags);
        TagsText(tags)
      else
        TagsText(tags)
    }

    /** The tags input changed to `value`: the working copy's tags become the
        comma-separated pieces of `value`, trimmed; nothing else changes. */
    method ChangeTagsText(value: string)
      modifies this
      ensures editedTask == Changed(old(editedTask), SetTags(ParseTags(value)))
      ensures |editedTask.tags| == CountChar(value, ',') + 1
    {
      HandleChange(SetTags(ParseTags(value)));
    }
  }
}
