/**
 * EditTaskDialog.tsx: the form is pre-filled from the task whenever the
 * dialog is open; `handleSubmit` checks the title, then the description,
 * sends both trimmed with the task's id and the chosen type, and closes the
 * dialog only after a successful edit.
 */
module EditTaskDialog {
  import opened Wrappers
  import opened Backend
  import opened JsStrings
  import opened Notify

  /** The error key of the guard chain, title first; `None` when both fields pass. */
  function EditError(title: string, description: string): (r: Option<string>)
    ensures r == Some("errors.required") <==> IsBlank(title)
    ensures r == Some("tasks.descriptionRequired") <==> !IsBlank(title) && IsBlank(description)
    ensures r.None? <==> !IsBlank(title) && !IsBlank(description)
  {
    if IsBlank(title) then Some("errors.required")
    else if IsBlank(description) then Some("tasks.descriptionRequired")
    else None
  }

  /** The call a passing form sends. */
  function EditRequest(task: Task, title: string, description: string, taskType: TaskType): (c: Call)
    requires EditError(title, description).None?
    ensures c.EditTaskCall? && c.taskId == task.id && c.taskType == taskType
    ensures c.title == Trim(title) && c.description == Trim(description)
    ensures c.title != [] && c.description != []
  {
    EditTaskCall(task.id, Trim(title), Trim(description), taskType)
  }

  /** Editing the trimmed fields sends the same request: surrounding whitespace never reaches the back end. */
  lemma EditRequestIgnoresPadding(task: Task, title: string, description: string, taskType: TaskType)
    requires EditError(title, description).None?
    ensures EditError(Trim(title), Trim(description)).None?
    ensures EditRequest(task, Trim(title), Trim(description), taskType) == EditRequest(task, title, description, taskType)
  {
    TrimIdempotent(title);
    TrimIdempotent(description);
  }

  class Dialog {
    var title: string
    var description: string
    var taskType: TaskType
    /** Set once `onClose` has been called. */
    var closed: bool

    constructor ()
      ensures title == [] && description == [] && taskType == Weekly && !closed
    {
      title := [];
      description := [];
      taskType := Weekly;
      closed := false;
    }

    /** The pre-fill effect, run with the current `open` flag and task. */
    method Prefill(open: bool, task: Task)
      modifies this
      ensures open ==> title == task.title && description == task.description && taskType == task.taskType
      ensures !open ==> title == old(title) && description == old(description) && taskType == old(taskType)
      ensures closed == old(closed)
    {
      if open {
        title := task.title;
        description := task.description;
        taskType := task.taskType;
      }
    }

    /** `handleSubmit`; `editor` is the edit mutation. */
    method Submit(editor: Remote, task: Task) returns (report: Report)
      modifies this, editor
      ensures title == old(title) && description == old(description) && taskType == old(taskType)
      ensures EditError(old(title), old(description)).Some? ==>
        && report == ErrorKey(EditError(old(title), old(description)).value)
        && closed == old(closed) && editor.calls == old(editor.calls) && editor.replies == old(editor.replies)
      ensures EditError(old(title), old(description)).None? ==>
        var reply := NextReply(old(editor.replies));
        && editor.calls == old(editor.calls) + [EditRequest(task, old(title), old(description), old(taskType))]
        && editor.replies == RestOf(old(editor.replies))
        && (reply.Resolved? ==> report == SuccessKey("tasks.taskUpdated") && closed)
        && (reply.Rejected? ==> report == ErrorValue(reply.error) && closed == old(closed))
    {
      if IsBlank(title) {
        return ErrorKey("errors.required");
      }
      if IsBlank(description) {
        return ErrorKey("tasks.descriptionRequired");
      }
      var r := editor.Invoke(EditTaskCall(task.id, Trim(title), Trim(description), taskType));
      if r.Rejected? {
        return ErrorValue(r.error);
      }
      report := SuccessKey("tasks.taskUpdated");
      closed := true;
    }
  }
}
