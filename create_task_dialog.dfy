/**
 * CreateTaskDialog.tsx: the form state (title, type) and `handleSubmit`.  A
 * blank title is reported before anything is sent; otherwise the trimmed
 * title and the chosen type go to the create mutation, and only a success
 * closes the dialog and resets the form to an empty title and the weekly type.
 */
module CreateTaskDialog {
  import opened Wrappers
  import opened Backend
  import opened JsStrings
  import opened Notify
  import UseTasks

  /** What `handleSubmit` sends for a title and type, or `None` when the title is blank. */
  function CreateRequest(title: string, taskType: TaskType): (r: Option<Call>)
    ensures r.None? <==> IsBlank(title)
    ensures r.Some? ==> r.value.CreateTaskCall? && r.value.taskType == taskType && r.value.maybeDescription.None?
    ensures r.Some? ==> r.value.title == Trim(title) && r.value.title != [] && Trim(r.value.title) == r.value.title
  {
    TrimIdempotent(title);
    if IsBlank(title) then None else Some(CreateTaskCall(Trim(title), None, taskType))
  }

  /** Surrounding whitespace does not change the request. */
  lemma CreateRequestIgnoresPadding(title: string, taskType: TaskType)
    ensures CreateRequest(Trim(title), taskType) == CreateRequest(title, taskType)
  {
    TrimIdempotent(title);
  }

  class Dialog {
    var title: string
    var taskType: TaskType
    /** Set once `onClose` has been called. */
    var closed: bool

    constructor ()
      ensures title == [] && taskType == Weekly && !closed
    {
      title := [];
      taskType := Weekly;
      closed := false;
    }

    /** `handleSubmit`. */
    method Submit(actor: Remote?) returns (report: Report)
      modifies this, actor
      ensures IsBlank(old(title)) ==>
        && report == ErrorKey("errors.required")
        && title == old(title) && taskType == old(taskType) && closed == old(closed)
        && (actor != null ==> actor.calls == old(actor.calls) && actor.replies == old(actor.replies))
      ensures !IsBlank(old(title)) && actor == null ==>
        report == ErrorValue(ActorMissing) && title == old(title) && taskType == old(taskType) && closed == old(closed)
      ensures !IsBlank(old(title)) && actor != null ==>
        var reply := NextReply(old(actor.replies));
        && actor.calls == old(actor.calls) + [CreateRequest(old(title), old(taskType)).value]
        && actor.replies == RestOf(old(actor.replies))
        && (reply.Resolved? ==> report == SuccessKey("common.success") && closed && title == [] && taskType == Weekly)
        && (reply.Rejected? ==>
              report == ErrorValue(reply.error) && title == old(title) && taskType == old(taskType) && closed == old(closed))
    {
      if IsBlank(title) {
        return ErrorKey("errors.required");
      }
      var r := UseTasks.CreateTask(actor, Trim(title), None, taskType);
      if r.Rejected? {
        return ErrorValue(r.error);
      }
      report := SuccessKey("common.success");
      closed := true;
      title := [];
      taskType := Weekly;
    }
  }
}
