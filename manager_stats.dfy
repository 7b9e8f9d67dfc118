/**
 * ManagerStatsPage.tsx: `handleExport` fetches the task data through the
 * actor and turns each task into one CSV row, in order.  Without an actor it
 * throws "Actor not available" before calling anything, so nothing is
 * exported; a rejected fetch is reported and exports nothing either.
 */
module ManagerStats {
  import opened Wrappers
  import opened Backend
  import opened Notify
  import OvertimeHistory

  /**
   * One CSV row.  The two instants are kept as milliseconds (the ISO text
   * `toISOString` makes of them is not modelled); `completedAtMillis` is
   * `None` where the row holds ''.
   */
  datatype ExportRow = ExportRow(
    id: int,
    title: string,
    taskType: TaskType,
    isCompleted: bool,
    completedBy: string,
    completedAtMillis: Option<int>,
    comment: string,
    hasBeforePhoto: string,
    hasAfterPhoto: string,
    lastResetAtMillis: int)

  function YesNo(b: bool): string {
    if b then "Yes" else "No"
  }

  /** The `data.map(task => ...)` body. */
  function RowOf(task: Task): (r: ExportRow)
    ensures r.id == task.id && r.title == task.title && r.taskType == task.taskType && r.isCompleted == task.isCompleted
    ensures task.currentCompletion.None? ==>
      r.completedBy == [] && r.completedAtMillis.None? && r.comment == [] && r.hasBeforePhoto == "No" && r.hasAfterPhoto == "No"
    ensures task.currentCompletion.Some? ==>
      var c := task.currentCompletion.value;
      && r.completedBy == c.completedBy
      && r.completedAtMillis == Some(OvertimeHistory.Millis(c.completedAt))
      && r.comment == c.comment.GetOr([])
      && (r.hasBeforePhoto == "Yes" <==> c.beforePhoto.Some?)
      && (r.hasAfterPhoto == "Yes" <==> c.afterPhoto.Some?)
    ensures r.lastResetAtMillis == OvertimeHistory.Millis(task.lastResetAt)
  {
    var c := task.currentCompletion;
    ExportRow(
      task.id, task.title, task.taskType, task.isCompleted,
      if c.Some? then c.value.completedBy else [],
      if c.Some? then Some(OvertimeHistory.Millis(c.value.completedAt)) else None,
      if c.Some? && c.value.comment.Some? then c.value.comment.value else [],
      YesNo(c.Some? && c.value.beforePhoto.Some?),
      YesNo(c.Some? && c.value.afterPhoto.Some?),
      OvertimeHistory.Millis(task.lastResetAt))
  }

  function ExportRows(data: seq<Task>): (rows: seq<ExportRow>)
    ensures |rows| == |data|
    ensures forall i :: 0 <= i < |data| ==> rows[i] == RowOf(data[i])
  {
    seq(|data|, i requires 0 <= i < |data| => RowOf(data[i]))
  }

  /** `handleExport`: what is reported, and the rows handed to the CSV writer, if any. */
  method HandleExport(actor: Remote?) returns (report: Report, exported: Option<seq<ExportRow>>)
    modifies actor
    ensures actor == null ==> report == ErrorValue(ActorMissing) && exported.None?
    ensures actor != null ==>
      var reply := NextReply(old(actor.replies));
      && actor.calls == old(actor.calls) + [ExportTaskDataCall]
      && actor.replies == RestOf(old(actor.replies))
      && (reply.Rejected? ==> report == ErrorValue(reply.error) && exported.None?)
      && (reply.Resolved? ==> report == SuccessKey("common.success") && exported == Some(ExportRows(old(actor.exportData))))
  {
    if actor == null {
      return ErrorValue(ActorMissing), None;
    }
    var r := actor.Invoke(ExportTaskDataCall);
    if r.Rejected? {
      return ErrorValue(r.error), None;
    }
    var data := actor.exportData;
    exported := Some(ExportRows(data));
    report := SuccessKey("common.success");
  }
}
