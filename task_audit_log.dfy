/**
 * TaskAuditLog.tsx: one row per task that is flagged completed and carries a
 * completion record, in task order, showing the completer's username looked
 * up by principal text (the last profile wins on duplicates; "Unknown" when
 * there is none or it is empty), the comment or "-", and the photo marks or
 * "-" when there are none.  No such task shows the "managerSection.noData"
 * panel instead.
 */
module TaskAuditLog {
  import opened Wrappers
  import opened Backend
  import TaskCompletionChart

  /** `tasks.filter(t => t.isCompleted && t.currentCompletion)`. */
  function CompletedTasks(tasks: seq<Task>): (r: seq<Task>)
    ensures |r| <= |tasks|
    ensures forall k :: 0 <= k < |r| ==> r[k] in tasks && TaskCompletionChart.Counted(r[k])
    ensures forall t :: t in tasks && TaskCompletionChart.Counted(t) ==> t in r
  {
    if tasks == [] then []
    else (if TaskCompletionChart.Counted(tasks[0]) then [tasks[0]] else []) + CompletedTasks(tasks[1..])
  }

  /** Filtering keeps order: it splits over concatenation. */
  lemma {:induction false} CompletedTasksAppend(a: seq<Task>, b: seq<Task>)
    ensures CompletedTasks(a + b) == CompletedTasks(a) + CompletedTasks(b)
  {
    if a == [] {
      assert a + b == b;
    } else {
      assert (a + b)[1..] == a[1..] + b;
      CompletedTasksAppend(a[1..], b);
    }
  }

  /** The log has as many rows as the completion chart counts tasks. */
  lemma {:induction false} CompletedTasksCount(tasks: seq<Task>)
    ensures |CompletedTasks(tasks)| == TaskCompletionChart.CountedTasks(tasks)
  {
    if tasks != [] {
      var init, last := tasks[..|tasks| - 1], tasks[|tasks| - 1];
      assert init + [last] == tasks;
      CompletedTasksAppend(init, [last]);
      assert [last][1..] == [];
      CompletedTasksCount(init);
    }
  }

  /** `new Map(profiles.map(([p, profile]) => [p.toString(), profile]))`: entries in order, a later key overwriting. */
  function ProfileMap(profiles: seq<(Principal, UserProfile)>): (m: map<Principal, UserProfile>)
    ensures forall p :: p in m <==> exists i :: 0 <= i < |profiles| && profiles[i].0 == p
  {
    if profiles == [] then map[]
    else
      var init := profiles[..|profiles| - 1];
      var m := ProfileMap(init);
      assert forall i :: 0 <= i < |init| ==> init[i] == profiles[i];
      m[profiles[|profiles| - 1].0 := profiles[|profiles| - 1].1]
  }

  /** The profile found for a principal is its last entry in the list. */
  lemma {:induction false} ProfileMapLastWins(profiles: seq<(Principal, UserProfile)>, i: nat)
    requires i < |profiles|
    requires forall j :: i < j < |profiles| ==> profiles[j].0 != profiles[i].0
    ensures ProfileMap(profiles)[profiles[i].0] == profiles[i].1
  {
    if i < |profiles| - 1 {
      var init := profiles[..|profiles| - 1];
      ProfileMapLastWins(init, i);
    }
  }

  /** `profile?.username || 'Unknown'`. */
  function CompleterName(profileMap: map<Principal, UserProfile>, p: Principal): (r: string)
    ensures r != []
    ensures r != "Unknown" ==> p in profileMap && r == profileMap[p].username
    ensures p in profileMap && profileMap[p].username != [] ==> r == profileMap[p].username
  {
    if p in profileMap && profileMap[p].username != [] then profileMap[p].username else "Unknown"
  }

  /** `comment || '-'`. */
  function CommentText(comment: Option<string>): (r: string)
    ensures r != []
    ensures comment.Some? && comment.value != [] ==> r == comment.value
    ensures (comment.None? || comment.value == []) ==> r == "-"
  {
    if comment.Some? && comment.value != [] then comment.value else "-"
  }

  /** The photos cell: a mark per photo present, or "-" when there is neither. */
  function PhotoMarks(c: TaskCompletion): (r: seq<string>)
    ensures r == ["-"] <==> c.beforePhoto.None? && c.afterPhoto.None?
    ensures "Before" in r <==> c.beforePhoto.Some?
    ensures "After" in r <==> c.afterPhoto.Some?
  {
    if c.beforePhoto.Some? && c.afterPhoto.Some? then ["Before", "After"]
    else if c.beforePhoto.Some? then ["Before"]
    else if c.afterPhoto.Some? then ["After"]
    else ["-"]
  }

  /** The translation key of the type column. */
  function TypeKey(t: TaskType): string {
    match t
    case Weekly => "tasks.weekly"
    case Monthly => "tasks.monthly"
    case Urgent => "tasks.urgent"
  }

  datatype AuditRow = AuditRow(title: string, typeKey: string, completedBy: string, comment: string, photos: seq<string>)

  datatype View = NoData(messageKey: string) | Table(rows: seq<AuditRow>)

  function RowOf(task: Task, profileMap: map<Principal, UserProfile>): AuditRow
    requires task.currentCompletion.Some?
  {
    var c := task.currentCompletion.value;
    AuditRow(task.title, TypeKey(task.taskType), CompleterName(profileMap, c.completedBy), CommentText(c.comment), PhotoMarks(c))
  }

  /** The component's output. */
  function Render(tasks: seq<Task>, profiles: seq<(Principal, UserProfile)>): (v: View)
    ensures v.NoData? <==> CompletedTasks(tasks) == []
    ensures v.NoData? ==> v.messageKey == "managerSection.noData"
    ensures v.Table? ==> |v.rows| == |CompletedTasks(tasks)|
    ensures v.Table? ==> forall i :: 0 <= i < |v.rows| ==>
      v.rows[i] == RowOf(CompletedTasks(tasks)[i], ProfileMap(profiles))
  {
    var completed := CompletedTasks(tasks);
    var profileMap := ProfileMap(profiles);
    if completed == [] then NoData("managerSection.noData")
    else Table(seq(|completed|, i requires 0 <= i < |completed| => RowOf(completed[i], profileMap)))
  }
}
