/**
 * The display order of the task list (TaskList.tsx): a stable sort of a copy of
 * the task list, incomplete tasks first, then by type priority
 * urgent (0) < weekly (1) < monthly (2).
 */
module TaskList {
  import opened Backend
  import StableSort

  /** `typePriority[taskType]`. */
  function TypePriority(t: TaskType): (p: nat)
    ensures p < 3
    ensures t == Urgent <==> p == 0
    ensures t == Weekly <==> p == 1
    ensures t == Monthly <==> p == 2
  {
    match t
    case Urgent => 0
    case Weekly => 1
    case Monthly => 2
  }

  /** The comparator passed to `sort`. */
  function Compare(a: Task, b: Task): int {
    if a.isCompleted != b.isCompleted then
      (if a.isCompleted then 1 else -1)
    else
      TypePriority(a.taskType) - TypePriority(b.taskType)
  }

  /** One integer that orders tasks as the comparator does: completion group, then priority. */
  function DisplayKey(t: Task): int {
    (if t.isCompleted then 3 else 0) + TypePriority(t.taskType)
  }

  /** The comparator's sign is the sign of the key difference, so sorting by the key is sorting by the comparator. */
  lemma CompareIsKeyOrder(a: Task, b: Task)
    ensures Compare(a, b) < 0 <==> DisplayKey(a) < DisplayKey(b)
    ensures Compare(a, b) == 0 <==> DisplayKey(a) == DisplayKey(b)
    ensures Compare(a, b) > 0 <==> DisplayKey(a) > DisplayKey(b)
  {
  }

  /** Equal keys are exactly equal completion status and equal type. */
  lemma DisplayKeyEqual(a: Task, b: Task)
    ensures DisplayKey(a) == DisplayKey(b) <==> a.isCompleted == b.isCompleted && a.taskType == b.taskType
  {
  }

  /** `sortedTasks`: a reordering of the input with incomplete tasks first and priority non-decreasing within each group. */
  function SortedTasks(tasks: seq<Task>): (r: seq<Task>)
    ensures multiset(r) == multiset(tasks)
    ensures forall i, j :: 0 <= i < j < |r| && r[i].isCompleted ==> r[j].isCompleted
    ensures forall i, j :: 0 <= i < j < |r| && r[i].isCompleted == r[j].isCompleted ==>
      TypePriority(r[i].taskType) <= TypePriority(r[j].taskType)
  {
    StableSort.SortPermutes(tasks, DisplayKey);
    StableSort.SortSorted(tasks, DisplayKey);
    StableSort.Sort(tasks, DisplayKey)
  }

  /** The tasks that share a completion status and a type, in their input order. */
  function Group(tasks: seq<Task>, completed: bool, t: TaskType): (r: seq<Task>)
    ensures forall k :: 0 <= k < |r| ==> r[k] in tasks && r[k].isCompleted == completed && r[k].taskType == t
  {
    if tasks == [] then []
    else
      (if tasks[0].isCompleted == completed && tasks[0].taskType == t then [tasks[0]] else [])
      + Group(tasks[1..], completed, t)
  }

  lemma {:induction false} GroupIsWithKey(tasks: seq<Task>, completed: bool, t: TaskType)
    ensures Group(tasks, completed, t) == StableSort.WithKey(tasks, DisplayKey, (if completed then 3 else 0) + TypePriority(t))
  {
    if tasks != [] {
      GroupIsWithKey(tasks[1..], completed, t);
    }
  }

  /** Tasks with equal completion status and type keep their input order. */
  lemma SortedTasksStable(tasks: seq<Task>, completed: bool, t: TaskType)
    ensures Group(SortedTasks(tasks), completed, t) == Group(tasks, completed, t)
  {
    GroupIsWithKey(tasks, completed, t);
    GroupIsWithKey(SortedTasks(tasks), completed, t);
    StableSort.SortStable(tasks, DisplayKey, (if completed then 3 else 0) + TypePriority(t));
  }

  /** A list already in display order is shown as it is. */
  lemma SortedTasksOfOrdered(tasks: seq<Task>)
    requires forall i, j :: 0 <= i < j < |tasks| ==> DisplayKey(tasks[i]) <= DisplayKey(tasks[j])
    ensures SortedTasks(tasks) == tasks
  {
    StableSort.SortOfSorted(tasks, DisplayKey);
  }

  /** Ordering twice is ordering once. */
  lemma SortedTasksIdempotent(tasks: seq<Task>)
    ensures SortedTasks(SortedTasks(tasks)) == SortedTasks(tasks)
  {
    StableSort.SortIdempotent(tasks, DisplayKey);
  }

  /** What the list renders: the empty-state texts, or one card per task in display order. */
  datatype View = EmptyState(messageKeys: seq<string>) | Cards(cards: seq<Task>)

  function Render(tasks: seq<Task>): (v: View)
    ensures v.EmptyState? <==> tasks == []
    ensures v.EmptyState? ==> v.messageKeys == ["tasks.noTasks", "tasks.createFirst"]
    ensures v.Cards? ==> v.cards == SortedTasks(tasks) && |v.cards| == |tasks| > 0
  {
    var sorted := SortedTasks(tasks);
    if |sorted| == 0 then EmptyState(["tasks.noTasks", "tasks.createFirst"]) else Cards(sorted)
  }
}
