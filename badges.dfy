/**
 * badges.ts and useBadges.ts: the fixed badge table, and the earned list
 * built by one guarded push per badge, each looking its badge up in the
 * table by id.  Overtime badges need 1 and 10 overtime entries; task badges
 * need 1, 10 and 50 completed tasks.
 */
module Badges {
  import opened Wrappers
  import opened Backend
  import OvertimeTotals
  import UseOvertime

  datatype Badge = Badge(id: string, nameKey: string, descKey: string, icon: string)

  const FirstOvertimeId: string := "first-overtime"
  const OvertimeVeteranId: string := "overtime-veteran"
  const FirstTaskId: string := "first-task"
  const TaskMasterId: string := "task-master"
  const TaskLegendId: string := "task-legend"

  const FirstOvertime := Badge(FirstOvertimeId, "badges.firstOvertime", "badges.firstOvertimeDesc", "\U{23F0}")
  const OvertimeVeteran := Badge(OvertimeVeteranId, "badges.overtimeVeteran", "badges.overtimeVeteranDesc", "\U{1F3C6}")
  const FirstTask := Badge(FirstTaskId, "badges.firstTask", "badges.firstTaskDesc", "\U{2705}")
  const TaskMaster := Badge(TaskMasterId, "badges.taskMaster", "badges.taskMasterDesc", "\U{1F31F}")
  const TaskLegend := Badge(TaskLegendId, "badges.taskLegend", "badges.taskLegendDesc", "\U{1F451}")

  /** The table of badges.ts, in its order. */
  const AllBadges: seq<Badge> := [FirstOvertime, OvertimeVeteran, FirstTask, TaskMaster, TaskLegend]

  /** `badges.find(b => b.id === id)`: the first entry with that id. */
  function Find(table: seq<Badge>, id: string): (r: Option<Badge>)
    ensures r.Some? ==> r.value in table && r.value.id == id
    ensures r.None? ==> forall k :: 0 <= k < |table| ==> table[k].id != id
  {
    if table == [] then None else if table[0].id == id then Some(table[0]) else Find(table[1..], id)
  }

  /** What each badge asks for: a least number of overtime entries, or of completed tasks. */
  datatype Requirement = Overtime(atLeast: nat) | Tasks(atLeast: nat)

  function RequirementOf(i: nat): Requirement
    requires i < |AllBadges|
  {
    [Overtime(1), Overtime(10), Tasks(1), Tasks(10), Tasks(50)][i]
  }

  predicate Meets(r: Requirement, overtimeCount: nat, completedCount: nat) {
    match r
    case Overtime(n) => overtimeCount >= n
    case Tasks(n) => completedCount >= n
  }

  /** The reference: the table entries whose requirement is met, in table order. */
  function EarnedFrom(i: nat, overtimeCount: nat, completedCount: nat): (r: seq<Badge>)
    requires i <= |AllBadges|
    ensures |r| <= |AllBadges| - i
    decreases |AllBadges| - i
  {
    if i == |AllBadges| then []
    else
      (if Meets(RequirementOf(i), overtimeCount, completedCount) then [AllBadges[i]] else [])
      + EarnedFrom(i + 1, overtimeCount, completedCount)
  }

  function Earned(overtimeCount: nat, completedCount: nat): seq<Badge> {
    EarnedFrom(0, overtimeCount, completedCount)
  }

  /** `tasks.filter(t => t.isCompleted).length`. */
  function CompletedCount(tasks: seq<Task>): (n: nat)
    ensures n <= |tasks|
  {
    if tasks == [] then 0 else (if tasks[0].isCompleted then 1 else 0) + CompletedCount(tasks[1..])
  }

  /** Counting splits over concatenation. */
  lemma {:induction false} CompletedCountAppend(a: seq<Task>, b: seq<Task>)
    ensures CompletedCount(a + b) == CompletedCount(a) + CompletedCount(b)
  {
    if a == [] {
      assert a + b == b;
    } else {
      assert (a + b)[0] == a[0] && (a + b)[1..] == a[1..] + b;
      CompletedCountAppend(a[1..], b);
    }
  }

  /** Tasks that are not flagged completed add nothing toward the task badges. */
  lemma {:induction false} IncompleteTasksDoNotCount(tasks: seq<Task>, extra: seq<Task>)
    requires forall k :: 0 <= k < |extra| ==> !extra[k].isCompleted
    ensures CompletedCount(extra) == 0
    ensures CompletedCount(tasks + extra) == CompletedCount(tasks)
    decreases |extra|
  {
    if extra != [] {
      assert forall k :: 0 <= k < |extra[1..]| ==> extra[1..][k] == extra[k + 1];
      IncompleteTasksDoNotCount([], extra[1..]);
    }
    CompletedCountAppend(tasks, extra);
  }

  /**
   * One guarded block of the memo: when `met`, `badges.find(b => b.id === id)`
   * is pushed if found.  Block `k` adds the contribution of badge `k`.
   */
  method AwardIf(earned: seq<Badge>, met: bool, id: string, ghost k: nat, ghost o: nat, ghost c: nat) returns (r: seq<Badge>)
    requires k < |AllBadges| && earned == Pieces(k, o, c)
    requires FoundAt(id, k) && met == Meets(RequirementOf(k), o, c)
    ensures r == Pieces(k + 1, o, c)
  {
    r := earned;
    if met {
      var badge := Find(AllBadges, id);
      if badge.Some? {
        r := r + [badge.value];
      }
    }
  }

  /** `badges.find(b => b.id === id)` finds entry `k` of the table. */
  predicate FoundAt(id: string, k: nat)
    requires k < |AllBadges|
  {
    Find(AllBadges, id) == Some(AllBadges[k])
  }

  /** The `earnedBadges` memo. */
  method EarnedBadges(overtimeEntries: seq<OvertimeTotals.OvertimeEntry>, tasks: seq<Task>) returns (earned: seq<Badge>)
    ensures earned == Earned(|overtimeEntries|, CompletedCount(tasks))
  {
    ghost var o, c := |overtimeEntries|, CompletedCount(tasks);
    earned := [];
    FindFirstOvertime();
    earned := AwardIf(earned, |overtimeEntries| >= 1, FirstOvertimeId, 0, o, c);
    FindOvertimeVeteran();
    earned := AwardIf(earned, |overtimeEntries| >= 10, OvertimeVeteranId, 1, o, c);
    var completedTasks := CompletedCount(tasks);
    FindFirstTask();
    earned := AwardIf(earned, completedTasks >= 1, FirstTaskId, 2, o, c);
    FindTaskMaster();
    earned := AwardIf(earned, completedTasks >= 10, TaskMasterId, 3, o, c);
    FindTaskLegend();
    earned := AwardIf(earned, completedTasks >= 50, TaskLegendId, 4, o, c);
    EarnedFromPieces(o, c);
  }

  /** The contributions of the first `n` badges. */
  function Pieces(n: nat, overtimeCount: nat, completedCount: nat): seq<Badge>
    requires n <= |AllBadges|
  {
    if n == 0 then [] else Pieces(n - 1, overtimeCount, completedCount) + Piece(n - 1, overtimeCount, completedCount)
  }

  /** The contribution of badge `i` of the table. */
  function Piece(i: nat, overtimeCount: nat, completedCount: nat): seq<Badge>
    requires i < |AllBadges|
  {
    if Meets(RequirementOf(i), overtimeCount, completedCount) then [AllBadges[i]] else []
  }

  lemma EarnedFromPieces(o: nat, c: nat)
    ensures Earned(o, c) == Pieces(5, o, c)
  {
    PiecesThenRest(5, o, c);
    assert Pieces(5, o, c) + [] == Pieces(5, o, c);
  }

  lemma ConcatAssociative(a: seq<Badge>, b: seq<Badge>, c: seq<Badge>)
    ensures (a + b) + c == a + (b + c)
  {
  }

  /** The first `n` contributions followed by the reference from `n` on is the whole reference. */
  lemma {:induction false} PiecesThenRest(n: nat, o: nat, c: nat)
    requires n <= |AllBadges|
    ensures Pieces(n, o, c) + EarnedFrom(n, o, c) == Earned(o, c)
  {
    if n > 0 {
      PiecesThenRest(n - 1, o, c);
      var before, piece, rest := Pieces(n - 1, o, c), Piece(n - 1, o, c), EarnedFrom(n, o, c);
      PiecesUnfold(n, o, c);
      EarnedFromUnfold(n - 1, o, c);
      ConcatAssociative(before, piece, rest);
    }
  }

  lemma PiecesUnfold(n: nat, o: nat, c: nat)
    requires 0 < n <= |AllBadges|
    ensures Pieces(n, o, c) == Pieces(n - 1, o, c) + Piece(n - 1, o, c)
  {
  }

  lemma EarnedFromUnfold(k: nat, o: nat, c: nat)
    requires k < |AllBadges|
    ensures EarnedFrom(k, o, c) == Piece(k, o, c) + EarnedFrom(k + 1, o, c)
  {
  }

  /** Each id the hook asks for is found, at its own place in the table. */
  lemma FindFirstOvertime() ensures FoundAt(FirstOvertimeId, 0) {
    FindAt(AllBadges, 0);
  }

  lemma FindOvertimeVeteran() ensures FoundAt(OvertimeVeteranId, 1) {
    assert AllBadges[0].id[0] != AllBadges[1].id[0];
    FindAt(AllBadges, 1);
  }

  lemma FindFirstTask() ensures FoundAt(FirstTaskId, 2) {
    assert |AllBadges[0].id| != |AllBadges[2].id| && |AllBadges[1].id| != |AllBadges[2].id|;
    FindAt(AllBadges, 2);
  }

  lemma FindTaskMaster() ensures FoundAt(TaskMasterId, 3) {
    assert AllBadges[0].id[0] != AllBadges[3].id[0] && AllBadges[1].id[0] != AllBadges[3].id[0];
    assert AllBadges[2].id[0] != AllBadges[3].id[0];
    FindAt(AllBadges, 3);
  }

  lemma FindTaskLegend() ensures FoundAt(TaskLegendId, 4) {
    assert AllBadges[0].id[0] != AllBadges[4].id[0] && AllBadges[1].id[0] != AllBadges[4].id[0];
    assert AllBadges[2].id[0] != AllBadges[4].id[0] && AllBadges[3].id[5] != AllBadges[4].id[5];
    FindAt(AllBadges, 4);
  }

  lemma {:induction false} FindAt(table: seq<Badge>, i: nat)
    requires i < |table| && forall k :: 0 <= k < i ==> table[k].id != table[i].id
    ensures Find(table, table[i].id) == Some(table[i])
  {
    if i > 0 {
      FindAt(table[1..], i - 1);
    }
  }

  /** No two entries of `table` share an id. */
  predicate IdsDistinct(table: seq<Badge>) {
    forall i, j :: 0 <= i < j < |table| ==> table[i].id != table[j].id
  }

  /** No badge occurs twice in `s`. */
  predicate NoRepeats(s: seq<Badge>) {
    forall i, j :: 0 <= i < j < |s| ==> s[i] != s[j]
  }

  /** No two table entries share an id. */
  lemma TableIdsDistinct()
    ensures IdsDistinct(AllBadges)
  {
    assert FirstOvertime.id[0] != OvertimeVeteran.id[0] && |FirstOvertime.id| != |FirstTask.id|;
    assert FirstOvertime.id[0] != TaskMaster.id[0] && FirstOvertime.id[0] != TaskLegend.id[0];
    assert |OvertimeVeteran.id| != |FirstTask.id| && OvertimeVeteran.id[0] != TaskMaster.id[0];
    assert OvertimeVeteran.id[0] != TaskLegend.id[0];
    assert FirstTask.id[0] != TaskMaster.id[0] && FirstTask.id[0] != TaskLegend.id[0];
    assert TaskMaster.id[5] != TaskLegend.id[5];
  }

  /** A badge is in the reference from `k` on exactly when it is a later table entry whose requirement is met. */
  lemma {:induction false} MemberOfEarnedFrom(k: nat, o: nat, c: nat, b: Badge)
    requires k <= |AllBadges|
    ensures b in EarnedFrom(k, o, c) <==>
      exists i :: k <= i < |AllBadges| && AllBadges[i] == b && Meets(RequirementOf(i), o, c)
    decreases |AllBadges| - k
  {
    if k < |AllBadges| {
      MemberOfEarnedFrom(k + 1, o, c, b);
    }
  }

  /** Each badge is earned exactly when its threshold is reached. */
  lemma EarnedExactly(o: nat, c: nat)
    ensures FirstOvertime in Earned(o, c) <==> o >= 1
    ensures OvertimeVeteran in Earned(o, c) <==> o >= 10
    ensures FirstTask in Earned(o, c) <==> c >= 1
    ensures TaskMaster in Earned(o, c) <==> c >= 10
    ensures TaskLegend in Earned(o, c) <==> c >= 50
  {
    TableIdsDistinct();
    MemberOfEarnedFrom(0, o, c, FirstOvertime);
    MemberOfEarnedFrom(0, o, c, OvertimeVeteran);
    MemberOfEarnedFrom(0, o, c, FirstTask);
    MemberOfEarnedFrom(0, o, c, TaskMaster);
    MemberOfEarnedFrom(0, o, c, TaskLegend);
  }

  /** `xs` is `ys` with some entries left out. */
  predicate IsSubsequence(xs: seq<Badge>, ys: seq<Badge>)
    decreases |ys|
  {
    xs == [] || (ys != [] && ((xs[0] == ys[0] && IsSubsequence(xs[1..], ys[1..])) || IsSubsequence(xs, ys[1..])))
  }

  /** The earned list follows the table order, and so (the ids being distinct) has no duplicates and at most five entries. */
  lemma EarnedInTableOrder(o: nat, c: nat)
    ensures IsSubsequence(Earned(o, c), AllBadges)
    ensures |Earned(o, c)| <= 5
  {
    EarnedFromInOrder(0, o, c);
  }

  lemma {:induction false} EarnedFromInOrder(k: nat, o: nat, c: nat)
    requires k <= |AllBadges|
    ensures IsSubsequence(EarnedFrom(k, o, c), AllBadges[k..])
    decreases |AllBadges| - k
  {
    if k < |AllBadges| {
      EarnedFromInOrder(k + 1, o, c);
      var ys := AllBadges[k..];
      assert ys != [] && ys[0] == AllBadges[k] && ys[1..] == AllBadges[k + 1..];
      var rest := EarnedFrom(k + 1, o, c);
      if Meets(RequirementOf(k), o, c) {
        var xs := [AllBadges[k]] + rest;
        assert xs == EarnedFrom(k, o, c);
        assert xs[0] == ys[0] && xs[1..] == rest;
      } else {
        assert rest == EarnedFrom(k, o, c);
      }
    }
  }

  /** No badge appears twice. */
  lemma EarnedNoDuplicates(o: nat, c: nat)
    ensures forall i, j :: 0 <= i < j < |Earned(o, c)| ==> Earned(o, c)[i] != Earned(o, c)[j]
  {
    TableIdsDistinct();
    EarnedFromDistinct(0, o, c);
  }

  lemma {:induction false} EarnedFromDistinct(k: nat, o: nat, c: nat)
    requires k <= |AllBadges|
    requires IdsDistinct(AllBadges)
    ensures NoRepeats(EarnedFrom(k, o, c))
    decreases |AllBadges| - k
  {
    if k < |AllBadges| {
      EarnedFromDistinct(k + 1, o, c);
      var rest := EarnedFrom(k + 1, o, c);
      if Meets(RequirementOf(k), o, c) {
        assert EarnedFrom(k, o, c) == [AllBadges[k]] + rest;
        HeadNotLater(k, o, c);
        ConsDistinct(AllBadges[k], rest);
      } else {
        assert EarnedFrom(k, o, c) == rest;
      }
    }
  }

  lemma HeadNotLater(k: nat, o: nat, c: nat)
    requires k < |AllBadges|
    requires IdsDistinct(AllBadges)
    ensures AllBadges[k] !in EarnedFrom(k + 1, o, c)
  {
    MemberOfEarnedFrom(k + 1, o, c, AllBadges[k]);
  }

  lemma ConsDistinct(b: Badge, rest: seq<Badge>)
    requires b !in rest && NoRepeats(rest)
    ensures NoRepeats([b] + rest)
  {
    var r := [b] + rest;
    forall i, j | 0 <= i < j < |r| ensures r[i] != r[j] {
      assert r[j] == rest[j - 1];
      if i > 0 {
        assert r[i] == rest[i - 1];
      }
    }
  }

  /** More entries or more completed tasks never lose a badge. */
  lemma EarnedMonotone(o: nat, c: nat, o': nat, c': nat, b: Badge)
    requires o <= o' && c <= c'
    requires b in Earned(o, c)
    ensures b in Earned(o', c')
  {
    MemberOfEarnedFrom(0, o, c, b);
    MemberOfEarnedFrom(0, o', c', b);
  }

  /** With the shipped overtime hook (no entries ever), no overtime badge is earned. */
  lemma NoOvertimeBadgesFromRemovedBackend(tasks: seq<Task>)
    ensures FirstOvertime !in Earned(|UseOvertime.GetOvertimeEntries()|, CompletedCount(tasks))
    ensures OvertimeVeteran !in Earned(|UseOvertime.GetOvertimeEntries()|, CompletedCount(tasks))
  {
    EarnedExactly(0, CompletedCount(tasks));
  }
}
