/**
 * TaskCompletionChart.tsx: completions are tallied per completer in one
 * pass over the tasks (only tasks flagged completed that also carry a
 * completion record count), and the chart has one bar per profile, in
 * profile order, with that profile's tally or 0.
 */
module TaskCompletionChart {
  import opened Backend

  /** A task the tally counts. */
  predicate Counted(t: Task) {
    t.isCompleted && t.currentCompletion.Some?
  }

  /** How many of the tasks `p` completed: the specification of the tally. */
  function CompletedBy(tasks: seq<Task>, p: Principal): nat {
    if tasks == [] then 0
    else
      var last := tasks[|tasks| - 1];
      CompletedBy(tasks[..|tasks| - 1], p) + (if Counted(last) && last.currentCompletion.value.completedBy == p then 1 else 0)
  }

  /** How many tasks are counted at all. */
  function CountedTasks(tasks: seq<Task>): nat {
    if tasks == [] then 0
    else CountedTasks(tasks[..|tasks| - 1]) + (if Counted(tasks[|tasks| - 1]) then 1 else 0)
  }

  /** `completionsByUser.get(userId) || 0`. */
  function Get(counts: map<Principal, nat>, p: Principal): nat {
    if p in counts then counts[p] else 0
  }

  /** The `forEach` that fills `completionsByUser`. */
  method TallyCompletions(tasks: seq<Task>) returns (counts: map<Principal, nat>)
    ensures forall p :: Get(counts, p) == CompletedBy(tasks, p)
  {
    counts := map[];
    var i := 0;
    while i < |tasks|
      invariant 0 <= i <= |tasks|
      invariant forall p :: Get(counts, p) == CompletedBy(tasks[..i], p)
    {
      var task := tasks[i];
      assert tasks[..i + 1][..i] == tasks[..i];
      if task.isCompleted && task.currentCompletion.Some? {
        var userId := task.currentCompletion.value.completedBy;
        counts := counts[userId := Get(counts, userId) + 1];
      }
      i := i + 1;
    }
    assert tasks[..i] == tasks;
  }

  datatype Bar = Bar(name: string, completions: nat)

  /** `chartData`. */
  method ChartData(tasks: seq<Task>, profiles: seq<(Principal, UserProfile)>) returns (bars: seq<Bar>)
    ensures |bars| == |profiles|
    ensures forall i :: 0 <= i < |profiles| ==>
      bars[i] == Bar(profiles[i].1.username, CompletedBy(tasks, profiles[i].0))
  {
    var counts := TallyCompletions(tasks);
    bars := seq(|profiles|, i requires 0 <= i < |profiles| => Bar(profiles[i].1.username, Get(counts, profiles[i].0)));
  }

  /** A task flagged completed without a completion record is not counted. */
  lemma UnrecordedNotCounted(tasks: seq<Task>, t: Task, p: Principal)
    requires t.currentCompletion.None?
    ensures CompletedBy(tasks + [t], p) == CompletedBy(tasks, p)
  {
    assert (tasks + [t])[..|tasks|] == tasks;
  }

  /** The sum of the bars of the given principals. */
  function SumCompleted(tasks: seq<Task>, ps: seq<Principal>): nat {
    if ps == [] then 0 else CompletedBy(tasks, ps[0]) + SumCompleted(tasks, ps[1..])
  }

  function Occurrences(ps: seq<Principal>, x: Principal): nat {
    if ps == [] then 0 else (if ps[0] == x then 1 else 0) + Occurrences(ps[1..], x)
  }

  /** With distinct principals, the bars add up to at most the number of counted tasks. */
  lemma {:induction false} SumAtMostCounted(tasks: seq<Task>, ps: seq<Principal>)
    requires forall i, j :: 0 <= i < j < |ps| ==> ps[i] != ps[j]
    ensures SumCompleted(tasks, ps) <= CountedTasks(tasks)
  {
    if tasks == [] {
      SumOfNothing(ps);
    } else {
      var init, last := tasks[..|tasks| - 1], tasks[|tasks| - 1];
      assert init + [last] == tasks;
      SumAtMostCounted(init, ps);
      SumStep(init, last, ps);
      if Counted(last) {
        OccurrencesDistinct(ps, last.currentCompletion.value.completedBy);
      }
    }
  }

  lemma {:induction false} SumOfNothing(ps: seq<Principal>)
    ensures SumCompleted([], ps) == 0
  {
    if ps != [] {
      SumOfNothing(ps[1..]);
    }
  }

  /** One more task adds to the sum once per occurrence of its completer. */
  lemma {:induction false} SumStep(tasks: seq<Task>, t: Task, ps: seq<Principal>)
    ensures SumCompleted(tasks + [t], ps) ==
      SumCompleted(tasks, ps) + (if Counted(t) then Occurrences(ps, t.currentCompletion.value.completedBy) else 0)
  {
    assert (tasks + [t])[..|tasks|] == tasks;
    if ps != [] {
      SumStep(tasks, t, ps[1..]);
    }
  }

  lemma {:induction false} OccurrencesDistinct(ps: seq<Principal>, x: Principal)
    requires forall i, j :: 0 <= i < j < |ps| ==> ps[i] != ps[j]
    ensures Occurrences(ps, x) <= 1
  {
    if ps != [] {
      OccurrencesDistinct(ps[1..], x);
      if ps[0] == x {
        OccurrencesAbsent(ps[1..], x);
      }
    }
  }

  lemma {:induction false} OccurrencesAbsent(ps: seq<Principal>, x: Principal)
    requires x !in ps
    ensures Occurrences(ps, x) == 0
  {
    if ps != [] {
      OccurrencesAbsent(ps[1..], x);
    }
  }
}
