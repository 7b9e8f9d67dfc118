/**
 * The task mutations of useTasks.ts: each throws "Actor not available" before
 * calling anything when there is no actor; completing a task retries once
 * after a reset sweep when the canister reports an obsolete weekly task; and
 * the completion updates the cached task list optimistically and rolls it
 * back when the mutation fails.
 */
module UseTasks {
  import opened Wrappers
  import opened Backend
  import opened JsStrings

  /** The message test that triggers the reset-and-retry path. */
  predicate IsObsoleteWeekly(message: string) {
    Contains(message, "obsolete") && Contains(message, "weekly")
  }

  /** `useCreateTask` mutationFn. */
  method CreateTask(actor: Remote?, title: string, description: Option<string>, taskType: TaskType) returns (r: Reply)
    modifies actor
    ensures actor == null ==> r == Rejected(ActorMissing)
    ensures actor != null ==>
      && actor.calls == old(actor.calls) + [CreateTaskCall(title, description, taskType)]
      && r == NextReply(old(actor.replies)) && actor.replies == RestOf(old(actor.replies))
      && actor.exportData == old(actor.exportData)
  {
    if actor == null {
      return Rejected(ActorMissing);
    }
    r := actor.Invoke(CreateTaskCall(title, description, taskType));
  }

  /** `useResetTask` mutationFn. */
  method ResetTask(actor: Remote?, taskId: int) returns (r: Reply)
    modifies actor
    ensures actor == null ==> r == Rejected(ActorMissing)
    ensures actor != null ==>
      && actor.calls == old(actor.calls) + [ResetTaskCall(taskId)]
      && r == NextReply(old(actor.replies)) && actor.replies == RestOf(old(actor.replies))
      && actor.exportData == old(actor.exportData)
  {
    if actor == null {
      return Rejected(ActorMissing);
    }
    r := actor.Invoke(ResetTaskCall(taskId));
  }

  /** `useResetRecurringTasks` mutationFn. */
  method ResetRecurringTasks(actor: Remote?) returns (r: Reply)
    modifies actor
    ensures actor == null ==> r == Rejected(ActorMissing)
    ensures actor != null ==>
      && actor.calls == old(actor.calls) + [ResetRecurringTasksCall]
      && r == NextReply(old(actor.replies)) && actor.replies == RestOf(old(actor.replies))
      && actor.exportData == old(actor.exportData)
  {
    if actor == null {
      return Rejected(ActorMissing);
    }
    r := actor.Invoke(ResetRecurringTasksCall);
  }

  /**
   * The completion protocol, for the completion call `c`, the calls before
   * (`calls0`) and after (`calls1`), and the reply script before (`script`)
   * and after (`rest`).  With replies r1, r2, r3 scripted for the calls in
   * order: r1 resolved means one call; r1 an obsolete-weekly error means a
   * reset sweep and, if that resolves, one retry with the same arguments
   * whose outcome is the result; any other r1 is rethrown as it is.
   */
  predicate FollowsCompletionProtocol(c: Call, calls0: seq<Call>, calls1: seq<Call>,
                                      script: seq<Reply>, rest: seq<Reply>, r: Reply) {
    var r1 := NextReply(script);
    var r2 := NextReply(RestOf(script));
    if r1.Resolved? then
      calls1 == calls0 + [c] && r == Resolved && rest == RestOf(script)
    else if !IsObsoleteWeekly(MessageOf(r1.error)) then
      calls1 == calls0 + [c] && r == r1 && rest == RestOf(script)
    else if r2.Rejected? then
      calls1 == calls0 + [c, ResetRecurringTasksCall] && r == r2 && rest == RestOf(RestOf(script))
    else
      calls1 == calls0 + [c, ResetRecurringTasksCall, c]
      && r == NextReply(RestOf(RestOf(script))) && rest == RestOf(RestOf(RestOf(script)))
  }

  /**
   * Whatever the replies, the protocol makes one to three calls, the first of
   * them the completion, and never calls the completion a third time.
   */
  lemma CompletionCallsBounded(c: Call, calls0: seq<Call>, calls1: seq<Call>,
                               script: seq<Reply>, rest: seq<Reply>, r: Reply)
    requires c != ResetRecurringTasksCall
    requires FollowsCompletionProtocol(c, calls0, calls1, script, rest, r)
    ensures calls1[..|calls0|] == calls0
    ensures 1 <= |calls1| - |calls0| <= 3 && calls1[|calls0|] == c
    ensures multiset(calls1[|calls0|..])[c] <= 2
    ensures NextReply(script).Resolved? ==> calls1 == calls0 + [c]
  {
    var added := calls1[|calls0|..];
    assert calls1 == calls0 + added;
  }

  /** `useCompleteTask` mutationFn. */
  method CompleteTask(actor: Remote?, taskId: int, comment: Option<string>, beforePhoto: Option<Blob>, afterPhoto: Option<Blob>)
    returns (r: Reply)
    modifies actor
    ensures actor == null ==> r == Rejected(ActorMissing)
    ensures actor != null ==> actor.exportData == old(actor.exportData)
    ensures actor != null ==>
      FollowsCompletionProtocol(CompleteTaskCall(taskId, comment, beforePhoto, afterPhoto),
                                old(actor.calls), actor.calls, old(actor.replies), actor.replies, r)
  {
    if actor == null {
      return Rejected(ActorMissing);
    }
    var c := CompleteTaskCall(taskId, comment, beforePhoto, afterPhoto);
    r := actor.Invoke(c);
    if r.Rejected? {
      var errorMessage := MessageOf(r.error);
      if IsObsoleteWeekly(errorMessage) {
        r := actor.Invoke(ResetRecurringTasksCall);
        if r.Resolved? {
          r := actor.Invoke(c);
        }
      }
    }
  }

  /** The optimistic transform `old.map(task => task.id === taskId ? { ...task, isCompleted: true } : task)`. */
  function MarkCompleted(tasks: seq<Task>, taskId: int): (r: seq<Task>)
    ensures |r| == |tasks|
    ensures forall i :: 0 <= i < |tasks| ==> r[i].id == tasks[i].id
    ensures forall i :: 0 <= i < |tasks| ==> r[i].isCompleted == (tasks[i].isCompleted || tasks[i].id == taskId)
    ensures forall i :: 0 <= i < |tasks| ==> r[i].(isCompleted := tasks[i].isCompleted) == tasks[i]
    ensures forall i :: 0 <= i < |tasks| && tasks[i].id != taskId ==> r[i] == tasks[i]
  {
    seq(|tasks|, i requires 0 <= i < |tasks| =>
      if tasks[i].id == taskId then tasks[i].(isCompleted := true) else tasks[i])
  }

  /** Applying the optimistic update twice is applying it once. */
  lemma MarkCompletedIdempotent(tasks: seq<Task>, taskId: int)
    ensures MarkCompleted(MarkCompleted(tasks, taskId), taskId) == MarkCompleted(tasks, taskId)
  {
  }

  /** A list without the task is left exactly as it is. */
  lemma MarkCompletedAbsent(tasks: seq<Task>, taskId: int)
    requires forall i :: 0 <= i < |tasks| ==> tasks[i].id != taskId
    ensures MarkCompleted(tasks, taskId) == tasks
  {
  }

  /** The `['tasks']` entry of the query cache: `None` while nothing is cached. */
  class TaskQueryCache {
    var tasks: Option<seq<Task>>

    constructor (initial: Option<seq<Task>>)
      ensures tasks == initial
    {
      tasks := initial;
    }

    /** `onMutate`: snapshot the cached list, then mark the task completed in it if a list is cached. */
    method OnMutate(taskId: int) returns (previousTasks: Option<seq<Task>>)
      modifies this
      ensures previousTasks == old(tasks)
      ensures old(tasks).None? ==> tasks == old(tasks)
      ensures old(tasks).Some? ==> tasks == Some(MarkCompleted(old(tasks).value, taskId))
    {
      previousTasks := tasks;
      if previousTasks.Some? {
        tasks := Some(MarkCompleted(tasks.value, taskId));
      }
    }

    /** `onError`: put the snapshot back when there was one (an empty array is a snapshot too). */
    method OnError(previousTasks: Option<seq<Task>>)
      modifies this
      ensures tasks == if previousTasks.Some? then previousTasks else old(tasks)
    {
      if previousTasks.Some? {
        tasks := previousTasks;
      }
    }
  }

  /** The cache after a successful completion, before the refetch the invalidation triggers. */
  function Optimistic(cached: Option<seq<Task>>, taskId: int): Option<seq<Task>> {
    if cached.Some? then Some(MarkCompleted(cached.value, taskId)) else cached
  }

  /**
   * One `mutateAsync` of `useCompleteTask`: onMutate, mutationFn, and onError
   * on failure.  A failure leaves the cache exactly as it was before, and
   * the calls are those of the completion protocol.
   */
  method CompleteTaskMutation(cache: TaskQueryCache, actor: Remote?, taskId: int, comment: Option<string>,
                              beforePhoto: Option<Blob>, afterPhoto: Option<Blob>) returns (r: Reply)
    modifies cache, actor
    ensures r.Rejected? ==> cache.tasks == old(cache.tasks)
    ensures r.Resolved? ==> cache.tasks == Optimistic(old(cache.tasks), taskId)
    ensures actor == null ==> r == Rejected(ActorMissing)
    ensures actor != null ==> actor.exportData == old(actor.exportData)
    ensures actor != null ==>
      FollowsCompletionProtocol(CompleteTaskCall(taskId, comment, beforePhoto, afterPhoto),
                                old(actor.calls), actor.calls, old(actor.replies), actor.replies, r)
  {
    var previousTasks := cache.OnMutate(taskId);
    r := CompleteTask(actor, taskId, comment, beforePhoto, afterPhoto);
    if r.Rejected? {
      cache.OnError(previousTasks);
    }
  }
}
