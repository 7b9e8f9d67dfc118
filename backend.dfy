/**
 * The back-end canister as the front end sees it: the record types it exchanges
 * (Task, TaskCompletion, TaskType, UserProfile, roles), the values a rejected
 * promise carries, and one abstract collaborator object, `Remote`, that stands for
 * the actor (and for the mutation hooks whose code is not part of this model).
 * Timestamps (`Time`) are nanosecond integers.
 */
module Backend {
  import opened Wrappers

  /** A principal, identified by its textual form (`principal.toString()`). */
  type Principal = string

  /** An opaque handle on an `ExternalBlob`: one already stored, or one built from a selected file. */
  datatype Blob = Stored(ref: nat) | FromFile(file: File)

  /** A browser `File` as the photo validators see it. */
  datatype File = File(name: string, mimeType: string, size: nat)

  datatype TaskType = Urgent | Monthly | Weekly

  datatype TaskCompletion = TaskCompletion(
    completedAt: int,
    completedBy: Principal,
    afterPhoto: Option<Blob>,
    beforePhoto: Option<Blob>,
    comment: Option<string>)

  /** A task; `description` is read by the edit dialog although the declarations omit it. */
  datatype Task = Task(
    id: int,
    title: string,
    description: string,
    lastResetAt: int,
    isCompleted: bool,
    taskType: TaskType,
    currentCompletion: Option<TaskCompletion>)

  datatype ProfileRole = Manager | Assistant

  datatype UserRole = Admin | User | Guest

  /** A user profile; `initials` and `profilePhoto` are used by the profile panel although the declarations omit them. */
  datatype UserProfile = UserProfile(
    username: string,
    initials: Option<string>,
    avatar: int,
    profilePhoto: Option<Blob>,
    role: ProfileRole)

  /** What a rejected promise or a `throw` carries: an `Error` object, or any other value by its `String(...)` text. */
  datatype Thrown = Error(message: string) | NonError(text: string)

  /** `err instanceof Error ? err.message : String(err)`. */
  function MessageOf(e: Thrown): (m: string)
    ensures e.Error? ==> m == e.message
    ensures e.NonError? ==> m == e.text
  {
    match e
    case Error(msg) => msg
    case NonError(text) => text
  }

  /** How an awaited call settles. */
  datatype Reply = Resolved | Rejected(error: Thrown)

  /** The calls the front end makes, with their arguments. */
  datatype Call =
    | CompleteTaskCall(taskId: int, comment: Option<string>, beforePhoto: Option<Blob>, afterPhoto: Option<Blob>)
    | CreateTaskCall(title: string, maybeDescription: Option<string>, taskType: TaskType)
    | EditTaskCall(taskId: int, title: string, description: string, taskType: TaskType)
    | ResetTaskCall(taskId: int)
    | ResetRecurringTasksCall
    | ExportTaskDataCall
    | SelectRoleAssistantCall
    | SelectRoleManagerCall(token: string)
    | SaveProfileCall(profile: UserProfile)
    | UploadPhotoCall(blob: Blob)
    | RemovePhotoCall
    | CreateOvertimeCall(minutes: int)

  /** The reply the next call gets: the head of the script, or success once the script is used up. */
  function NextReply(script: seq<Reply>): Reply {
    if script == [] then Resolved else script[0]
  }

  function RestOf(script: seq<Reply>): seq<Reply> {
    if script == [] then [] else script[1..]
  }

  /**
   * The remote side.  It records every call it receives, in order, and answers
   * each from a script of replies fixed by whoever sets up the scenario; this is
   * how the model leaves the canister's own behaviour open.
   */
  class Remote {
    var calls: seq<Call>
    var replies: seq<Reply>
    /** What `exportTaskData` resolves with. */
    var exportData: seq<Task>

    constructor (replies: seq<Reply>, exportData: seq<Task>)
      ensures this.calls == [] && this.replies == replies && this.exportData == exportData
    {
      this.calls := [];
      this.replies := replies;
      this.exportData := exportData;
    }

    /** Sends one call and awaits its reply. */
    method Invoke(c: Call) returns (r: Reply)
      modifies this
      ensures calls == old(calls) + [c]
      ensures r == NextReply(old(replies)) && replies == RestOf(old(replies))
      ensures exportData == old(exportData)
    {
      calls := calls + [c];
      r := NextReply(replies);
      replies := RestOf(replies);
    }
  }

  /** The error every hook throws when no actor is available. */
  const ActorMissing: Thrown := Error("Actor not available")
}
