# FitGebit team tracker — front-end core in Dafny

This model covers the decision logic of the React front end of the FitGebit team tracker, an app for a dental
practice. Assistants complete recurring tasks (weekly, monthly, urgent) and log overtime. Managers also see
completion statistics and an audit log, and can export data.

The model covers these parts of the front end:

- **Task lifecycle on the client.**
  - The task mutations and their "Actor not available" guard.
  - The completion protocol: call, then on an "obsolete … weekly" error one reset sweep and one retry.
  - The optimistic cache update and its rollback.
  - The display order of the task list.
  - The create and edit dialogs.
- **Overtime.**
  - The composite day/hour/minute formatter, with a 450-minute workday.
  - The totals card, with a 480-minute workday, floor division and JavaScript's truncating `%`.
  - The entry form's guard chain, including JavaScript `Date` rollover of impossible dates.
  - The history view and the manager's export mapping.
- **Reporting.**
  - Per-user completion tallies, the audit log and the task CSV rows.
  - The achievement badges.
- **Small state machines and validators.**
  - Error-message classification and the manager-token error normalisation.
  - The post-login screen choice and the role chooser with its pending-role restore.
  - Profile settings and onboarding, and the photo file check.
- **Lookups.**
  - The avatar table and its path lookup.
  - The initials colour hash.
  - Dotted-key translation lookup.

The back-end canister is not part of this model: the front end only holds type declarations for it.

- **The back end** is the class `Backend.Remote`. It records each call it receives, in order. It answers from a
  script of replies fixed by the scenario: resolved, or rejected with a thrown value. Once the script is used up,
  every call resolves. So the canister's reset cadence and its own checks stay open.
- **Mutation hooks whose code is not shown** are direct calls on a `Remote`. These are the edit, profile-save,
  photo-upload and photo-remove hooks.
- **Component state** becomes a class with fields wherever handlers update it. Examples: `Dialog`, `Form`,
  `Screen`, `Panel`, `Provider`, `TaskQueryCache`.
- **Pure projections** become functions, each with lemmas about it.
- **Loops** of the source are methods proved against a specification function:
  - the tally `forEach` (`TallyCompletions`);
  - the badge pushes (`EarnedBadges`);
  - the `parts` pushes (`FormatCompositeTime`);
  - the key walk of `t` (`Provider.T`).
- **Toasts and alerts** are returned as values instead of being shown:
  - `Notify.Report` records what a handler asked the notifier to show;
  - `Notify.Toast` is the toast `handleError` picks;
  - `ProfilePhotoField.Effect` records the alert and the `onPhotoChange` calls.
- **The clock, storage and translation tables** are parameters or fields.

Where the code and the written requirements for the system disagree, the model follows the code:

- The overtime form has no lower bound on the date. `OvertimeForm.EarlierDaysAccepted` states this.
- The form rejects minutes ≤ 0 before it applies the sign. This is stricter than "not zero".
- The create-task dialog checks only the title and sends no description.
- The composite formatter uses 450 minutes per workday, while the totals card uses 480. Both constants are kept.
- The retry protocol is triggered by substring matching on the error text, not by a typed error.
- OvertimeHistory sorts by timestamp.

The callers and `src/frontend/src/backend.d.ts` disagree in places. The model follows the callers:

- `Task` has a `description`.
- `UserProfile` has `initials` and a `profilePhoto`.
- The create call takes three arguments.

## Model

| member | source | states |
|---|---|---|
| UseTasks.CreateTask | src/frontend/src/hooks/useTasks.ts:33-34 | Without an actor it rejects with "Actor not available" and makes no call. Otherwise it makes exactly one create call with the given title, description and type, and returns that call's reply. |
| UseTasks.ResetTask | src/frontend/src/hooks/useTasks.ts:114-117 | Without an actor it rejects with "Actor not available". Otherwise it makes one reset call for the id and returns that call's reply. |
| UseTasks.ResetRecurringTasks | src/frontend/src/hooks/useTasks.ts:129-132 | Without an actor it rejects with "Actor not available". Otherwise it makes one reset-sweep call and returns that call's reply. |
| UseTasks.CompleteTask | src/frontend/src/hooks/useTasks.ts:57-73 | Without an actor: rejects before any call. If the first completion resolves: no reset and no second call. If it fails with a message containing both "obsolete" and "weekly": exactly one reset sweep, then one retry with identical arguments. The retry's outcome is the result; a failed sweep is propagated. Any other error, "obsolete" alone included, is rethrown unchanged with no reset. There is never a third completion call. |
| UseTasks.MarkCompleted | src/frontend/src/hooks/useTasks.ts:84-91 | The optimistic map keeps the list's length, order and ids. `isCompleted` becomes true exactly on the task with the matching id. Every other field, and every other task, is unchanged. |
| UseTasks.MarkCompletedIdempotent | src/frontend/src/hooks/useTasks.ts:86-90 | Applying the optimistic update twice is the same as applying it once. |
| UseTasks.MarkCompletedAbsent | src/frontend/src/hooks/useTasks.ts:86-90 | A list without the task is left exactly as it was. |
| UseTasks.TaskQueryCache.constructor | src/frontend/src/hooks/useTasks.ts:80 | The cache starts with the given cached list, or with none. |
| UseTasks.TaskQueryCache.OnMutate | src/frontend/src/hooks/useTasks.ts:75-95 | Returns the snapshot taken before the update. When nothing is cached, nothing is written. Otherwise the cache becomes the marked list. |
| UseTasks.TaskQueryCache.OnError | src/frontend/src/hooks/useTasks.ts:96-101 | The cache is restored exactly to the snapshot when there is one, an empty list included. Otherwise it is left as it is. |
| UseTasks.CompleteTaskMutation | src/frontend/src/hooks/useTasks.ts:46-101 | For onMutate, then the mutation, then onError: a failed completion leaves the cache exactly as it was before. A successful one leaves the optimistic update in place. Without an actor it rejects. With an actor, the calls made and the outcome are those of the completion protocol, as for CompleteTask. |
| UseTasks.CompletionCallsBounded | src/frontend/src/hooks/useTasks.ts:57-73 | Whatever the replies, the protocol appends one to three calls and the first is the completion. The completion is called at most twice. A first success means exactly one call. |
| TaskList.TypePriority | src/frontend/src/components/tasks/TaskList.tsx:22-28 | urgent is 0, weekly is 1, monthly is 2. These are the only values. |
| TaskList.CompareIsKeyOrder | src/frontend/src/components/tasks/TaskList.tsx:15-29 | The comparator's sign is the sign of the difference of one integer key: completion group first, then type priority. Sorting by the key is sorting by the comparator. |
| TaskList.DisplayKeyEqual | src/frontend/src/components/tasks/TaskList.tsx:17-28 | Two tasks tie (the comparator returns 0) exactly when they have equal completion status and equal type. |
| TaskList.SortedTasks | src/frontend/src/components/tasks/TaskList.tsx:14-30 | The result is a permutation of the input. Every incomplete task precedes every completed one. Within a completion group, type priority never decreases. The input is a value and is not changed. |
| TaskList.SortedTasksStable | src/frontend/src/components/tasks/TaskList.tsx:15-29 | Tasks with equal completion status and type keep their input order. |
| TaskList.SortedTasksOfOrdered | src/frontend/src/components/tasks/TaskList.tsx:15-29 | A list already in display order is returned unchanged. |
| TaskList.SortedTasksIdempotent | src/frontend/src/components/tasks/TaskList.tsx:15-29 | Sorting the sorted list changes nothing. |
| TaskList.Render | src/frontend/src/components/tasks/TaskList.tsx:32-47 | Empty input shows the two empty-state texts and no cards. Otherwise there is one card per task, in sorted order. |
| StableSort.SortPermutes | src/frontend/src/components/tasks/TaskList.tsx:15 | The stable sort used by `Array.prototype.sort` returns a permutation of its input. |
| StableSort.SortSorted | src/frontend/src/components/tasks/TaskList.tsx:15 | The result is ordered by the key. |
| StableSort.SortStable | src/frontend/src/components/tasks/TaskList.tsx:15 | For every key, the elements with that key appear in the result in their input order. |
| StableSort.SortOfSorted | src/frontend/src/components/tasks/TaskList.tsx:15 | Sorting an already ordered sequence returns it unchanged. |
| StableSort.SortIdempotent | src/frontend/src/components/tasks/TaskList.tsx:15 | Sorting twice is sorting once. |
| StableSort.SortIsTheStableOrdering | src/frontend/src/components/overtime/OvertimeHistory.tsx:20 | Any arrangement that is ordered by the key and keeps every key group in input order is the sort's result. So the sort is fully determined by these two properties. |
| CreateTaskDialog.CreateRequest | src/frontend/src/components/tasks/CreateTaskDialog.tsx:26-35 | There is no request exactly when the title is blank after trimming. Otherwise the request has the trimmed title (non-empty, already trimmed), the chosen type and no description. |
| CreateTaskDialog.CreateRequestIgnoresPadding | src/frontend/src/components/tasks/CreateTaskDialog.tsx:32-35 | Trimming the title first does not change the request. |
| CreateTaskDialog.Dialog.constructor | src/frontend/src/components/tasks/CreateTaskDialog.tsx:22-23 | The form starts with an empty title and the weekly type. |
| CreateTaskDialog.Dialog.Submit | src/frontend/src/components/tasks/CreateTaskDialog.tsx:25-43 | A blank title reports "errors.required" and makes no create call. Otherwise one create call is made with the trimmed title and the type. Only on success is the dialog closed, the title cleared and the type reset to weekly. On failure the error is reported and title and type are left as entered. |
| EditTaskDialog.EditError | src/frontend/src/components/tasks/EditTaskDialog.tsx:37-46 | The title is checked first: "errors.required" exactly when the title is blank. "tasks.descriptionRequired" exactly when the title is not blank and the description is. No error exactly when both are filled. |
| EditTaskDialog.EditRequest | src/frontend/src/components/tasks/EditTaskDialog.tsx:48-54 | The edit call carries the edited task's id, the trimmed non-empty title and description, and the chosen type. |
| EditTaskDialog.EditRequestIgnoresPadding | src/frontend/src/components/tasks/EditTaskDialog.tsx:49-54 | Trimmed fields still pass the guard and give the same request. |
| EditTaskDialog.Dialog.constructor | src/frontend/src/components/tasks/EditTaskDialog.tsx:24-26 | The form starts with an empty title, an empty description and the weekly type. |
| EditTaskDialog.Dialog.Prefill | src/frontend/src/components/tasks/EditTaskDialog.tsx:29-35 | When the dialog is open, title, description and type are copied from the task. When it is closed, nothing changes. |
| EditTaskDialog.Dialog.Submit | src/frontend/src/components/tasks/EditTaskDialog.tsx:37-60 | A guard error is reported with no edit call. Otherwise one edit call is made with the request. The dialog closes only after a successful edit; a failure is reported. The form fields are never changed. |
| OvertimeTime.BreakdownOf | src/frontend/src/utils/overtimeTime.ts:15-21 | `days*450 + hours*60 + minutes == abs(total)`, with `minutes < 60`, `hours*60 + minutes < 450` and `hours <= 7`. |
| OvertimeTime.BreakdownUnique | src/frontend/src/utils/overtimeTime.ts:18-21 | The floor/mod breakdown is the only one satisfying those bounds. |
| OvertimeTime.UnitText | src/frontend/src/utils/overtimeTime.ts:24-26 | Gives the number, a space and the unit. The text ends in "s" exactly when the number is not 1. |
| OvertimeTime.Parts | src/frontend/src/utils/overtimeTime.ts:23-26 | There are one to three parts: never none, because minutes are pushed when nothing else was. |
| OvertimeTime.FormatCompositeTime | src/frontend/src/utils/overtimeTime.ts:13-30 | The conditional pushes give the composite text: optional "-", then the days, hours and minutes parts that appear, joined by ", ". |
| OvertimeTime.ZeroIsZeroMinutes | src/frontend/src/utils/overtimeTime.ts:26 | 0 is written exactly "0 minutes". |
| OvertimeTime.SignPrefix | src/frontend/src/utils/overtimeTime.ts:14-29 | The text is never empty. It starts with "-" exactly when the total is negative. |
| OvertimeTime.NegativeIsMinusAbsolute | src/frontend/src/utils/overtimeTime.ts:14-29 | A negative total is "-" followed by the text of its absolute value. |
| OvertimeTime.MinutesOnly | src/frontend/src/utils/overtimeTime.ts:23-26 | A total from 0 to 59 is the minutes part alone. |
| OvertimeTime.WholeWorkdays | src/frontend/src/utils/overtimeTime.ts:23-26 | A whole number of 450-minute workdays is the days part alone; zero hours and minutes are omitted. |
| JsMath.Abs | src/frontend/src/utils/overtimeTime.ts:15 | `Math.abs`: the result is the input or its negation. |
| JsMath.TruncDiv | src/frontend/src/components/overtime/OvertimeTotals.tsx:26 | The quotient truncated toward zero: it bounds the magnitude and takes the dividend's sign. |
| JsMath.Rem | src/frontend/src/components/overtime/OvertimeTotals.tsx:26 | JavaScript `%`: `a == trunc(a/b)*b + r`, with `abs(r) < b`. The remainder is zero or has the sign of the dividend. |
| JsMath.RemOfNonNegative | src/frontend/src/components/overtime/OvertimeTotals.tsx:26 | On non-negative dividends JavaScript `%` and truncation agree with Euclidean `%` and `/`. |
| JsMath.RemOfNegative | src/frontend/src/components/overtime/OvertimeTotals.tsx:25-26 | On a negative dividend that is not a multiple, JavaScript `%` is the Euclidean remainder minus b. The truncated quotient is the floor plus one. |
| OvertimeTotals.TotalAppend | src/frontend/src/components/overtime/OvertimeTotals.tsx:21-23 | The signed-sum fold splits over concatenation. The empty list gives 0. |
| OvertimeTotals.ComputeTotals | src/frontend/src/components/overtime/OvertimeTotals.tsx:20-33 | The total is the sum of +minutes for additions and −minutes for deductions. workdays = floor(total/480). The remainder is `total % 480` with JavaScript's truncating `%`: its magnitude is below 480, and it is zero or has the sign of the total. A whole number of workdays, negative ones included, leaves remainder 0. |
| OvertimeTotals.NonNegativeReconstructs | src/frontend/src/components/overtime/OvertimeTotals.tsx:25-26 | For total ≥ 0: `workdays*480 + remainder == total` and `0 <= remainder < 480`. |
| OvertimeTotals.NegativeMisreconstructs | src/frontend/src/components/overtime/OvertimeTotals.tsx:25-26 | For a negative total that is not a multiple of 480, the parts add up to total − 480, and the remainder is negative. |
| OvertimeTotals.ThirtyMinuteDeduction | src/frontend/src/components/overtime/OvertimeTotals.tsx:21-26 | One 30-minute deduction gives total −30, workdays −1 and remainder −30. |
| OvertimeTotals.RemainderSuffix | src/frontend/src/components/overtime/OvertimeTotals.tsx:52-56 | Nothing exactly when the remainder is 0. Otherwise the remainder followed by "m": "+" first exactly when it is positive, "-" exactly when it is negative. |
| JsDate.DaysInMonth | src/frontend/src/components/overtime/OvertimeForm.tsx:39 | Month lengths of the proleptic Gregorian calendar. The length is 29 exactly for February of a leap year. |
| JsDate.JsYear | src/frontend/src/components/overtime/OvertimeForm.tsx:39 | `new Date(y, …)` reads years 0..99 as 1900 + y; other years are kept. |
| JsDate.Epoch | src/frontend/src/components/overtime/OvertimeForm.tsx:39 | 1 January 1970 is day 0. |
| JsDate.DayOffset | src/frontend/src/components/overtime/OvertimeForm.tsx:39 | The day argument counts on from the first of the month, so any day value is accepted. |
| JsDate.MonthRollover | src/frontend/src/components/overtime/OvertimeForm.tsx:39 | The first of the next month, or of next January, falls exactly the month's length after the first of this one. |
| JsDate.DayRollover | src/frontend/src/components/overtime/OvertimeForm.tsx:39 | A day past the month's end is that many days into the next month. For example, 31 February is 3 March in a common year. |
| JsDate.FebruaryRollover | src/frontend/src/components/overtime/OvertimeForm.tsx:39 | February has 28 or 29 days under the day-number formula, following the leap-year rule. |
| OvertimeForm.Check | src/frontend/src/components/overtime/OvertimeForm.tsx:24-50 | The guard chain, each key stated as an iff. "errors.invalidMinutes" when the minutes are missing or ≤ 0. Otherwise "errors.invalidInput" when the day is outside 1..31, the month outside 1..12, or the year missing. Otherwise "errors.futureDate" when the date is after today's midnight. Otherwise the signed minutes: their magnitude is the minutes, and they are positive exactly for the add button. |
| OvertimeForm.TodayIsAccepted | src/frontend/src/components/overtime/OvertimeForm.tsx:39-46 | Today's date passes the future check. |
| OvertimeForm.EarlierDaysAccepted | src/frontend/src/components/overtime/OvertimeForm.tsx:39-50 | Any earlier day passes, with no lower bound, and gets the button's sign. |
| OvertimeForm.RolledOverDate | src/frontend/src/components/overtime/OvertimeForm.tsx:39-43 | A day past the month's end is judged as the date it rolls over to. |
| OvertimeForm.Form.constructor | src/frontend/src/components/overtime/OvertimeForm.tsx:17-21 | The form starts with no minutes, no comment and today's day, month and year. |
| OvertimeForm.Form.Submit | src/frontend/src/components/overtime/OvertimeForm.tsx:23-65 | A guard error is reported with no mutation and the form untouched. Otherwise one create call is made with the signed minutes. Only on success are minutes and comment cleared and the date reset to today; on failure the form is untouched. |
| OvertimeForm.Form.SubmitToRemovedBackend | src/frontend/src/components/overtime/OvertimeForm.tsx:48-64 | With the shipped create hook, which always throws, the form is never reset. A valid entry reports "Overtime functionality has been removed". |
| UseOvertime.GetOvertimeEntries | src/frontend/src/hooks/useOvertime.ts:10-15 | The list query always yields no entries. |
| UseOvertime.CreateOvertimeEntry | src/frontend/src/hooks/useOvertime.ts:24-28 | The create mutation always rejects with "Overtime functionality has been removed". |
| OvertimeHistory.SortedEntries | src/frontend/src/components/overtime/OvertimeHistory.tsx:20 | The result is a permutation of the entries with timestamps non-increasing. The input is not changed. |
| OvertimeHistory.SortedEntriesStable | src/frontend/src/components/overtime/OvertimeHistory.tsx:20 | Entries with equal timestamps keep their input order. |
| OvertimeHistory.SortedEntriesOfOrdered | src/frontend/src/components/overtime/OvertimeHistory.tsx:20 | A list already newest-first is shown as it is. |
| OvertimeHistory.SignLabel | src/frontend/src/components/overtime/OvertimeHistory.tsx:69 | Starts with "+" exactly for an addition and "-" otherwise, followed by the entry's minutes. |
| OvertimeHistory.Millis | src/frontend/src/components/overtime/OvertimeHistory.tsx:45 | Nanoseconds to milliseconds: a division by 1,000,000, exact floor for non-negative timestamps. |
| OvertimeHistory.DateText | src/frontend/src/components/overtime/OvertimeHistory.tsx:46-48 | `dd/mm/yyyy`: day and month are each two digits, zero-padded, and read back as the day and the month. |
| OvertimeHistory.RowOf | src/frontend/src/components/overtime/OvertimeHistory.tsx:44-75 | A row carries the entry's sign label and its time in ms. The comment is shown exactly when it is present and non-empty, and then unchanged. |
| OvertimeHistory.Render | src/frontend/src/components/overtime/OvertimeHistory.tsx:22-82 | An empty list shows "overtime.noEntries". Otherwise there is one row per entry, in newest-first order. |
| ManagerOvertime.RowOf | src/frontend/src/hooks/useManagerOvertime.ts:20-31 | Type is "Add" exactly when minutes > 0, otherwise "Deduct", zero included. Minutes is `abs(minutes)`. The type's sign times Minutes gives back the stored signed value. Approved is "Yes" exactly when approved. CreatedBy is the principal text. The date is its timestamp in ms. |
| ManagerOvertime.PrepareOvertimeExportData | src/frontend/src/hooks/useManagerOvertime.ts:19-33 | One row per entry, in input order. |
| TaskCompletionChart.TallyCompletions | src/frontend/src/components/manager/TaskCompletionChart.tsx:16-23 | After the loop, each principal's count is the number of tasks it completed. A task counts only when it has isCompleted and a completion record. |
| TaskCompletionChart.ChartData | src/frontend/src/components/manager/TaskCompletionChart.tsx:15-29 | One bar per profile, in profile order. Each bar has the username and that principal's completion count, 0 when there is none. Completions by principals without a profile appear in no bar. |
| TaskCompletionChart.UnrecordedNotCounted | src/frontend/src/components/manager/TaskCompletionChart.tsx:19 | A task lacking a completion record is not counted. |
| TaskCompletionChart.SumAtMostCounted | src/frontend/src/components/manager/TaskCompletionChart.tsx:18-28 | With distinct profile principals, the bars add up to at most the number of counted tasks. |
| TaskAuditLog.CompletedTasks | src/frontend/src/components/manager/TaskAuditLog.tsx:21-23 | Keeps exactly the tasks with isCompleted and a completion record, and no others. |
| TaskAuditLog.CompletedTasksAppend | src/frontend/src/components/manager/TaskAuditLog.tsx:22 | The filter splits over concatenation, keeping order. |
| TaskAuditLog.CompletedTasksCount | src/frontend/src/components/manager/TaskAuditLog.tsx:21-23 | The log has exactly as many rows as the completion chart counts tasks. |
| TaskAuditLog.ProfileMap | src/frontend/src/components/manager/TaskAuditLog.tsx:17-19 | A principal has an entry exactly when it occurs in the profiles. |
| TaskAuditLog.ProfileMapLastWins | src/frontend/src/components/manager/TaskAuditLog.tsx:17-19 | On duplicate principals, the last profile wins. |
| TaskAuditLog.CompleterName | src/frontend/src/components/manager/TaskAuditLog.tsx:64 | The username of the mapped profile when it is present and non-empty. Otherwise "Unknown". |
| TaskAuditLog.CommentText | src/frontend/src/components/manager/TaskAuditLog.tsx:65 | The comment when present and non-empty. Otherwise "-". |
| TaskAuditLog.PhotoMarks | src/frontend/src/components/manager/TaskAuditLog.tsx:68-80 | "Before" exactly when there is a before photo, and "After" exactly when there is an after photo. Just "-" exactly when there is neither. |
| TaskAuditLog.Render | src/frontend/src/components/manager/TaskAuditLog.tsx:31-85 | Only the "managerSection.noData" panel when no task qualifies. Otherwise one row per qualifying task, in input order. |
| ManagerStats.RowOf | src/frontend/src/pages/manager/ManagerStatsPage.tsx:24-37 | id, title, taskType and isCompleted are copied. completedBy, completedAt and comment are empty when there is no completion record. The photo columns are "Yes" exactly when the photo is present. Instants are ns/1,000,000 ms. |
| ManagerStats.ExportRows | src/frontend/src/pages/manager/ManagerStatsPage.tsx:24-37 | One row per exported task, in order. |
| ManagerStats.HandleExport | src/frontend/src/pages/manager/ManagerStatsPage.tsx:19-44 | With no actor, the error is reported with no call and nothing is exported. Otherwise there is one export call. On failure its error is reported and nothing is exported. On success the rows of the fetched data are exported and success is reported. |
| Badges.Find | src/frontend/src/hooks/useBadges.ts:15 | `badges.find` returns an entry of the table with the id, and none only when no entry has it. |
| Badges.FindFirstOvertime | src/frontend/src/components/badges/badges.ts:9-14 | Finding "first-overtime" gives the first table entry. |
| Badges.FindOvertimeVeteran | src/frontend/src/components/badges/badges.ts:15-20 | Finding "overtime-veteran" gives the second table entry. |
| Badges.FindFirstTask | src/frontend/src/components/badges/badges.ts:21-26 | Finding "first-task" gives the third table entry. |
| Badges.FindTaskMaster | src/frontend/src/components/badges/badges.ts:27-32 | Finding "task-master" gives the fourth table entry. |
| Badges.FindTaskLegend | src/frontend/src/components/badges/badges.ts:33-38 | Finding "task-legend" gives the fifth table entry. |
| Badges.TableIdsDistinct | src/frontend/src/components/badges/badges.ts:8-39 | No two table entries share an id. |
| Badges.CompletedCount | src/frontend/src/hooks/useBadges.ts:26 | The number of completed tasks is at most the number of tasks. |
| Badges.CompletedCountAppend | src/frontend/src/hooks/useBadges.ts:26 | The completed count splits over concatenation. |
| Badges.IncompleteTasksDoNotCount | src/frontend/src/hooks/useBadges.ts:26 | Only tasks with isCompleted count: adding incomplete tasks does not change the count. |
| Badges.EarnedFrom | src/frontend/src/hooks/useBadges.ts:11-44 | The reference list, built from the table entry at each index onward, has at most the remaining number of entries. |
| Badges.AwardIf | src/frontend/src/hooks/useBadges.ts:14-17 | One guarded push: when the threshold is met and the badge is found, exactly that table entry is appended. |
| Badges.EarnedBadges | src/frontend/src/hooks/useBadges.ts:10-45 | The result of the five guarded pushes is the reference list of thresholds that are met, in table order. |
| Badges.MemberOfEarnedFrom | src/frontend/src/hooks/useBadges.ts:14-42 | A badge is earned exactly when it is a table entry whose threshold is met. |
| Badges.EarnedExactly | src/frontend/src/hooks/useBadges.ts:14-42 | "first-overtime" ⇔ ≥1 overtime entries. "overtime-veteran" ⇔ ≥10. "first-task" ⇔ ≥1 completed tasks. "task-master" ⇔ ≥10. "task-legend" ⇔ ≥50. |
| Badges.EarnedInTableOrder | src/frontend/src/hooks/useBadges.ts:11-44 | The earned list is a subsequence of the table, so it follows table order and has at most 5 entries. |
| Badges.EarnedNoDuplicates | src/frontend/src/hooks/useBadges.ts:11-44 | No badge is earned twice. |
| Badges.EarnedMonotone | src/frontend/src/hooks/useBadges.ts:14-42 | Raising either count never removes an earned badge. |
| Badges.NoOvertimeBadgesFromRemovedBackend | src/frontend/src/hooks/useBadges.ts:7-23 | With the shipped overtime hook, which returns no entries, neither overtime badge is ever earned. |
| Backend.MessageOf | src/frontend/src/hooks/useNotify.ts:20 | `err.message` for an Error value. `String(err)` otherwise. |
| Notify.HandleError | src/frontend/src/hooks/useNotify.ts:19-35 | Exactly one toast per call, chosen from the message. A raw toast shows the message itself. |
| Notify.FirstMatch | src/frontend/src/hooks/useNotify.ts:22-34 | Reference reading of a rule table. The key is that of the first rule all of whose substrings occur. The raw message is shown exactly when no rule matches. |
| Notify.ClassifyIsFirstMatch | src/frontend/src/hooks/useNotify.ts:22-34 | The chain is first-match over the rules in this order: "Unauthorized", "not found", "Invalid token", "Invalid overtime entry", ("obsolete" and "weekly"). Matching is case-sensitive substring containment. |
| Notify.ObsoleteAloneIsRaw | src/frontend/src/hooks/useNotify.ts:30-33 | "obsolete" without "weekly", and with no earlier marker, falls through to the raw message. |
| RoleSelection.NormalizeManagerError | src/frontend/src/hooks/useRoleSelection.ts:29-35 | An Error whose message includes "Invalid token" becomes "Invalid manager token. Please check and try again.". Every other thrown value is unchanged. |
| RoleSelection.SelectRoleAssistant | src/frontend/src/hooks/useRoleSelection.ts:9-12 | Without an actor it rejects before any call. Otherwise there is one assistant call, whose reply is passed on unmapped. |
| RoleSelection.SelectRoleManager | src/frontend/src/hooks/useRoleSelection.ts:25-36 | Without an actor it rejects before any call. Otherwise there is one manager call with the token. A rejection goes through the normalisation. |
| RoleSelection.NormalizeIdempotent | src/frontend/src/hooks/useRoleSelection.ts:31-34 | Normalising twice is normalising once. |
| RoleSelection.ReplacementLacksMarkers | src/frontend/src/hooks/useRoleSelection.ts:32 | The replacement text contains none of the markers `handleError` tests for, "Invalid token" included. |
| RoleSelection.InvalidTokenShownVerbatim | src/frontend/src/hooks/useRoleSelection.ts:31-33 | A normalised manager error is shown verbatim rather than as "auth.tokenRequired". The raw error would have been classified as a key. |
| AppFlow.ChooseScreen | src/frontend/src/components/auth/AuthenticatedAppFlow.tsx:28-75 | Exactly one screen for every input, each stated as an iff. The role error screen is shown whatever the other flags. The profile error screen appears only with a known non-guest role. The spinner appears only when no error screen applies. Guest gets the role choice. Onboarding appears only for role set, profile fetched and profile null. Otherwise the app shell. |
| AppFlow.UndefinedProfileGoesToApp | src/frontend/src/components/auth/AuthenticatedAppFlow.tsx:69-75 | A still-undefined profile with a real role goes to the app shell, not onboarding. |
| AppFlow.ProfileErrorNeedsRealRole | src/frontend/src/components/auth/AuthenticatedAppFlow.tsx:39-47 | Without a known non-guest role, a profile error is invisible and changes nothing. |
| RoleChoice.PendingRole | src/frontend/src/components/auth/RoleChoiceScreen.tsx:21-24 | A pending role is the stored value, present exactly when it is present and non-empty. |
| RoleChoice.PendingToken | src/frontend/src/components/auth/RoleChoiceScreen.tsx:22 | The stored token, or "" when there is none. |
| RoleChoice.ConfirmCall | src/frontend/src/components/auth/RoleChoiceScreen.tsx:35-43 | No call exactly when there is no role. The assistant role calls assistant selection. Any other role calls manager selection with the untrimmed token. |
| RoleChoice.ProceedingConfirmIsWellFormed | src/frontend/src/components/auth/RoleChoiceScreen.tsx:36-50 | If canProceed holds, confirm makes the assistant call, or the manager call with a token that is not blank. |
| RoleChoice.CanProceedIgnoresPadding | src/frontend/src/components/auth/RoleChoiceScreen.tsx:50 | canProceed looks only at the trimmed token. |
| RoleChoice.UnknownRoleCannotProceed | src/frontend/src/components/auth/RoleChoiceScreen.tsx:50 | A role other than the two known ones never proceeds. |
| RoleChoice.Screen.constructor | src/frontend/src/components/auth/RoleChoiceScreen.tsx:16-17 | The screen starts with no role and an empty token. |
| RoleChoice.Screen.RestorePending | src/frontend/src/components/auth/RoleChoiceScreen.tsx:20-33 | A pending role restores the selection. The token is restored only when that role is manager. Both keys are removed, and only when a pending role existed. |
| RoleChoice.Screen.ChooseAssistant | src/frontend/src/components/auth/RoleChoiceScreen.tsx:64-67 | Selects assistant and clears the token; canProceed then holds. |
| RoleChoice.Screen.ChooseManager | src/frontend/src/components/auth/RoleChoiceScreen.tsx:82 | Selects manager and keeps the token. canProceed then holds exactly when the token is not blank. |
| RoleChoice.Screen.EnterToken | src/frontend/src/components/auth/RoleChoiceScreen.tsx:106 | The token field takes the typed value; nothing else changes. |
| RoleChoice.Screen.Confirm | src/frontend/src/components/auth/RoleChoiceScreen.tsx:35-47 | With no role: nothing happens. With a role but no actor: "Actor not available" is reported. Otherwise exactly the confirm call is made. A rejection is reported: unmapped for the assistant role, normalised for any other role. |
| JsStrings.Utf16Length | src/frontend/src/components/profile/ProfileSettingsPanel.tsx:55-56 | `length` counts UTF-16 code units: between the number of characters and twice that, and 0 exactly for the empty string. |
| JsStrings.Utf16LengthBasicPlane | src/frontend/src/components/profile/ProfileSettingsPanel.tsx:55-56 | For text below U+10000, `length` is the number of characters. |
| ProfileSettings.AstralInitialPasses | src/frontend/src/components/profile/ProfileSettingsPanel.tsx:55-56 | One character above U+FFFF has length 2. So on its own it shows no initials error and, with a username, can be saved. |
| ProfileSettings.InitialsErrorBlocksSave | src/frontend/src/components/profile/ProfileSettingsPanel.tsx:55-56 | Lengths are in UTF-16 code units. The initials error implies that saving is blocked. Empty initials show no error but block saving. With a username that is not blank, canSave holds exactly when the initials are non-empty and show no error. |
| ProfileSettings.PaddedInitialsSaveShort | src/frontend/src/components/profile/ProfileSettingsPanel.tsx:56 | canSave counts the untrimmed initials, so " A" passes and is saved as one character. |
| ProfileSettings.SavedPhotoByMode | src/frontend/src/components/profile/ProfileSettingsPanel.tsx:73-90 | Dental mode never saves a photo. In photo mode, a new file replaces the photo; otherwise the current one is kept. |
| ProfileSettings.PhotoCallMatchesSavedPhoto | src/frontend/src/components/profile/ProfileSettingsPanel.tsx:73-90 | The photo changes exactly when an upload or remove call is made. An upload saves the uploaded blob; a removal saves no photo. |
| ProfileSettings.Panel.constructor | src/frontend/src/components/profile/ProfileSettingsPanel.tsx:38-42 | The panel starts empty, in dental mode, with avatar 0 and no file. |
| ProfileSettings.Panel.Load | src/frontend/src/components/profile/ProfileSettingsPanel.tsx:46-53 | A loaded profile's fields are copied in, initials defaulting to "". The mode becomes photo exactly when the profile has a photo. Without a profile, nothing changes. |
| ProfileSettings.Panel.EnterInitials | src/frontend/src/components/profile/ProfileSettingsPanel.tsx:143 | Typed initials are stored upper-cased. |
| ProfileSettings.Panel.Save | src/frontend/src/components/profile/ProfileSettingsPanel.tsx:69-106 | Nothing happens when canSave fails or there is no profile. Otherwise any upload or removal comes first, and its failure stops before the save. The saved profile has the trimmed username, the trimmed upper-cased initials, the selected avatar, the decided photo and the role unchanged. Only a successful save closes the panel. |
| ProfileSettings.Panel.RemovePhoto | src/frontend/src/components/profile/ProfileSettingsPanel.tsx:58-67 | There is one remove call. On success the file is dropped and dental mode selected. On failure the error is reported and both are kept. |
| ProfileOnboarding.InitialForm | src/frontend/src/components/profile/ProfileOnboardingModal.tsx:20-22 | The form starts with an empty username, empty initials and avatar 1. |
| ProfileOnboarding.RoleFor | src/frontend/src/components/profile/ProfileOnboardingModal.tsx:34 | Manager exactly when the caller's role is admin. Otherwise assistant. |
| ProfileOnboarding.HandleSave | src/frontend/src/components/profile/ProfileOnboardingModal.tsx:24-35 | Refused, with the "errors.required" text, exactly when the username or initials are blank. Otherwise the profile has the trimmed username, the selected avatar and the mapped role, with no initials and no photo. |
| ProfileOnboarding.InitialsNotSaved | src/frontend/src/components/profile/ProfileOnboardingModal.tsx:31-35 | The entered initials are not part of the saved profile. |
| ProfileOnboarding.EnabledButtonSends | src/frontend/src/components/profile/ProfileOnboardingModal.tsx:83 | The button is disabled under the same blank condition, so an enabled button always sends. |
| ProfileOnboarding.UntouchedFormRefused | src/frontend/src/components/profile/ProfileOnboardingModal.tsx:20-28 | The untouched form, or a whitespace username, is refused. |
| ProfileOnboarding.Save | src/frontend/src/components/profile/ProfileOnboardingModal.tsx:24-41 | A refusal is reported with no call. Otherwise there is one save call. Its success or its error is reported. |
| ProfilePhotoField.HandleFileSelect | src/frontend/src/components/profile/ProfilePhotoField.tsx:18-35 | No file: no effect. Not "image/…": "errors.invalidFileType" and no change. Larger than 5·1024·1024 bytes: "errors.fileTooLarge" and no change. Otherwise onPhotoChange receives the file exactly once. |
| ProfilePhotoField.HandleRemove | src/frontend/src/components/profile/ProfilePhotoField.tsx:37-42 | onPhotoChange receives null once, and the input is cleared. |
| ProfilePhotoField.SizeBoundary | src/frontend/src/components/profile/ProfilePhotoField.tsx:29-32 | Exactly 5 MiB is accepted. One byte more is refused. |
| ProfilePhotoField.TypeCheckedFirst | src/frontend/src/components/profile/ProfilePhotoField.tsx:23-32 | A large non-image reports the type error. |
| ProfilePhotoField.AtMostOneChange | src/frontend/src/components/profile/ProfilePhotoField.tsx:18-42 | At most one onPhotoChange per handler, never together with an alert. |
| AvatarManifest.EntriesUpTo | src/frontend/src/components/avatars/avatarManifest.ts:7-56 | The table pattern: entry i is avatar i + 1. |
| AvatarManifest.ManifestShape | src/frontend/src/components/avatars/avatarManifest.ts:7-56 | There are 48 entries, id i at index i − 1. isIslamic is set (true) exactly for ids 12, 24, 36 and 48, and is otherwise undefined. |
| AvatarManifest.IdsUnique | src/frontend/src/components/avatars/avatarManifest.ts:7-56 | The ids are unique. |
| AvatarManifest.PathPattern | src/frontend/src/components/avatars/avatarManifest.ts:8-55 | Each path is "/assets/generated/avatar-", then two digits whose value is the id, then ".dim_256x256.svg". |
| AvatarManifest.Find | src/frontend/src/components/avatars/avatarManifest.ts:59 | Returns none exactly when no entry has the id. Otherwise it returns the first table entry with the id: no earlier entry has it. |
| AvatarManifest.GetAvatarPath | src/frontend/src/components/avatars/avatarManifest.ts:58-61 | The entry's path for ids 1..48, and avatar 01's path for any other id. The result is always one of the table's paths. |
| JsStrings.CodeUnits | src/frontend/src/components/avatars/GeneratedDentalAvatar.tsx:20 | The UTF-16 code units of a character: itself below U+10000, otherwise its surrogate pair, which decodes back to it. |
| DentalAvatar.ColorIndex | src/frontend/src/components/avatars/GeneratedDentalAvatar.tsx:20 | The sum of the initials' code units mod 8, always in [0, 8). |
| DentalAvatar.EmptyInitialsFirstColor | src/frontend/src/components/avatars/GeneratedDentalAvatar.tsx:20 | Empty initials give index 0. |
| DentalAvatar.BasicPlaneSum | src/frontend/src/components/avatars/GeneratedDentalAvatar.tsx:20 | Below U+10000 the sum is the sum of the character codes. |
| DentalAvatar.CodeUnitSumAppend | src/frontend/src/components/avatars/GeneratedDentalAvatar.tsx:20 | The sum splits over concatenation. |
| DentalAvatar.CodeUnitSumPermutation | src/frontend/src/components/avatars/GeneratedDentalAvatar.tsx:20 | Strings that are permutations of each other have the same sum. |
| DentalAvatar.PermutedInitialsSameColor | src/frontend/src/components/avatars/GeneratedDentalAvatar.tsx:20-21 | Initials that are permutations of each other get the same colour. |
| DentalAvatar.ShownInitials | src/frontend/src/components/avatars/GeneratedDentalAvatar.tsx:52 | The first min(3, length) characters, upper-cased. |
| DentalAvatar.ShownInitialsCut | src/frontend/src/components/avatars/GeneratedDentalAvatar.tsx:52 | Longer initials show only their first three characters. Shorter ones are shown whole. |
| I18n.InitialLanguage | src/frontend/src/i18n/I18nProvider.tsx:15-18 | The stored language when it is present and non-empty. Otherwise "en". |
| I18n.WalkOfMissing | src/frontend/src/i18n/I18nProvider.tsx:32-35 | Once a segment is missing, nothing further is found. |
| I18n.WalkAppend | src/frontend/src/i18n/I18nProvider.tsx:32-35 | Following two key sequences in turn is following their concatenation. |
| I18n.StopsAtFirstMissing | src/frontend/src/i18n/I18nProvider.tsx:33-34 | A missing prefix means a missing path, so stopping at the first missing segment loses nothing. |
| I18n.TwoSegmentKey | src/frontend/src/i18n/I18nProvider.tsx:29-35 | "section.name" finds the text stored under name in group section. |
| I18n.Provider.constructor | src/frontend/src/i18n/I18nProvider.tsx:15-18 | The language starts as the stored language, or "en". |
| I18n.Provider.Persist | src/frontend/src/i18n/I18nProvider.tsx:20-22 | The current language is written back under "fitgebit-language". |
| I18n.Provider.SetLanguage | src/frontend/src/i18n/I18nProvider.tsx:24-26 | Sets the language, and the effect stores it. |
| I18n.Provider.T | src/frontend/src/i18n/I18nProvider.tsx:28-38 | The loop splits the key on "." and looks up the segments in turn from the current language's table, stopping at the first missing one. A missing path gives the key itself, and so does an empty text. Any other entry found is returned unchanged. |
| JsStrings.Trim | src/frontend/src/components/tasks/CreateTaskDialog.tsx:26 | `trim()` strips JavaScript whitespace at both ends. The result is empty exactly when the input is all whitespace. |
| JsStrings.TrimIdempotent | src/frontend/src/components/tasks/CreateTaskDialog.tsx:33 | Trimming twice is trimming once. |
| JsStrings.AsciiUpper | src/frontend/src/components/profile/ProfileSettingsPanel.tsx:94 | `toUpperCase` on ASCII: the same length, with a–z mapped to A–Z and everything else kept. |
| JsStrings.NatToString | src/frontend/src/utils/overtimeTime.ts:24 | Decimal text: non-empty, all digits, no leading zero, one digit exactly below 10. |
| JsStrings.NatToStringRoundTrip | src/frontend/src/utils/overtimeTime.ts:24 | The decimal text reads back as the number. |
| JsStrings.NatToStringInjective | src/frontend/src/utils/overtimeTime.ts:24 | Different numbers have different texts. |
| JsStrings.IntToString | src/frontend/src/components/overtime/OvertimeHistory.tsx:69 | Signed decimal text: "-" exactly for negatives, followed by the absolute value's text. |
| JsStrings.PadStart2 | src/frontend/src/components/overtime/OvertimeHistory.tsx:46-47 | `padStart(2, '0')`: shorter text is left-padded with zeros to length 2, and longer text is kept. |
| JsStrings.TwoDigitPadding | src/frontend/src/components/overtime/OvertimeHistory.tsx:46-47 | A number below 100 pads to two digits that read back as the number. |
| JsStrings.Split | src/frontend/src/i18n/I18nProvider.tsx:29 | `split('.')`: at least one piece, and no piece contains the separator. |
| JsStrings.SplitJoin | src/frontend/src/i18n/I18nProvider.tsx:29 | Joining the pieces with the separator gives back the key. |
| JsStrings.SplitWithoutSeparator | src/frontend/src/i18n/I18nProvider.tsx:29 | A key without "." is a single segment. |
| JsStrings.SplitAtFirst | src/frontend/src/i18n/I18nProvider.tsx:29 | The pieces are the part before the first separator, then the pieces of the rest. |

## Left out

- The canister's behaviour is not part of this model: reset cadence, staleness checks, id assignment and authorisation. It is a scripted `Remote`. The calls are recorded with their arguments; the replies are chosen by the scenario.
- React Query plumbing is left out: `invalidateQueries`, `cancelQueries`, `enabled` flags, refetching, `isPending` and `useGetTasks`. Only the task cache's snapshot, optimistic update and rollback are modelled.
- Rendering, styling, dialogs, charts and the UI-only components are left out. The model keeps only which texts, rows or screens are chosen.
- Blob and file I/O is left out: `arrayBuffer()`, `ExternalBlob.fromBytes`, upload progress and direct URLs. A new photo is the blob built from the selected `File`. The CSV writer and the download are I/O; the model returns the rows handed to them.
- `Date` and locale. "Today" is an input date, and local time is treated as one fixed zone. `toISOString` and `toLocaleDateString` texts are kept as milliseconds. So the invalid-date exception that `toISOString` would throw is not modelled. `Number(bigint)` is exact here, with no rounding to double precision.
- OvertimeHistory.Render: the date shown is kept as milliseconds. `DateText` gives the `dd/mm/yyyy` text from its day, month and year, but the conversion of an instant to calendar fields is not modelled.
- `parseInt` is left out: form fields are held already parsed, with `None` for NaN. The text-to-number parsing and the zero-padding of the date fields' initial text are not modelled.
- `toUpperCase` is ASCII-only here. So are the trimming rules for characters outside the whitespace set that is modelled.
- DentalAvatar.ShownInitials: `substring(0, 3)` counts UTF-16 code units, which this model treats per character. A cut inside a surrogate pair is not modelled. The colour hash does count code units (`CodeUnits`).
- The `maxLength={3}` attribute of the initials inputs is a browser constraint on typing and is not modelled.
- The translations file is not part of this model. Tables are a parameter of `I18n.Provider`.
- I18n.Provider.T: indexing a text leaf with a further segment (JavaScript would index the string's characters or properties) is modelled as a missing entry. A group found at the end of the path is returned as the entry.
- ProfileOnboarding.HandleSave: the translated "errors.required" text is a parameter (`requiredText`), because the translations are not part of this model.
- Session and local storage are map fields. Identity login/logout and timers are left out.
- `useOvertime.ts` is modelled as its two stubs. `ManagerOvertimePage.tsx` is a stub page with hard-coded empty entries and is not modelled. `useDentalAvatars.ts` is only a query wrapper and is not modelled.
- Concurrency between mutations, such as double clicks while a mutation is pending, is left out. Each handler runs to completion.
