/**
 * ProfileOnboardingModal.tsx: the first-profile dialog.  `handleSave` turns
 * the form into a profile, or refuses a blank username or blank initials
 * with an `Error` carrying the translated "errors.required" text.  The
 * translation is a parameter here; the setters only mirror the inputs, so
 * the dialog is modelled on values.
 */
module ProfileOnboarding {
  import opened Wrappers
  import opened Backend
  import opened JsStrings
  import opened Notify

  /** The avatar the form starts with. */
  const InitialAvatar: int := 1

  datatype Form = Form(username: string, initials: string, selectedAvatar: int)

  function InitialForm(): (f: Form)
    ensures f.username == [] && f.initials == [] && f.selectedAvatar == InitialAvatar
  {
    Form([], [], InitialAvatar)
  }

  /** What `handleSave` does: report the error, or send the profile. */
  datatype Submission = Refuse(error: Thrown) | Send(call: Call)

  /** The guard shared by `handleSave` and the save button. */
  predicate Blank(f: Form) {
    IsBlank(f.username) || IsBlank(f.initials)
  }

  /** `userRole === 'admin' ? manager : assistant`, with `None` for a role query that has not settled. */
  function RoleFor(userRole: Option<UserRole>): (r: ProfileRole)
    ensures r == Manager <==> userRole == Some(Admin)
    ensures r == Assistant <==> userRole != Some(Admin)
  {
    if userRole == Some(Admin) then Manager else Assistant
  }

  /** `handleSave`, up to the awaited save. */
  function HandleSave(f: Form, userRole: Option<UserRole>, requiredText: string): (s: Submission)
    ensures s.Refuse? <==> Blank(f)
    ensures s.Refuse? ==> s.error == Error(requiredText)
    ensures s.Send? ==>
      && s.call.SaveProfileCall?
      && s.call.profile.username == Trim(f.username) && s.call.profile.username != []
      && s.call.profile.avatar == f.selectedAvatar
      && s.call.profile.initials.None? && s.call.profile.profilePhoto.None?
      && (s.call.profile.role == Manager <==> userRole == Some(Admin))
  {
    if Blank(f) then Refuse(Error(requiredText))
    else Send(SaveProfileCall(UserProfile(Trim(f.username), None, f.selectedAvatar, None, RoleFor(userRole))))
  }

  /** The initials only gate the save: any two non-blank initials give the same profile. */
  lemma InitialsNotSaved(f: Form, other: string, userRole: Option<UserRole>, requiredText: string)
    requires !Blank(f) && !IsBlank(other)
    ensures HandleSave(f, userRole, requiredText) == HandleSave(f.(initials := other), userRole, requiredText)
  {
  }

  /** The save button's `disabled`. */
  predicate SaveDisabled(isPending: bool, f: Form) {
    isPending || Blank(f)
  }

  /** An enabled button always sends a profile; the refusal path is reachable only by other means. */
  lemma EnabledButtonSends(f: Form, userRole: Option<UserRole>, requiredText: string)
    requires !SaveDisabled(false, f)
    ensures HandleSave(f, userRole, requiredText).Send?
  {
  }

  /** An untouched form is refused, as is any form whose username is all whitespace. */
  lemma UntouchedFormRefused(userRole: Option<UserRole>, requiredText: string, spaces: string)
    requires forall k :: 0 <= k < |spaces| ==> IsJsWhitespace(spaces[k])
    ensures HandleSave(InitialForm(), userRole, requiredText) == Refuse(Error(requiredText))
    ensures HandleSave(InitialForm().(username := spaces, initials := "AB"), userRole, requiredText).Refuse?
  {
  }

  /** The whole `handleSave`: a refusal goes to `handleError` without a call; otherwise one save call, then a toast. */
  method Save(f: Form, userRole: Option<UserRole>, requiredText: string, remote: Remote) returns (report: Report)
    modifies remote
    ensures Blank(f) ==>
      report == ErrorValue(Error(requiredText)) && remote.calls == old(remote.calls) && remote.replies == old(remote.replies)
    ensures !Blank(f) ==>
      var reply := NextReply(old(remote.replies));
      && remote.calls == old(remote.calls) + [HandleSave(f, userRole, requiredText).call]
      && remote.replies == RestOf(old(remote.replies))
      && (reply.Resolved? ==> report == SuccessKey("common.success"))
      && (reply.Rejected? ==> report == ErrorValue(reply.error))
  {
    var s := HandleSave(f, userRole, requiredText);
    if s.Refuse? {
      return ErrorValue(s.error);
    }
    var r := remote.Invoke(s.call);
    report := if r.Rejected? then ErrorValue(r.error) else SuccessKey("common.success");
  }
}
