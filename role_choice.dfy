/**
 * RoleChoiceScreen.tsx: the role chooser shown to a caller whose role is
 * still guest.  Its state is the selected role and the manager token; on
 * mount it restores a role chosen before login from session storage, and
 * its confirm handler calls one of the two role mutations.
 *
 * The stored role is only type-asserted to 'assistant' | 'manager', so a
 * role is kept here as the string that was stored.
 */
module RoleChoice {
  import opened Wrappers
  import opened Backend
  import opened JsStrings
  import opened Notify
  import RoleSelection

  const AssistantRole: string := "assistant"
  const ManagerRole: string := "manager"

  const PendingRoleKey: string := "pendingRole"
  const PendingTokenKey: string := "pendingToken"

  /** `sessionStorage.getItem('pendingRole')`, when it is truthy (present and not empty). */
  function PendingRole(storage: map<string, string>): (r: Option<string>)
    ensures r.Some? <==> PendingRoleKey in storage && storage[PendingRoleKey] != []
    ensures r.Some? ==> r.value == storage[PendingRoleKey] && r.value != []
  {
    if PendingRoleKey in storage && storage[PendingRoleKey] != [] then Some(storage[PendingRoleKey]) else None
  }

  /** `sessionStorage.getItem('pendingToken') || ''`. */
  function PendingToken(storage: map<string, string>): (t: string)
    ensures PendingTokenKey in storage ==> t == storage[PendingTokenKey]
    ensures PendingTokenKey !in storage ==> t == []
  {
    if PendingTokenKey in storage then storage[PendingTokenKey] else []
  }

  /** `canProceed`. */
  predicate CanProceed(selectedRole: Option<string>, managerToken: string) {
    selectedRole == Some(AssistantRole) || (selectedRole == Some(ManagerRole) && Trim(managerToken) != [])
  }

  /** The call `handleConfirm` makes, or `None` when no role is selected. */
  function ConfirmCall(selectedRole: Option<string>, managerToken: string): (c: Option<Call>)
    ensures c.None? <==> selectedRole.None?
    ensures selectedRole == Some(AssistantRole) ==> c == Some(SelectRoleAssistantCall)
    ensures selectedRole.Some? && selectedRole != Some(AssistantRole) ==> c == Some(SelectRoleManagerCall(managerToken))
  {
    match selectedRole
    case None => None
    case Some(role) => if role == AssistantRole then Some(SelectRoleAssistantCall) else Some(SelectRoleManagerCall(managerToken))
  }

  /** Whenever the confirm button can proceed, the call is for the assistant role or carries a token that is not blank. */
  lemma ProceedingConfirmIsWellFormed(selectedRole: Option<string>, managerToken: string)
    requires CanProceed(selectedRole, managerToken)
    ensures ConfirmCall(selectedRole, managerToken).Some?
    ensures var c := ConfirmCall(selectedRole, managerToken).value;
      c == SelectRoleAssistantCall || (c == SelectRoleManagerCall(managerToken) && !IsBlank(c.token))
  {
  }

  /** Whitespace around the token does not change whether the screen can proceed. */
  lemma CanProceedIgnoresPadding(selectedRole: Option<string>, managerToken: string)
    ensures CanProceed(selectedRole, Trim(managerToken)) == CanProceed(selectedRole, managerToken)
  {
    TrimIdempotent(managerToken);
  }

  /** A restored role other than the two known ones can never proceed, whatever the token. */
  lemma UnknownRoleCannotProceed(role: string, managerToken: string)
    requires role != AssistantRole && role != ManagerRole
    ensures !CanProceed(Some(role), managerToken)
  {
  }

  class Screen {
    var selectedRole: Option<string>
    var managerToken: string
    /** `sessionStorage`. */
    var storage: map<string, string>

    constructor (storage: map<string, string>)
      ensures selectedRole.None? && managerToken == [] && this.storage == storage
    {
      selectedRole := None;
      managerToken := [];
      this.storage := storage;
    }

    /** The mount effect: a pending role restores the selection, and the manager token with it; both keys are then removed. */
    method RestorePending()
      modifies this
      ensures PendingRole(old(storage)).Some? ==>
        && selectedRole == PendingRole(old(storage))
        && managerToken == (if selectedRole == Some(ManagerRole) then PendingToken(old(storage)) else old(managerToken))
        && storage == old(storage) - {PendingRoleKey, PendingTokenKey}
      ensures PendingRole(old(storage)).None? ==>
        selectedRole == old(selectedRole) && managerToken == old(managerToken) && storage == old(storage)
    {
      var pendingRole := PendingRole(storage);
      var pendingToken := PendingToken(storage);
      if pendingRole.Some? {
        selectedRole := pendingRole;
        if pendingRole.value == ManagerRole {
          managerToken := pendingToken;
        }
        storage := storage - {PendingRoleKey};
        storage := storage - {PendingTokenKey};
      }
    }

    /** The assistant button: selects the role and clears the token. */
    method ChooseAssistant()
      modifies this
      ensures selectedRole == Some(AssistantRole) && managerToken == [] && storage == old(storage)
      ensures CanProceed(selectedRole, managerToken)
    {
      selectedRole := Some(AssistantRole);
      managerToken := [];
    }

    /** The manager button: selects the role and keeps whatever token was typed. */
    method ChooseManager()
      modifies this
      ensures selectedRole == Some(ManagerRole) && managerToken == old(managerToken) && storage == old(storage)
      ensures CanProceed(selectedRole, managerToken) <==> !IsBlank(managerToken)
    {
      selectedRole := Some(ManagerRole);
    }

    /** The token input. */
    method EnterToken(token: string)
      modifies this
      ensures managerToken == token && selectedRole == old(selectedRole) && storage == old(storage)
    {
      managerToken := token;
    }

    /** `handleConfirm`: nothing without a role; otherwise one role mutation, whose failure goes to `handleError`. */
    method Confirm(actor: Remote?) returns (report: Report)
      modifies actor
      ensures selectedRole.None? ==>
        report == NoReport && (actor != null ==> actor.calls == old(actor.calls) && actor.replies == old(actor.replies))
      ensures selectedRole.Some? && actor == null ==> report == ErrorValue(ActorMissing)
      ensures selectedRole.Some? && actor != null ==>
        var reply := NextReply(old(actor.replies));
        && actor.calls == old(actor.calls) + [ConfirmCall(selectedRole, managerToken).value]
        && actor.replies == RestOf(old(actor.replies))
        && (reply.Resolved? ==> report == NoReport)
        && (reply.Rejected? && selectedRole == Some(AssistantRole) ==> report == ErrorValue(reply.error))
        && (reply.Rejected? && selectedRole != Some(AssistantRole) ==>
              report == ErrorValue(RoleSelection.NormalizeManagerError(reply.error)))
    {
      if selectedRole.None? {
        return NoReport;
      }
      var r;
      if selectedRole.value == AssistantRole {
        r := RoleSelection.SelectRoleAssistant(actor);
      } else {
        r := RoleSelection.SelectRoleManager(actor, managerToken);
      }
      report := if r.Rejected? then ErrorValue(r.error) else NoReport;
    }
  }
}
