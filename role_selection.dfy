/**
 * useRoleSelection.ts: the two role mutations.  Both throw "Actor not
 * available" before calling anything when there is no actor; choosing the
 * manager role replaces a back-end "Invalid token" error by a fixed
 * explanatory message and rethrows every other error unchanged, while
 * choosing the assistant role maps no error at all.
 */
module RoleSelection {
  import opened Backend
  import opened JsStrings
  import opened Notify

  /** Everything of the replacement message after its first character. */
  const ManagerTokenMessageTail: string :=
    "nvalid man" + "ager token" + ". Please c" + "heck and t" + "ry again."

  /** "Invalid manager token. Please check and try again." */
  const ManagerTokenMessage: string := "I" + ManagerTokenMessageTail

  /** The catch block of `useSelectRoleManager`: only an `Error` whose non-empty message includes "Invalid token" is replaced. */
  function NormalizeManagerError(e: Thrown): (r: Thrown)
    ensures e.Error? && Contains(e.message, "Invalid token") ==> r == Error(ManagerTokenMessage)
    ensures !(e.Error? && Contains(e.message, "Invalid token")) ==> r == e
  {
    match e
    case Error(message) =>
      if message != [] && Contains(message, "Invalid token") then Error(ManagerTokenMessage) else e
    case NonError(_) => e
  }

  /** `useSelectRoleAssistant` mutationFn: the reply is passed on as it is. */
  method SelectRoleAssistant(actor: Remote?) returns (r: Reply)
    modifies actor
    ensures actor == null ==> r == Rejected(ActorMissing)
    ensures actor != null ==>
      && actor.calls == old(actor.calls) + [SelectRoleAssistantCall]
      && r == NextReply(old(actor.replies)) && actor.replies == RestOf(old(actor.replies))
      && actor.exportData == old(actor.exportData)
  {
    if actor == null {
      return Rejected(ActorMissing);
    }
    r := actor.Invoke(SelectRoleAssistantCall);
  }

  /** `useSelectRoleManager` mutationFn: one call with the token; a rejection goes through `NormalizeManagerError`. */
  method SelectRoleManager(actor: Remote?, token: string) returns (r: Reply)
    modifies actor
    ensures actor == null ==> r == Rejected(ActorMissing)
    ensures actor != null ==>
      var reply := NextReply(old(actor.replies));
      && actor.calls == old(actor.calls) + [SelectRoleManagerCall(token)]
      && actor.replies == RestOf(old(actor.replies))
      && actor.exportData == old(actor.exportData)
      && r.Resolved? == reply.Resolved?
      && (reply.Rejected? ==> r == Rejected(NormalizeManagerError(reply.error)))
  {
    if actor == null {
      return Rejected(ActorMissing);
    }
    var reply := actor.Invoke(SelectRoleManagerCall(token));
    if reply.Rejected? {
      return Rejected(NormalizeManagerError(reply.error));
    }
    r := Resolved;
  }

  /** Normalising twice is normalising once. */
  lemma NormalizeIdempotent(e: Thrown)
    ensures NormalizeManagerError(NormalizeManagerError(e)) == NormalizeManagerError(e)
  {
    if e.Error? && Contains(e.message, "Invalid token") {
      ReplacementLacksMarkers();
    }
  }

  /** The replacement text contains none of the markers `handleError` tests for. */
  lemma ReplacementLacksMarkers()
    ensures !Contains(ManagerTokenMessage, "Unauthorized")
    ensures !Contains(ManagerTokenMessage, "not found")
    ensures !Contains(ManagerTokenMessage, "Invalid token")
    ensures !Contains(ManagerTokenMessage, "Invalid overtime entry")
    ensures !Contains(ManagerTokenMessage, "obsolete")
  {
    LacksUnauthorized();
    LacksNotFound();
    LacksObsolete();
    LacksInvalidToken();
    LacksInvalidOvertime();
  }

  lemma LacksUnauthorized() ensures !Contains(ManagerTokenMessage, "Unauthorized") {
    LacksMarker(ManagerTokenMessage, "Unauthorized", 0);
  }

  lemma LacksNotFound() ensures !Contains(ManagerTokenMessage, "not found") {
    LacksMarker(ManagerTokenMessage, "not found", 4);
  }

  lemma LacksObsolete() ensures !Contains(ManagerTokenMessage, "obsolete") {
    LacksMarker(ManagerTokenMessage, "obsolete", 1);
  }

  lemma LacksInvalidToken() ensures !Contains(ManagerTokenMessage, "Invalid token") {
    LacksInvalidMarker(ManagerTokenMessage, "Invalid token");
  }

  lemma LacksInvalidOvertime() ensures !Contains(ManagerTokenMessage, "Invalid overtime entry") {
    LacksInvalidMarker(ManagerTokenMessage, "Invalid overtime entry");
  }

  lemma LacksMarker(s: string, marker: string, k: nat)
    requires s == ManagerTokenMessage && k < |marker| && marker[k] !in ManagerTokenMessageTail && marker[k] != 'I'
    ensures !Contains(s, marker)
  {
    ContainsNeedsChar(s, marker, k);
    assert s == [s[0]] + ManagerTokenMessageTail;
  }

  lemma LacksInvalidMarker(s: string, marker: string)
    requires s == ManagerTokenMessage && 8 < |marker| && marker[0] == 'I' && marker[8] != 'm'
    ensures !Contains(s, marker)
  {
    assert s[1..] == ManagerTokenMessageTail;
    assert 'I' !in ManagerTokenMessageTail;
    assert s[8] == 'm';
    NotContainedAfterStart(s, marker);
  }

  /**
   * A rejected manager selection reaches `handleError` as the replacement,
   * which is shown verbatim rather than as the "auth.tokenRequired" translation.
   */
  lemma InvalidTokenShownVerbatim(e: Thrown)
    requires e.Error? && Contains(e.message, "Invalid token")
    ensures HandleError(NormalizeManagerError(e)) == RawToast(ManagerTokenMessage)
    ensures HandleError(e) == KeyToast("auth.tokenRequired") || HandleError(e) == KeyToast("errors.unauthorized")
      || HandleError(e) == KeyToast("errors.notFound")
  {
    ReplacementLacksMarkers();
  }
}
