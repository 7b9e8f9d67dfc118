/**
 * useNotify.ts: `handleError` turns any thrown value into exactly one error
 * toast, choosing a translated message by case-sensitive substring tests in a
 * fixed precedence, and otherwise showing the raw message.  `Report` records
 * what a component asked the notifier to show.
 */
module Notify {
  import opened Backend
  import opened JsStrings

  /** An error toast: the translation of a key, or a message shown as it is. */
  datatype Toast = KeyToast(key: string) | RawToast(message: string)

  /** What a component handler reports: nothing, `handleError(new Error(t(key)))`, `handleError(error)` or `success(t(key))`. */
  datatype Report = NoReport | ErrorKey(key: string) | ErrorValue(error: Thrown) | SuccessKey(key: string)

  /** The if/else-if chain of `handleError` on the message text. */
  function Classify(message: string): Toast {
    if Contains(message, "Unauthorized") then KeyToast("errors.unauthorized")
    else if Contains(message, "not found") then KeyToast("errors.notFound")
    else if Contains(message, "Invalid token") then KeyToast("auth.tokenRequired")
    else if Contains(message, "Invalid overtime entry") then KeyToast("errors.invalidMinutes")
    else if Contains(message, "obsolete") && Contains(message, "weekly") then KeyToast("errors.weeklyTaskObsolete")
    else RawToast(message)
  }

  /** `handleError(err)`: the one toast shown for a thrown value. */
  function HandleError(err: Thrown): (t: Toast)
    ensures t.RawToast? ==> t.message == MessageOf(err)
    ensures err.Error? ==> t == Classify(err.message)
    ensures err.NonError? ==> t == Classify(err.text)
  {
    Classify(MessageOf(err))
  }

  /** A rule: all of these substrings present selects this translation key. */
  datatype Rule = Rule(markers: seq<string>, key: string)

  /** The rules in precedence order, as a table. */
  const Rules: seq<Rule> := [
    Rule(["Unauthorized"], "errors.unauthorized"),
    Rule(["not found"], "errors.notFound"),
    Rule(["Invalid token"], "auth.tokenRequired"),
    Rule(["Invalid overtime entry"], "errors.invalidMinutes"),
    Rule(["obsolete", "weekly"], "errors.weeklyTaskObsolete")
  ]

  predicate Matches(rule: Rule, message: string) {
    ContainsAll(message, rule.markers)
  }

  predicate ContainsAll(message: string, markers: seq<string>) {
    markers == [] || (Contains(message, markers[0]) && ContainsAll(message, markers[1..]))
  }

  /** Reference reading of the chain: the key of the first matching rule, else the raw message. */
  function FirstMatch(rules: seq<Rule>, message: string): (t: Toast)
    ensures t.RawToast? <==> forall i :: 0 <= i < |rules| ==> !Matches(rules[i], message)
    ensures t.RawToast? ==> t.message == message
    ensures t.KeyToast? ==> exists i :: (0 <= i < |rules| && Matches(rules[i], message) && t.key == rules[i].key &&
      forall j :: 0 <= j < i ==> !Matches(rules[j], message))
  {
    if rules == [] then RawToast(message)
    else if Matches(rules[0], message) then KeyToast(rules[0].key)
    else
      var t := FirstMatch(rules[1..], message);
      if t.KeyToast? then
        var i :| 0 <= i < |rules[1..]| && Matches(rules[1..][i], message) && t.key == rules[1..][i].key
          && forall j :: 0 <= j < i ==> !Matches(rules[1..][j], message);
        assert forall j :: 0 <= j < i + 1 ==> !Matches(rules[j], message) by {
          forall j | 0 <= j < i + 1 ensures !Matches(rules[j], message) {
            if j > 0 { assert rules[j] == rules[1..][j - 1]; }
          }
        }
        t
      else
        assert forall i :: 0 <= i < |rules| ==> !Matches(rules[i], message) by {
          forall i | 0 <= i < |rules| ensures !Matches(rules[i], message) {
            if i > 0 { assert rules[i] == rules[1..][i - 1]; }
          }
        }
        t
  }

  /** The chain is exactly first-match over the rule table: precedence is table order. */
  lemma ClassifyIsFirstMatch(message: string)
    ensures Classify(message) == FirstMatch(Rules, message)
  {
    var r := Rules;
    ContainsOne(message, "Unauthorized");
    ContainsOne(message, "not found");
    ContainsOne(message, "Invalid token");
    ContainsOne(message, "Invalid overtime entry");
    ContainsTwo(message, "obsolete", "weekly");
    assert r[1..][0] == r[1];
    assert r[1..][1..][0] == r[2];
    assert r[1..][1..][1..][0] == r[3];
    assert r[1..][1..][1..][1..][0] == r[4];
    assert r[1..][1..][1..][1..][1..] == [];
  }

  lemma ContainsOne(message: string, a: string)
    ensures ContainsAll(message, [a]) <==> Contains(message, a)
  {
    assert [a][1..] == [];
  }

  lemma ContainsTwo(message: string, a: string, b: string)
    ensures ContainsAll(message, [a, b]) <==> Contains(message, a) && Contains(message, b)
  {
    assert [a, b][1..] == [b];
    ContainsOne(message, b);
  }

  /** "obsolete" without "weekly" falls through to the raw message when no earlier marker is present. */
  lemma ObsoleteAloneIsRaw(message: string)
    requires !Contains(message, "Unauthorized") && !Contains(message, "not found")
    requires !Contains(message, "Invalid token") && !Contains(message, "Invalid overtime entry")
    requires !Contains(message, "weekly")
    ensures Classify(message) == RawToast(message)
  {
  }

}
