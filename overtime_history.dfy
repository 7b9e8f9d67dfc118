/**
 * OvertimeHistory.tsx: the entries shown newest first (a stable sort of a
 * copy by descending timestamp), each with a "+"/"-" label by its kind and
 * its date with day and month padded to two digits; an empty list shows the
 * "overtime.noEntries" message instead.
 */
module OvertimeHistory {
  import opened Wrappers
  import opened JsMath
  import opened JsStrings
  import opened OvertimeTotals
  import StableSort

  /** The comparator `Number(b.timestamp) - Number(a.timestamp)` orders by this key. */
  function NewestFirstKey(e: OvertimeEntry): int {
    -e.timestamp
  }

  /** `[...entries].sort(...)`: a reordering of the entries, newest first. */
  function SortedEntries(entries: seq<OvertimeEntry>): (r: seq<OvertimeEntry>)
    ensures multiset(r) == multiset(entries)
    ensures forall i, j :: 0 <= i < j < |r| ==> r[i].timestamp >= r[j].timestamp
  {
    StableSort.SortPermutes(entries, NewestFirstKey);
    StableSort.SortSorted(entries, NewestFirstKey);
    StableSort.Sort(entries, NewestFirstKey)
  }

  /** The entries with timestamp `ts`, in list order. */
  function At(entries: seq<OvertimeEntry>, ts: int): (r: seq<OvertimeEntry>)
    ensures forall k :: 0 <= k < |r| ==> r[k] in entries && r[k].timestamp == ts
  {
    if entries == [] then []
    else (if entries[0].timestamp == ts then [entries[0]] else []) + At(entries[1..], ts)
  }

  lemma {:induction false} AtIsWithKey(entries: seq<OvertimeEntry>, ts: int)
    ensures At(entries, ts) == StableSort.WithKey(entries, NewestFirstKey, -ts)
  {
    if entries != [] {
      AtIsWithKey(entries[1..], ts);
    }
  }

  /** Entries with equal timestamps keep their input order. */
  lemma SortedEntriesStable(entries: seq<OvertimeEntry>, ts: int)
    ensures At(SortedEntries(entries), ts) == At(entries, ts)
  {
    AtIsWithKey(entries, ts);
    AtIsWithKey(SortedEntries(entries), ts);
    StableSort.SortStable(entries, NewestFirstKey, -ts);
  }

  /** A list already newest first is shown as it is. */
  lemma SortedEntriesOfOrdered(entries: seq<OvertimeEntry>)
    requires forall i, j :: 0 <= i < j < |entries| ==> entries[i].timestamp >= entries[j].timestamp
    ensures SortedEntries(entries) == entries
  {
    StableSort.SortOfSorted(entries, NewestFirstKey);
  }

  /** `{isAddition ? '+' : '-'}{minutes}`. */
  function SignLabel(e: OvertimeEntry): (r: string)
    ensures |r| >= 2
    ensures r[0] == '+' <==> e.isAddition
    ensures r[0] == '-' <==> !e.isAddition
    ensures r[1..] == IntToString(e.minutes)
  {
    (if e.isAddition then "+" else "-") + IntToString(e.minutes)
  }

  /** `new Date(Number(timestamp) / 1000000)`: nanoseconds to whole milliseconds, truncated toward zero. */
  function Millis(timestamp: int): (ms: int)
    ensures timestamp >= 0 ==> ms * 1000000 <= timestamp < (ms + 1) * 1000000
    ensures timestamp >= 0 ==> ms == timestamp / 1000000
  {
    if timestamp >= 0 then RemOfNonNegative(timestamp, 1000000); TruncDiv(timestamp, 1000000)
    else TruncDiv(timestamp, 1000000)
  }

  /** `dd/mm/yyyy` from the date's day, month and year. */
  function DateText(day: nat, month: nat, year: int): (r: string)
    requires 1 <= day <= 31 && 1 <= month <= 12
    ensures |r| > 6 && r[2] == '/' && r[5] == '/'
    ensures IsDigit(r[0]) && IsDigit(r[1]) && IsDigit(r[3]) && IsDigit(r[4])
    ensures DigitsValue(r[..2]) == day && DigitsValue(r[3..5]) == month
    ensures r[6..] == IntToString(year)
  {
    TwoDigitPadding(day);
    TwoDigitPadding(month);
    var r := PadStart2(NatToString(day)) + "/" + PadStart2(NatToString(month)) + "/" + IntToString(year);
    assert r[..2] == PadStart2(NatToString(day));
    assert r[3..5] == PadStart2(NatToString(month));
    r
  }

  /** One rendered entry: its sign label, its time in milliseconds and its comment if one is shown. */
  datatype Row = Row(signLabel: string, millis: int, comment: Option<string>)

  datatype View = NoEntries(messageKey: string) | Rows(rows: seq<Row>)

  /** One entry's row; the comment is shown only when it is truthy (present and not empty). */
  function RowOf(e: OvertimeEntry): (r: Row)
    ensures r.signLabel == SignLabel(e) && r.millis == Millis(e.timestamp)
    ensures r.comment.Some? <==> e.comment.Some? && e.comment.value != []
    ensures r.comment.Some? ==> r.comment == e.comment
  {
    Row(SignLabel(e), Millis(e.timestamp), if e.comment.Some? && e.comment.value != [] then e.comment else None)
  }

  /** The card: the empty message for no entries, else one row per entry, newest first. */
  function Render(entries: seq<OvertimeEntry>): (v: View)
    ensures v.NoEntries? <==> entries == []
    ensures v.NoEntries? ==> v.messageKey == "overtime.noEntries"
    ensures v.Rows? ==> |v.rows| == |entries|
    ensures v.Rows? ==> forall i :: 0 <= i < |entries| ==> v.rows[i] == RowOf(SortedEntries(entries)[i])
  {
    var sorted := SortedEntries(entries);
    if sorted == [] then NoEntries("overtime.noEntries")
    else Rows(seq(|sorted|, i requires 0 <= i < |sorted| => RowOf(sorted[i])))
  }
}
