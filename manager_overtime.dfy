/**
 * useManagerOvertime.ts: `prepareOvertimeExportData` maps each stored
 * overtime entry to one CSV row, in order.  A stored entry carries signed
 * minutes; the row splits them into a kind ("Add" for a positive value,
 * "Deduct" otherwise, zero included) and a non-negative amount.
 */
module ManagerOvertime {
  import opened Backend
  import opened JsMath
  import OvertimeHistory

  /** A stored overtime entry as the manager views read it (its type is not part of the back-end declarations). */
  datatype StoredEntry = StoredEntry(date: int, minutes: int, approved: bool, createdBy: Principal)

  /** One export row; `dateMillis` is the instant the locale-formatted Date column renders. */
  datatype ExportRow = ExportRow(dateMillis: int, kind: string, minutes: nat, approved: string, createdBy: string)

  function RowOf(e: StoredEntry): (r: ExportRow)
    ensures r.kind == "Add" <==> e.minutes > 0
    ensures r.kind == "Deduct" <==> e.minutes <= 0
    ensures r.minutes == Abs(e.minutes)
    ensures (if r.kind == "Add" then 1 else -1) * r.minutes == e.minutes
    ensures r.approved == (if e.approved then "Yes" else "No")
    ensures r.createdBy == e.createdBy
    ensures r.dateMillis == OvertimeHistory.Millis(e.date)
  {
    var minutes := e.minutes;
    var isAddition := minutes > 0;
    ExportRow(OvertimeHistory.Millis(e.date), if isAddition then "Add" else "Deduct", Abs(minutes),
              if e.approved then "Yes" else "No", e.createdBy)
  }

  /** `prepareOvertimeExportData`. */
  function PrepareOvertimeExportData(entries: seq<StoredEntry>): (rows: seq<ExportRow>)
    ensures |rows| == |entries|
    ensures forall i :: 0 <= i < |entries| ==> rows[i] == RowOf(entries[i])
  {
    seq(|entries|, i requires 0 <= i < |entries| => RowOf(entries[i]))
  }
}
