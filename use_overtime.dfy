/**
 * useOvertime.ts: overtime has been removed from the back end, so the list
 * query always yields no entries and the create mutation always rejects,
 * whatever it is given.
 */
module UseOvertime {
  import opened Backend
  import OvertimeTotals

  const RemovedMessage: string := "Overtime functionality has been removed"

  /** `useGetOvertimeEntries` queryFn. */
  function GetOvertimeEntries(): (r: seq<OvertimeTotals.OvertimeEntry>)
    ensures r == []
  {
    []
  }

  /** `useCreateOvertimeEntry` mutationFn: it ignores its argument and throws. */
  method CreateOvertimeEntry(signedMinutes: int) returns (r: Reply)
    ensures r == Rejected(Error(RemovedMessage))
  {
    r := Rejected(Error(RemovedMessage));
  }
}
