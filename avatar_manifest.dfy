/**
 * avatarManifest.ts: the table of the 48 generated dental avatars, and the
 * path lookup with its fallback to the first avatar.  Every entry of the
 * table follows one pattern (id n, the file named after n in two digits,
 * the "Islamic" flag on ids 12, 24, 36 and 48), so the table is written here
 * as that pattern; an entry without the flag has it undefined.
 */
module AvatarManifest {
  import opened Wrappers
  import opened JsStrings

  datatype AvatarInfo = AvatarInfo(id: int, path: string, isIslamic: Option<bool>)

  const AvatarCount := 48
  const PathPrefix: string := "/assets/generated/avatar-"
  const PathSuffix: string := ".dim_256x256.svg"

  /** The file of avatar `n`. */
  function PathOf(n: nat): string {
    PathPrefix + PadStart2(NatToString(n)) + PathSuffix
  }

  function EntryOf(n: nat): AvatarInfo {
    AvatarInfo(n, PathOf(n), if n in {12, 24, 36, 48} then Some(true) else None)
  }

  /** The entries of avatars 1 to `n`, in order. */
  function EntriesUpTo(n: nat): (r: seq<AvatarInfo>)
    ensures |r| == n
    ensures forall i :: 0 <= i < n ==> r[i] == EntryOf(i + 1)
  {
    if n == 0 then [] else EntriesUpTo(n - 1) + [EntryOf(n)]
  }

  /** `avatarManifest`. */
  const Manifest: seq<AvatarInfo> := EntriesUpTo(AvatarCount)

  /** The table's shape: 48 entries, id i at index i − 1, the flag on every twelfth avatar only. */
  lemma ManifestShape()
    ensures |Manifest| == 48
    ensures forall i :: 0 <= i < |Manifest| ==> Manifest[i].id == i + 1
    ensures forall i :: 0 <= i < |Manifest| ==> (Manifest[i].isIslamic == Some(true) <==> Manifest[i].id % 12 == 0)
    ensures forall i :: 0 <= i < |Manifest| ==> Manifest[i].isIslamic.None? || Manifest[i].isIslamic == Some(true)
  {
    forall i | 0 <= i < |Manifest|
      ensures Manifest[i].isIslamic == Some(true) <==> Manifest[i].id % 12 == 0
    {
      assert Manifest[i] == EntryOf(i + 1);
      EntryFlag(i + 1);
    }
  }

  /** Within the table's range, the flagged ids are exactly the multiples of twelve. */
  lemma EntryFlag(n: nat)
    requires 1 <= n <= AvatarCount
    ensures EntryOf(n).isIslamic == Some(true) <==> n % 12 == 0
  {
    assert n % 12 == 0 <==> n == 12 || n == 24 || n == 36 || n == 48;
  }

  /** No two entries share an id. */
  lemma IdsUnique()
    ensures forall i, j :: 0 <= i < j < |Manifest| ==> Manifest[i].id != Manifest[j].id
  {
    ManifestShape();
  }

  /** Every path is the prefix, the id in two digits (zero-padded), and the suffix. */
  lemma PathPattern(i: nat)
    requires i < |Manifest|
    ensures var p := Manifest[i].path;
      && |p| == |PathPrefix| + 2 + |PathSuffix|
      && p[..|PathPrefix|] == PathPrefix && p[|PathPrefix| + 2..] == PathSuffix
      && IsDigit(p[|PathPrefix|]) && IsDigit(p[|PathPrefix| + 1])
      && DigitValue(p[|PathPrefix|]) * 10 + DigitValue(p[|PathPrefix| + 1]) == i + 1
  {
    var n := i + 1;
    assert Manifest[i] == EntryOf(n);
    TwoDigitPadding(n);
    var d := PadStart2(NatToString(n));
    var p := PathPrefix + d + PathSuffix;
    assert p[|PathPrefix|] == d[0] && p[|PathPrefix| + 1] == d[1];
  }

  /** No entry before position `k` has the id. */
  predicate NoneBefore(table: seq<AvatarInfo>, id: int, k: nat)
    requires k <= |table|
  {
    forall j :: 0 <= j < k ==> table[j].id != id
  }

  /** `avatarManifest.find(a => a.id === id)`: the first entry with the id. */
  function Find(table: seq<AvatarInfo>, id: int): (r: Option<AvatarInfo>)
    ensures r.None? <==> forall k :: 0 <= k < |table| ==> table[k].id != id
    ensures r.Some? ==> r.value in table && r.value.id == id
    ensures r.Some? ==> exists k :: 0 <= k < |table| && table[k] == r.value && NoneBefore(table, id, k)
  {
    if table == [] then None
    else if table[0].id == id then
      assert NoneBefore(table, id, 0);
      Some(table[0])
    else
      var r := Find(table[1..], id);
      if r.Some? then
        var k :| 0 <= k < |table[1..]| && table[1..][k] == r.value && NoneBefore(table[1..], id, k);
        assert table[k + 1] == r.value;
        assert NoneBefore(table, id, k + 1) by {
          forall j | 0 <= j < k + 1 ensures table[j].id != id {
            if j > 0 { assert table[j] == table[1..][j - 1]; }
          }
        }
        r
      else r
  }

  /** `getAvatarPath`: the path of the entry with that id, or avatar 01's path when there is none. */
  function GetAvatarPath(id: int): (r: string)
    ensures 1 <= id <= AvatarCount ==> r == Manifest[id - 1].path
    ensures !(1 <= id <= AvatarCount) ==> r == Manifest[0].path
    ensures exists k :: 0 <= k < |Manifest| && Manifest[k].path == r
  {
    ManifestShape();
    var found := Find(Manifest, id);
    if found.Some? && found.value.path != [] then found.value.path else Manifest[0].path
  }
}
