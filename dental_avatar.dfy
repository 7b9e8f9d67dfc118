/**
 * GeneratedDentalAvatar.tsx: the initials avatar.  Its colour is picked
 * from eight pastel pairs by the sum of the initials' UTF-16 code units
 * (what `split('')` and `charCodeAt(0)` see) modulo eight, and it shows
 * the first three characters upper-cased.
 */
module DentalAvatar {
  import opened JsStrings

  datatype Colors = Colors(bg: string, text: string)

  /** `PASTEL_COLORS`. */
  const PastelColors: seq<Colors> := [
    Colors("#FFE5E5", "#FF6B6B"),
    Colors("#E5F3FF", "#4A90E2"),
    Colors("#E5FFE5", "#66BB6A"),
    Colors("#FFF3E5", "#FFA726"),
    Colors("#F3E5FF", "#AB47BC"),
    Colors("#E5FFFF", "#26C6DA"),
    Colors("#FFFFE5", "#D4AF37"),
    Colors("#FFE5F3", "#EC407A")
  ]

  function UnitSum(units: seq<nat>): nat {
    if units == [] then 0 else units[0] + UnitSum(units[1..])
  }

  /** What one character adds to the sum. */
  function Weight(c: char): nat {
    UnitSum(CodeUnits(c))
  }

  /** The sum of all code units of `s`. */
  function CodeUnitSum(s: string): nat {
    if s == [] then 0 else Weight(s[0]) + CodeUnitSum(s[1..])
  }

  /** `colorIndex`. */
  function ColorIndex(initials: string): (i: nat)
    ensures i < |PastelColors|
    ensures i == CodeUnitSum(initials) % 8
  {
    CodeUnitSum(initials) % |PastelColors|
  }

  function ColorsOf(initials: string): Colors {
    PastelColors[ColorIndex(initials)]
  }

  /** Empty initials take the first colour. */
  lemma EmptyInitialsFirstColor()
    ensures ColorIndex([]) == 0
  {
  }

  /** For text below U+10000 the sum is the plain sum of the character codes. */
  lemma {:induction false} BasicPlaneSum(s: string)
    requires forall k :: 0 <= k < |s| ==> s[k] as int < 0x1_0000
    ensures s != [] ==> CodeUnitSum(s) == s[0] as int + CodeUnitSum(s[1..])
    ensures |s| == 2 ==> CodeUnitSum(s) == s[0] as int + s[1] as int
  {
    if s != [] {
      BasicPlaneWeight(s[0]);
      if |s| == 2 {
        BasicPlaneWeight(s[1..][0]);
        assert s[1..][1..] == [];
      }
    }
  }

  lemma BasicPlaneWeight(c: char)
    requires c as int < 0x1_0000
    ensures Weight(c) == c as int
  {
    assert CodeUnits(c) == [c as int];
    assert UnitSum([c as int]) == c as int + UnitSum([]);
  }

  lemma {:induction false} CodeUnitSumAppend(a: string, b: string)
    ensures CodeUnitSum(a + b) == CodeUnitSum(a) + CodeUnitSum(b)
  {
    if a == [] {
      assert a + b == b;
    } else {
      assert (a + b)[0] == a[0] && (a + b)[1..] == a[1..] + b;
      assert CodeUnitSum(a + b) == Weight(a[0]) + CodeUnitSum(a[1..] + b);
      CodeUnitSumAppend(a[1..], b);
    }
  }

  /** Taking one character out of a string removes one occurrence of it. */
  lemma RemoveOneMultiset(b: string, j: nat)
    requires j < |b|
    ensures multiset(b[..j] + b[j + 1..]) == multiset(b) - multiset{b[j]}
  {
    assert b == b[..j] + [b[j]] + b[j + 1..];
    assert multiset(b) == multiset(b[..j]) + multiset{b[j]} + multiset(b[j + 1..]);
  }

  /** ... and its code units from the sum. */
  lemma RemoveOneSum(b: string, j: nat)
    requires j < |b|
    ensures CodeUnitSum(b) == CodeUnitSum(b[..j] + b[j + 1..]) + Weight(b[j])
  {
    assert b == (b[..j] + [b[j]]) + b[j + 1..];
    CodeUnitSumAppend(b[..j] + [b[j]], b[j + 1..]);
    CodeUnitSumAppend(b[..j], [b[j]]);
    CodeUnitSumAppend(b[..j], b[j + 1..]);
    assert CodeUnitSum([b[j]]) == Weight(b[j]) + CodeUnitSum([]);
  }

  /** A position holding a character that occurs in `b`. */
  lemma PositionOf(b: string, x: char) returns (j: nat)
    requires x in multiset(b)
    ensures j < |b| && b[j] == x
  {
    j :| 0 <= j < |b| && b[j] == x;
  }

  /** Taking the same character out of two permutations leaves two permutations. */
  lemma RestsPermuted(a: string, b: string, j: nat)
    requires a != [] && multiset(a) == multiset(b) && j < |b| && b[j] == a[0]
    ensures multiset(a[1..]) == multiset(b[..j] + b[j + 1..])
  {
    RemoveOneMultiset(b, j);
    RemoveOneMultiset(a, 0);
    assert a[..0] + a[1..] == a[1..];
  }

  /** The sum does not depend on the order of the characters. */
  lemma {:induction false} CodeUnitSumPermutation(a: string, b: string)
    requires multiset(a) == multiset(b)
    ensures CodeUnitSum(a) == CodeUnitSum(b)
    decreases |a|
  {
    if a == [] {
      assert |multiset(b)| == 0;
    } else {
      var j := PositionOf(b, a[0]);
      RestsPermuted(a, b, j);
      RemoveOneSum(b, j);
      CodeUnitSumPermutation(a[1..], b[..j] + b[j + 1..]);
    }
  }

  /** Initials that are rearrangements of each other get the same colour. */
  lemma PermutedInitialsSameColor(a: string, b: string)
    requires multiset(a) == multiset(b)
    ensures ColorIndex(a) == ColorIndex(b)
  {
    CodeUnitSumPermutation(a, b);
  }

  /** The text shown: `initials.substring(0, 3).toUpperCase()`. */
  function ShownInitials(initials: string): (r: string)
    ensures |r| == if |initials| < 3 then |initials| else 3
    ensures r == AsciiUpper(initials[..|r|])
  {
    AsciiUpper(initials[..if |initials| < 3 then |initials| else 3])
  }

  /** Long initials are cut after three characters; two-letter ones are shown whole. */
  lemma ShownInitialsCut(initials: string)
    ensures |initials| >= 3 ==> ShownInitials(initials) == ShownInitials(initials[..3])
    ensures |initials| <= 3 ==> ShownInitials(initials) == AsciiUpper(initials)
  {
    if |initials| >= 3 {
      assert initials[..3][..3] == initials[..3];
    } else {
      assert initials[..|initials|] == initials;
    }
  }
}
