/**
 * The JavaScript string operations the front end uses, on `string` (= seq<char>):
 * `trim`, `includes`, `startsWith`, `split`, `join`, `padStart`, ASCII
 * `toUpperCase`, `length` in UTF-16 code units, and the decimal text of an integer (`String(n)`, template literals).
 */
module JsStrings {

  /** The ECMAScript WhiteSpace and LineTerminator code points: what `String.prototype.trim` removes. */
  predicate IsJsWhitespace(c: char) {
    || c == '\t' || c == '\n' || c == '\U{000B}' || c == '\U{000C}' || c == '\r' || c == ' '
    || c == '\U{00A0}' || c == '\U{1680}' || ('\U{2000}' <= c <= '\U{200A}')
    || c == '\U{2028}' || c == '\U{2029}' || c == '\U{202F}' || c == '\U{205F}'
    || c == '\U{3000}' || c == '\U{FEFF}'
  }

  /** Number of whitespace characters at the start of `s`. */
  function LeadingWs(s: string): (n: nat)
    ensures n <= |s|
    ensures forall k :: 0 <= k < n ==> IsJsWhitespace(s[k])
    ensures n < |s| ==> !IsJsWhitespace(s[n])
  {
    if s != [] && IsJsWhitespace(s[0]) then 1 + LeadingWs(s[1..]) else 0
  }

  /** Number of whitespace characters at the end of `s`. */
  function TrailingWs(s: string): (n: nat)
    ensures n <= |s|
    ensures forall k :: |s| - n <= k < |s| ==> IsJsWhitespace(s[k])
    ensures n < |s| ==> !IsJsWhitespace(s[|s| - 1 - n])
  {
    if s != [] && IsJsWhitespace(s[|s| - 1]) then 1 + TrailingWs(s[..|s| - 1]) else 0
  }

  /** `s.trim()`: the infix left after removing whitespace at both ends. */
  function Trim(s: string): (r: string)
    ensures |r| <= |s|
    ensures r == [] <==> forall k :: 0 <= k < |s| ==> IsJsWhitespace(s[k])
    ensures r != [] ==> !IsJsWhitespace(r[0]) && !IsJsWhitespace(r[|r| - 1])
    ensures r != [] ==> r == s[LeadingWs(s)..|s| - TrailingWs(s)]
  {
    var i := LeadingWs(s);
    if i == |s| then []
    else
      var j := |s| - TrailingWs(s);
      s[i..j]
  }

  /** `!s.trim()`: the string is empty or made only of whitespace. */
  predicate IsBlank(s: string) {
    Trim(s) == []
  }

  /** Trimming is idempotent. */
  lemma TrimIdempotent(s: string)
    ensures Trim(Trim(s)) == Trim(s)
  {
    var t := Trim(s);
    if t != [] {
      assert LeadingWs(t) == 0;
      assert TrailingWs(t) == 0;
    }
  }

  predicate StartsWith(s: string, prefix: string) {
    |prefix| <= |s| && s[..|prefix|] == prefix
  }

  /** `s.includes(t)`: `t` occurs in `s` at some position (case-sensitive). */
  predicate Contains(s: string, t: string)
    decreases |s|
  {
    StartsWith(s, t) || (s != [] && Contains(s[1..], t))
  }

  /** The recursive `Contains` finds exactly the occurrences at some index. */
  lemma {:induction false} ContainsAt(s: string, t: string, i: nat)
    requires i + |t| <= |s| && s[i..i + |t|] == t
    ensures Contains(s, t)
    decreases i
  {
    if i > 0 {
      assert s[1..][i - 1..i - 1 + |t|] == s[i..i + |t|];
      ContainsAt(s[1..], t, i - 1);
    }
  }

  lemma {:induction false} ContainsWitness(s: string, t: string) returns (i: nat)
    requires Contains(s, t)
    ensures i + |t| <= |s| && s[i..i + |t|] == t
    decreases |s|
  {
    if StartsWith(s, t) {
      i := 0;
    } else {
      var j := ContainsWitness(s[1..], t);
      i := j + 1;
      assert s[i..i + |t|] == s[1..][j..j + |t|];
    }
  }

  /** Every character of a contained text occurs in the containing string. */
  lemma ContainsNeedsChar(s: string, t: string, k: nat)
    requires k < |t|
    ensures Contains(s, t) ==> t[k] in s
  {
    if Contains(s, t) {
      var i := ContainsWitness(s, t);
      assert s[i + k] == t[k];
    }
  }

  /** A text that does not start `s` and whose first character occurs nowhere later in `s` is not in `s`. */
  lemma NotContainedAfterStart(s: string, t: string)
    requires t != [] && !StartsWith(s, t) && (s == [] || t[0] !in s[1..])
    ensures !Contains(s, t)
  {
    if s != [] {
      ContainsNeedsChar(s[1..], t, 0);
    }
  }

  /** Upper-cases ASCII letters and leaves every other character as it is. */
  function AsciiUpper(s: string): (r: string)
    ensures |r| == |s|
    ensures forall k :: 0 <= k < |s| ==>
      if 'a' <= s[k] <= 'z' then r[k] as int == s[k] as int - 32 else r[k] == s[k]
  {
    seq(|s|, k requires 0 <= k < |s| => if 'a' <= s[k] <= 'z' then (s[k] as int - 32) as char else s[k])
  }

  /** The UTF-16 code units of one character: itself below U+10000, else its surrogate pair. */
  function CodeUnits(c: char): (units: seq<nat>)
    ensures 1 <= |units| <= 2
    ensures |units| == 1 <==> c as int < 0x1_0000
    ensures forall k :: 0 <= k < |units| ==> units[k] < 0x1_0000
    ensures |units| == 2 ==>
      && 0xD800 <= units[0] < 0xDC00 && 0xDC00 <= units[1] < 0xE000
      && (units[0] - 0xD800) * 0x400 + (units[1] - 0xDC00) + 0x1_0000 == c as int
  {
    var v := c as int;
    if v < 0x1_0000 then [v]
    else [0xD800 + (v - 0x1_0000) / 0x400, 0xDC00 + (v - 0x1_0000) % 0x400]
  }

  /** `s.length`: the number of UTF-16 code units, two for a character above U+FFFF. */
  function Utf16Length(s: string): (n: nat)
    ensures |s| <= n <= 2 * |s|
    ensures n == 0 <==> s == []
  {
    if s == [] then 0 else |CodeUnits(s[0])| + Utf16Length(s[1..])
  }

  /** Below U+10000 every character is one code unit, so `length` counts characters. */
  lemma {:induction false} Utf16LengthBasicPlane(s: string)
    requires forall k :: 0 <= k < |s| ==> s[k] as int < 0x1_0000
    ensures Utf16Length(s) == |s|
  {
    if s != [] {
      assert forall k :: 0 <= k < |s[1..]| ==> s[1..][k] == s[k + 1];
      Utf16LengthBasicPlane(s[1..]);
    }
  }

  predicate IsDigit(c: char) {
    '0' <= c <= '9'
  }

  function DigitChar(d: nat): (c: char)
    requires d < 10
    ensures IsDigit(c) && c as int - '0' as int == d
  {
    ('0' as int + d) as char
  }

  /** The decimal digits of `n`, without leading zeros (`String(n)`). */
  function NatToString(n: nat): (r: string)
    ensures r != []
    ensures forall k :: 0 <= k < |r| ==> IsDigit(r[k])
    ensures (r[0] == '0') <==> n == 0
    ensures n < 10 <==> |r| == 1
    ensures 10 <= n < 100 <==> |r| == 2
  {
    if n < 10 then [DigitChar(n)] else NatToString(n / 10) + [DigitChar(n % 10)]
  }

  /** The value of a string of decimal digits. */
  function DigitsValue(s: string): nat
    requires forall k :: 0 <= k < |s| ==> IsDigit(s[k])
  {
    if s == [] then 0 else 10 * DigitsValue(s[..|s| - 1]) + DigitValue(s[|s| - 1])
  }

  function DigitValue(c: char): nat
    requires IsDigit(c)
  {
    c as int - '0' as int
  }

  /** Reading the digits back gives the number: the decimal text of a number is faithful. */
  lemma {:induction false} NatToStringRoundTrip(n: nat)
    ensures DigitsValue(NatToString(n)) == n
  {
    if n >= 10 {
      NatToStringRoundTrip(n / 10);
      var s := NatToString(n);
      assert s[..|s| - 1] == NatToString(n / 10);
    }
  }

  /** Distinct numbers have distinct decimal texts. */
  lemma NatToStringInjective(m: nat, n: nat)
    requires NatToString(m) == NatToString(n)
    ensures m == n
  {
    NatToStringRoundTrip(m);
    NatToStringRoundTrip(n);
  }

  /** `String(i)` for an integer: a minus sign before the digits of a negative number. */
  function IntToString(i: int): (r: string)
    ensures r != []
    ensures (r[0] == '-') <==> i < 0
    ensures i < 0 ==> r[1..] == NatToString(-i)
    ensures i >= 0 ==> r == NatToString(i)
  {
    if i < 0 then "-" + NatToString(-i) else NatToString(i)
  }

  /** `s.padStart(2, '0')`. */
  function PadStart2(s: string): (r: string)
    ensures |s| >= 2 ==> r == s
    ensures |s| < 2 ==> |r| == 2 && r[2 - |s|..] == s && forall k :: 0 <= k < 2 - |s| ==> r[k] == '0'
  {
    if |s| == 0 then "00" else if |s| == 1 then "0" + s else s
  }

  /** `n.toString().padStart(2, '0')` is two digits for `n < 100` and still reads back as `n`. */
  lemma TwoDigitPadding(n: nat)
    requires n < 100
    ensures var r := PadStart2(NatToString(n));
      |r| == 2 && IsDigit(r[0]) && IsDigit(r[1]) && DigitsValue(r) == n
  {
    NatToStringRoundTrip(n);
    var s := NatToString(n);
    if n < 10 {
      var r := PadStart2(s);
      assert r == ['0', s[0]];
      assert r[..1] == "0";
    }
  }

  /** `parts.join(sep)`. */
  function Join(parts: seq<string>, sep: string): (r: string)
    ensures |parts| == 1 ==> r == parts[0]
    ensures parts != [] ==> |parts[0]| <= |r| && r[..|parts[0]|] == parts[0]
  {
    if parts == [] then [] else if |parts| == 1 then parts[0] else parts[0] + sep + Join(parts[1..], sep)
  }

  /** `s.split(c)` for a one-character separator: never empty, keeps empty pieces. */
  function Split(s: string, c: char): (r: seq<string>)
    ensures |r| >= 1
    ensures forall i, k :: 0 <= i < |r| && 0 <= k < |r[i]| ==> r[i][k] != c
  {
    if s == [] then [[]]
    else
      var rest := Split(s[1..], c);
      if s[0] == c then [[]] + rest else [[s[0]] + rest[0]] + rest[1..]
  }

  /** Joining the pieces with the separator gives back the string. */
  lemma {:induction false} SplitJoin(s: string, c: char)
    ensures Join(Split(s, c), [c]) == s
  {
    if s != [] {
      SplitJoin(s[1..], c);
      var rest := Split(s[1..], c);
      if s[0] != c {
        if |rest| > 1 {
          assert Join(rest, [c]) == rest[0] + [c] + Join(rest[1..], [c]);
          assert ([[s[0]] + rest[0]] + rest[1..])[1..] == rest[1..];
        }
      } else {
        assert ([[]] + rest)[1..] == rest;
      }
    }
  }

  /** A string without the separator is one piece. */
  lemma {:induction false} SplitWithoutSeparator(s: string, c: char)
    requires c !in s
    ensures Split(s, c) == [s]
  {
    if s != [] {
      SplitWithoutSeparator(s[1..], c);
      assert [s[0]] + s[1..] == s;
    }
  }

  /** Splitting at the first separator: the part before it, then the pieces of the rest. */
  lemma {:induction false} SplitAtFirst(a: string, b: string, c: char)
    requires c !in a
    ensures Split(a + [c] + b, c) == [a] + Split(b, c)
  {
    var s := a + [c] + b;
    if a == [] {
      assert s[0] == c && s[1..] == b;
    } else {
      assert s[0] == a[0] && s[1..] == a[1..] + [c] + b;
      SplitAtFirst(a[1..], b, c);
      assert [a[0]] + a[1..] == a;
    }
  }
}

