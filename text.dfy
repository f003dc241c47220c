/** The string builtins the console relies on, restricted to ASCII:
    `str.strip`, `str.lower`, `str.startswith`, `str.isdigit`, `int(...)`,
    `str.ljust`, `"x" * n` and `sep.join(...)`. */
module Text {

  /** The ASCII characters Python's `str.strip()` removes: tab, line feed,
      vertical tab, form feed, carriage return, the four information
      separators 0x1C-0x1F, and space. */
  predicate IsSpace(c: char) {
    ('\t' <= c <= '\r') || ((28 as char) <= c <= ' ')
  }

  /** `s.lstrip()` */
  function TrimLeft(s: string): (r: string)
    ensures |r| <= |s| && r == s[|s| - |r|..]
    ensures forall j :: 0 <= j < |s| - |r| ==> IsSpace(s[j])
    ensures r == [] || !IsSpace(r[0])
  {
    if |s| > 0 && IsSpace(s[0]) then TrimLeft(s[1..]) else s
  }

  /** `s.rstrip()` */
  function TrimRight(s: string): (r: string)
    ensures |r| <= |s| && r == s[..|r|]
    ensures forall j :: |r| <= j < |s| ==> IsSpace(s[j])
    ensures r == [] || !IsSpace(r[|r| - 1])
  {
    if |s| > 0 && IsSpace(s[|s| - 1]) then TrimRight(s[..|s| - 1]) else s
  }

  /** `s.strip()`: the result has no whitespace at either end. */
  function Trim(s: string): (r: string)
    ensures |r| <= |s|
    ensures r == [] || (!IsSpace(r[0]) && !IsSpace(r[|r| - 1]))
  {
    TrimRight(TrimLeft(s))
  }

  predicate IsTrimmed(s: string) {
    s == [] || (!IsSpace(s[0]) && !IsSpace(s[|s| - 1]))
  }

  /** A string without whitespace at its ends is left alone by `strip()`. */
  lemma TrimmedIsFixed(s: string)
    requires IsTrimmed(s)
    ensures Trim(s) == s
  {
  }

  /** `strip()` yields "" exactly when the whole input is whitespace. */
  lemma TrimEmptyIff(s: string)
    ensures Trim(s) == [] <==> forall j :: 0 <= j < |s| ==> IsSpace(s[j])
  {
    var l := TrimLeft(s);
    assert l != [] ==> l[0] == s[|s| - |l|];
  }

  /** Leading whitespace does not change the stripped text. */
  lemma TrimIgnoresLeadingSpace(c: char, s: string)
    requires IsSpace(c)
    ensures Trim([c] + s) == Trim(s)
  {
    assert ([c] + s)[1..] == s;
  }

  /** Text appended after a non-blank string survives `lstrip()` untouched. */
  lemma {:induction false} TrimLeftAppend(a: string, b: string)
    requires TrimLeft(a) != []
    ensures TrimLeft(a + b) == TrimLeft(a) + b
  {
    if |a| > 0 && IsSpace(a[0]) {
      assert (a + b)[1..] == a[1..] + b;
      TrimLeftAppend(a[1..], b);
    } else {
      assert |a| > 0;
    }
  }

  /** `rstrip()` of a longer string keeps everything `rstrip()` of its
      prefix kept. */
  lemma TrimRightPrefix(a: string, b: string)
    ensures TrimRight(a) <= TrimRight(a + b)
  {
    var n := |TrimRight(a)|;
    var m := |TrimRight(a + b)|;
    if n > 0 {
      assert !IsSpace((a + b)[n - 1]);
      assert n <= m;
      assert TrimRight(a + b)[..n] == (a + b)[..n] == a[..n];
    }
  }

  /** Stripping a string with text appended keeps the stripped string as
      a prefix, unless the string was blank. */
  lemma TrimKeepsPrefix(a: string, b: string)
    requires Trim(a) != []
    ensures Trim(a) <= Trim(a + b)
  {
    TrimLeftAppend(a, b);
    TrimRightPrefix(TrimLeft(a), b);
  }

  /** ASCII `str.lower()` of one character. */
  function LowerChar(c: char): (r: char)
    ensures 'A' <= c <= 'Z' ==> 'a' <= r <= 'z' && r as int - c as int == 32
    ensures !('A' <= c <= 'Z') ==> r == c
  {
    if 'A' <= c <= 'Z' then (c as int + 32) as char else c
  }

  /** ASCII `str.lower()`: the same length, each character folded. */
  function Lower(s: string): (r: string)
    ensures |r| == |s|
    ensures forall i :: 0 <= i < |s| ==> r[i] == LowerChar(s[i])
  {
    seq(|s|, i requires 0 <= i < |s| => LowerChar(s[i]))
  }

  /** `s.startswith(p)` */
  predicate StartsWith(s: string, p: string) {
    |p| <= |s| && s[..|p|] == p
  }

  /** A string that starts with `p` passes that on to its extensions. */
  lemma StartsWithExtends(s: string, t: string, p: string)
    requires s <= t && StartsWith(s, p)
    ensures StartsWith(t, p)
  {
    assert t[..|p|] == s[..|p|];
  }

  /** `s.endswith(p)` */
  predicate EndsWith(s: string, p: string) {
    |p| <= |s| && s[|s| - |p|..] == p
  }

  predicate IsDigit(c: char) {
    '0' <= c <= '9'
  }

  /** ASCII `str.isdigit()`: non-empty and made of decimal digits only. */
  predicate IsDigits(s: string) {
    |s| > 0 && forall i :: 0 <= i < |s| ==> IsDigit(s[i])
  }

  function DigitValue(c: char): (d: nat)
    requires IsDigit(c)
    ensures d < 10
  {
    c as int - '0' as int
  }

  function DigitChar(d: nat): (c: char)
    requires d < 10
    ensures IsDigit(c) && DigitValue(c) == d
  {
    ('0' as int + d) as char
  }

  /** `int(s)` for a string of decimal digits (leading zeros allowed). */
  function ParseNat(s: string): nat
    requires forall i :: 0 <= i < |s| ==> IsDigit(s[i])
  {
    if s == [] then 0 else 10 * ParseNat(s[..|s| - 1]) + DigitValue(s[|s| - 1])
  }

  /** `str(n)` for a natural number: the shortest decimal numeral. */
  function NatToString(n: nat): (s: string)
    ensures IsDigits(s)
    ensures |s| > 1 ==> s[0] != '0'
  {
    if n < 10 then [DigitChar(n)] else NatToString(n / 10) + [DigitChar(n % 10)]
  }

  /** `int(str(n)) == n` */
  lemma {:induction false} ParseNatToString(n: nat)
    ensures ParseNat(NatToString(n)) == n
  {
    if n >= 10 {
      var s := NatToString(n);
      assert s[..|s| - 1] == NatToString(n / 10);
      ParseNatToString(n / 10);
    }
  }

  /** `c * n` for a one-character string `c`. */
  function Repeat(c: char, n: nat): (r: string)
    ensures |r| == n && forall i :: 0 <= i < n ==> r[i] == c
  {
    seq(n, _ => c)
  }

  /** `s.ljust(w)`: pad on the right with spaces up to width `w`; a string
      already at least `w` long is returned as it is. */
  function LJust(s: string, w: nat): (r: string)
    ensures |r| == if |s| < w then w else |s|
    ensures r[..|s|] == s
    ensures forall j :: |s| <= j < |r| ==> r[j] == ' '
  {
    if |s| < w then s + Repeat(' ', w - |s|) else s
  }

  /** `sep.join(parts)` */
  function Join(parts: seq<string>, sep: string): string
  {
    if |parts| == 0 then ""
    else if |parts| == 1 then parts[0]
    else parts[0] + sep + Join(parts[1..], sep)
  }

  /** The sum of a sequence of widths. */
  function Sum(ws: seq<nat>): nat {
    if ws == [] then 0 else ws[0] + Sum(ws[1..])
  }

  /** The lengths of the parts, in order. */
  function Lengths(parts: seq<string>): (ws: seq<nat>)
    ensures |ws| == |parts| && forall i :: 0 <= i < |parts| ==> ws[i] == |parts[i]|
  {
    seq(|parts|, i requires 0 <= i < |parts| => |parts[i]|)
  }

  /** Where part `i` starts in a joined text whose parts have the widths
      `ws`: the widths before it, each followed by one separator. */
  function Offset(ws: seq<nat>, sepLen: nat, i: nat): nat
    requires i <= |ws|
  {
    if i == 0 then 0 else ws[0] + sepLen + Offset(ws[1..], sepLen, i - 1)
  }

  /** The length of a joined text whose parts have the widths `ws`. */
  function JoinedWidth(ws: seq<nat>, sepLen: nat): nat {
    if ws == [] then 0 else Sum(ws) + sepLen * (|ws| - 1)
  }

  /** Each part sits in the joined text at its offset, unchanged. */
  lemma {:induction false} JoinSegment(parts: seq<string>, sep: string, i: nat)
    requires i < |parts|
    ensures Offset(Lengths(parts), |sep|, i) + |parts[i]| <= |Join(parts, sep)|
    ensures var o := Offset(Lengths(parts), |sep|, i);
            Join(parts, sep)[o..o + |parts[i]|] == parts[i]
  {
    if i > 0 {
      assert Lengths(parts)[1..] == Lengths(parts[1..]);
      JoinSegment(parts[1..], sep, i - 1);
      var o := Offset(Lengths(parts[1..]), |sep|, i - 1);
      var rest := Join(parts[1..], sep);
      assert Join(parts, sep) == (parts[0] + sep) + rest;
      SliceAfter(parts[0] + sep, rest, o, |parts[i]|);
    }
  }

  /** A slice of the second half of a concatenation. */
  lemma SliceAfter(a: string, b: string, o: nat, n: nat)
    requires o + n <= |b|
    ensures (a + b)[|a| + o..|a| + o + n] == b[o..o + n]
  {
  }

  /** The joined text is as long as its parts plus one separator between
      each two neighbours. */
  lemma {:induction false} JoinLength(parts: seq<string>, sep: string)
    ensures |Join(parts, sep)| == JoinedWidth(Lengths(parts), |sep|)
  {
    if |parts| > 1 {
      JoinLength(parts[1..], sep);
      assert Lengths(parts)[1..] == Lengths(parts[1..]);
    } else if |parts| == 1 {
      assert Lengths(parts)[1..] == [];
      assert Sum(Lengths(parts)) == |parts[0]| + Sum([]);
    }
  }

  /** Every character of the joined text comes from a part or from a
      separator. */
  lemma {:induction false} JoinCharsFrom(parts: seq<string>, sep: string, P: char -> bool)
    requires forall i, j :: 0 <= i < |parts| && 0 <= j < |parts[i]| ==> P(parts[i][j])
    requires forall j :: 0 <= j < |sep| ==> P(sep[j])
    ensures forall j :: 0 <= j < |Join(parts, sep)| ==> P(Join(parts, sep)[j])
  {
    if |parts| > 1 {
      JoinCharsFrom(parts[1..], sep, P);
      var rest := Join(parts[1..], sep);
      assert Join(parts, sep) == parts[0] + sep + rest;
      forall j | 0 <= j < |Join(parts, sep)|
        ensures P(Join(parts, sep)[j])
      {
        if j < |parts[0]| {
          assert Join(parts, sep)[j] == parts[0][j];
        } else if j < |parts[0]| + |sep| {
          assert Join(parts, sep)[j] == sep[j - |parts[0]|];
        } else {
          assert Join(parts, sep)[j] == rest[j - |parts[0]| - |sep|];
        }
      }
    }
  }
}
