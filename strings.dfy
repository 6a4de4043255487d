/**
  The few Python `str` operations the repository relies on, written out so that
  the rest of the model can state what they return: `strip`, `startswith`,
  `endswith`, `in`, `split`, `splitlines`, `replace`, `lower`, `int(...)`,
  `str(int)`, `count`, and the code-point order Python uses to compare strings.
*/
module Strings {
  import opened Common

  // ---------------------------------------------------------------------------
  // Whitespace and strip()

  /** The characters Python's `str.isspace` accepts: what `strip()`, `split()` and `int()` discard. */
  predicate IsSpace(c: char) {
    || c == ' ' || c == '\t' || c == '\n' || c == '\r' || c == '\U{B}' || c == '\U{C}'
    || ('\U{1C}' <= c <= '\U{1F}') || c == '\U{85}' || c == '\U{A0}' || c == '\U{1680}'
    || ('\U{2000}' <= c <= '\U{200A}') || c == '\U{2028}' || c == '\U{2029}'
    || c == '\U{202F}' || c == '\U{205F}' || c == '\U{3000}'
  }

  /** `s.lstrip()`: the suffix left after dropping leading whitespace. */
  function LStrip(s: string): (r: string)
    ensures |r| <= |s| && r == s[|s| - |r|..]
    ensures forall i :: 0 <= i < |s| - |r| ==> IsSpace(s[i])
    ensures r == [] || !IsSpace(r[0])
  {
    if s != [] && IsSpace(s[0]) then LStrip(s[1..]) else s
  }

  /** `s.rstrip()`: the prefix left after dropping trailing whitespace. */
  function RStrip(s: string): (r: string)
    ensures |r| <= |s| && r == s[..|r|]
    ensures forall i :: |r| <= i < |s| ==> IsSpace(s[i])
    ensures r == [] || !IsSpace(r[|r| - 1])
  {
    if s != [] && IsSpace(s[|s| - 1]) then RStrip(s[..|s| - 1]) else s
  }

  /** Where `strip()` cuts `s` on the left: the number of leading whitespace characters. */
  function StripStart(s: string): nat
  {
    |s| - |LStrip(s)|
  }

  /** `s.strip()`: a slice of `s` that neither starts nor ends with whitespace. */
  function Strip(s: string): (r: string)
    ensures StripStart(s) + |r| <= |s| && r == s[StripStart(s)..StripStart(s) + |r|]
    ensures r == [] || (!IsSpace(r[0]) && !IsSpace(r[|r| - 1]))
  {
    var l := LStrip(s);
    var r := RStrip(l);
    SliceOfSlice(s, |s| - |l|, |r|);
    r
  }

  /** A string is blank for Python (`not s.strip()`) exactly when all its characters are whitespace. */
  lemma StripEmptyIffBlank(s: string)
    ensures Strip(s) == [] <==> forall i :: 0 <= i < |s| ==> IsSpace(s[i])
  {
    var l := LStrip(s);
    if !forall i :: 0 <= i < |s| ==> IsSpace(s[i]) {
      var j :| 0 <= j < |s| && !IsSpace(s[j]);
      assert j >= |s| - |l|;
      assert l[j - (|s| - |l|)] == s[j];
    }
  }

  /** Stripping a string that starts and ends with a non-space character changes nothing. */
  lemma StripOfTrimmed(s: string)
    requires s != [] && !IsSpace(s[0]) && !IsSpace(s[|s| - 1])
    ensures Strip(s) == s
  {
  }

  // ---------------------------------------------------------------------------
  // Prefixes, suffixes, substrings

  predicate StartsWith(s: string, p: string) {
    |p| <= |s| && s[..|p|] == p
  }

  predicate EndsWith(s: string, p: string) {
    |p| <= |s| && s[|s| - |p|..] == p
  }

  /** Python's `sub in s`. */
  predicate Contains(s: string, sub: string)
    decreases |s|
  {
    StartsWith(s, sub) || (s != [] && Contains(s[1..], sub))
  }

  /** An occurrence of `sub` at any position makes `sub in s` true. */
  lemma {:induction false} ContainsAt(s: string, sub: string, i: nat)
    requires i + |sub| <= |s| && s[i..i + |sub|] == sub
    ensures Contains(s, sub)
    decreases i
  {
    if i > 0 {
      assert s[1..][i - 1..i - 1 + |sub|] == sub;
      ContainsAt(s[1..], sub, i - 1);
    }
  }

  /** The first position of `c` in `s` (`s.find(c)` when it is not -1). */
  function IndexOf(s: string, c: char): (r: Option<nat>)
    ensures r.None? <==> c !in s
    ensures r.Some? ==> r.value < |s| && s[r.value] == c && c !in s[..r.value]
  {
    if s == [] then None
    else if s[0] == c then Some(0)
    else
      match IndexOf(s[1..], c)
      case None => assert s == [s[0]] + s[1..]; None
      case Some(k) => assert s[..k + 1] == [s[0]] + s[1..][..k]; Some(k + 1)
  }

  /** The last position of `c` in `s` (`s.rfind(c)` when it is not -1). */
  function LastIndexOf(s: string, c: char): (r: Option<nat>)
    ensures r.None? <==> c !in s
    ensures r.Some? ==> r.value < |s| && s[r.value] == c && c !in s[r.value + 1..]
  {
    if s == [] then None
    else if s[|s| - 1] == c then Some(|s| - 1)
    else
      match LastIndexOf(s[..|s| - 1], c)
      case None => assert s == s[..|s| - 1] + [s[|s| - 1]]; None
      case Some(k) =>
        assert s[k + 1..] == s[..|s| - 1][k + 1..] + [s[|s| - 1]];
        Some(k)
  }

  // ---------------------------------------------------------------------------
  // split, join, splitlines

  /** `s.split(sep)` for a one-character separator: the pieces between separators, at least one. */
  function Split(s: string, sep: char): (parts: seq<string>)
    ensures |parts| >= 1
    ensures forall k :: 0 <= k < |parts| ==> sep !in parts[k]
    decreases |s|
  {
    match IndexOf(s, sep)
    case None => [s]
    case Some(k) => [s[..k]] + Split(s[k + 1..], sep)
  }

  /** `sep.join(parts)`. */
  function Join(parts: seq<string>, sep: string): string
  {
    if parts == [] then []
    else if |parts| == 1 then parts[0]
    else parts[0] + sep + Join(parts[1..], sep)
  }

  /** Splitting on a character and joining with it gives the string back. */
  lemma {:induction false} JoinSplit(s: string, sep: char)
    ensures Join(Split(s, sep), [sep]) == s
    decreases |s|
  {
    var r := IndexOf(s, sep);
    if r.Some? {
      var k := r.value;
      var tail := Split(s[k + 1..], sep);
      var parts := Split(s, sep);
      assert parts == [s[..k]] + tail;
      assert parts[1..] == tail;
      assert Join(parts, [sep]) == s[..k] + [sep] + Join(tail, [sep]);
      JoinSplit(s[k + 1..], sep);
      assert s == s[..k] + [sep] + s[k + 1..];
    }
  }

  /** Joining pieces that do not contain the separator and splitting again gives the pieces back. */
  lemma {:induction false} SplitJoin(parts: seq<string>, sep: char)
    requires |parts| >= 1
    requires forall k :: 0 <= k < |parts| ==> sep !in parts[k]
    ensures Split(Join(parts, [sep]), sep) == parts
    decreases |parts|
  {
    if |parts| > 1 {
      var rest := Join(parts[1..], [sep]);
      var s := parts[0] + [sep] + rest;
      assert s[..|parts[0]|] == parts[0];
      assert s[|parts[0]|] == sep;
      assert sep !in s[..|parts[0]|];
      assert IndexOf(s, sep) == Some(|parts[0]|);
      assert s[|parts[0]| + 1..] == rest;
      SplitJoin(parts[1..], sep);
    }
  }

  /** The line separators Python's `str.splitlines` recognises. */
  predicate IsLineBoundary(c: char) {
    || c == '\n' || c == '\r' || c == '\U{B}' || c == '\U{C}' || c == '\U{1C}' || c == '\U{1D}'
    || c == '\U{1E}' || c == '\U{85}' || c == '\U{2028}' || c == '\U{2029}'
  }

  /** Length of the first line of `s`: the position of the first line boundary, or `|s|`. */
  function LineEnd(s: string): (k: nat)
    ensures k <= |s|
    ensures k < |s| ==> IsLineBoundary(s[k])
    ensures forall i :: 0 <= i < k ==> !IsLineBoundary(s[i])
  {
    if s == [] || IsLineBoundary(s[0]) then 0 else 1 + LineEnd(s[1..])
  }

  /** `s.splitlines()`: "\r\n" counts as one boundary and a final boundary adds no empty line. */
  function SplitLines(s: string): (lines: seq<string>)
    ensures forall k, i :: 0 <= k < |lines| && 0 <= i < |lines[k]| ==> !IsLineBoundary(lines[k][i])
    decreases |s|
  {
    if s == [] then []
    else
      var k := LineEnd(s);
      var next := if k == |s| then |s|
                  else if s[k] == '\r' && k + 1 < |s| && s[k + 1] == '\n' then k + 2
                  else k + 1;
      [s[..k]] + SplitLines(s[next..])
  }

  /** Newline-terminated records, the way a line-oriented tool prints them. */
  function Terminated(lines: seq<string>): string
  {
    if lines == [] then [] else lines[0] + "\n" + Terminated(lines[1..])
  }

  /** `splitlines` recovers exactly the records of newline-terminated output. */
  lemma {:induction false} SplitLinesTerminated(lines: seq<string>)
    requires forall k, i :: 0 <= k < |lines| && 0 <= i < |lines[k]| ==> !IsLineBoundary(lines[k][i])
    ensures SplitLines(Terminated(lines)) == lines
    decreases |lines|
  {
    if lines != [] {
      var l := lines[0];
      var rest := Terminated(lines[1..]);
      var s := l + "\n" + rest;
      assert Terminated(lines) == s;
      LineEndOf(l, "\n" + rest);
      assert l + "\n" + rest == l + ("\n" + rest);
      assert s[|l|] == '\n';
      assert s[..|l|] == l;
      assert s[|l| + 1..] == rest;
      SplitLinesTerminated(lines[1..]);
      SplitLinesStep(s, |l|);
    }
  }

  /** One step of `splitlines` past a line ended by a bare "\n". */
  lemma SplitLinesStep(s: string, k: nat)
    requires k < |s| && LineEnd(s) == k && s[k] == '\n'
    ensures SplitLines(s) == [s[..k]] + SplitLines(s[k + 1..])
  {
  }

  lemma LineEndOf(l: string, rest: string)
    requires forall i :: 0 <= i < |l| ==> !IsLineBoundary(l[i])
    requires rest != [] && IsLineBoundary(rest[0])
    ensures LineEnd(l + rest) == |l|
  {
    if l != [] {
      assert (l + rest)[1..] == l[1..] + rest;
      LineEndOf(l[1..], rest);
    }
  }

  // ---------------------------------------------------------------------------
  // replace, lower, isalnum, count

  /** `s.replace(pat, rep)`: every non-overlapping occurrence, scanning left to right. */
  function ReplaceAll(s: string, pat: string, rep: string): string
    requires pat != []
    decreases |s|
  {
    if |s| < |pat| then s
    else if s[..|pat|] == pat then rep + ReplaceAll(s[|pat|..], pat, rep)
    else [s[0]] + ReplaceAll(s[1..], pat, rep)
  }

  /** The characters of `s` other than `c`, in order. */
  function Without(s: string, c: char): string
  {
    if s == [] then [] else (if s[0] == c then [] else [s[0]]) + Without(s[1..], c)
  }

  /** Removing a one-character pattern with `replace` drops exactly that character. */
  lemma {:induction false} ReplaceCharIsWithout(s: string, c: char)
    ensures ReplaceAll(s, [c], []) == Without(s, c)
    decreases |s|
  {
    if s != [] {
      ReplaceCharIsWithout(s[1..], c);
    }
  }

  lemma {:induction false} WithoutChars(s: string, c: char)
    ensures c !in Without(s, c)
    ensures forall x :: x in Without(s, c) <==> x in s && x != c
    decreases |s|
  {
    if s != [] {
      WithoutChars(s[1..], c);
      assert s == [s[0]] + s[1..];
    }
  }

  /** `replace` leaves a string without any occurrence of the pattern unchanged. */
  lemma {:induction false} ReplaceAbsent(s: string, pat: string, rep: string)
    requires pat != []
    requires !Contains(s, pat)
    ensures ReplaceAll(s, pat, rep) == s
    decreases |s|
  {
    if |s| >= |pat| {
      assert !StartsWith(s, pat);
      ReplaceAbsent(s[1..], pat, rep);
      assert s == [s[0]] + s[1..];
    }
  }

  function LowerChar(c: char): char {
    if 'A' <= c <= 'Z' then (c as int + 32) as char else c
  }

  /** `s.lower()` on ASCII letters. */
  function Lower(s: string): string {
    seq(|s|, i requires 0 <= i < |s| => LowerChar(s[i]))
  }

  predicate IsDigit(c: char) {
    '0' <= c <= '9'
  }

  /** `c.isalnum()` for ASCII characters. */
  predicate IsAlnum(c: char) {
    IsDigit(c) || 'a' <= c <= 'z' || 'A' <= c <= 'Z'
  }

  /** `s.count(c)`. */
  function CountChar(s: string, c: char): nat
  {
    if s == [] then 0 else (if s[0] == c then 1 else 0) + CountChar(s[1..], c)
  }

  // ---------------------------------------------------------------------------
  // Integers and text

  function DigitChar(d: nat): char
    requires d < 10
  {
    ('0' as int + d) as char
  }

  function DigitValue(c: char): nat
    requires IsDigit(c)
  {
    c as int - '0' as int
  }

  /** `str(n)` for a natural number: decimal digits, no leading zero. */
  function NatToString(n: nat): (r: string)
    ensures r != [] && forall i :: 0 <= i < |r| ==> IsDigit(r[i])
    decreases n
  {
    if n < 10 then [DigitChar(n)] else NatToString(n / 10) + [DigitChar(n % 10)]
  }

  /** `str(i)` for any integer. */
  function IntToString(i: int): string
  {
    if i < 0 then "-" + NatToString(-i) else NatToString(i)
  }

  /** The body of a decimal literal as `int()` accepts it: digits, single underscores only between digits. */
  predicate DigitGroups(b: string) {
    && b != [] && IsDigit(b[0]) && IsDigit(b[|b| - 1])
    && (forall i :: 0 <= i < |b| ==> IsDigit(b[i]) || b[i] == '_')
    && (forall i :: 0 <= i < |b| - 1 ==> !(b[i] == '_' && b[i + 1] == '_'))
  }

  /** The value of digits read left to right, underscores skipped. */
  function DigitsValue(b: string): nat
    requires forall i :: 0 <= i < |b| ==> IsDigit(b[i]) || b[i] == '_'
  {
    if b == [] then 0
    else if b[|b| - 1] == '_' then DigitsValue(b[..|b| - 1])
    else DigitsValue(b[..|b| - 1]) * 10 + DigitValue(b[|b| - 1])
  }

  /**
    Python's `int(s)` on a string: surrounding whitespace, one optional sign,
    and digit groups. `None` stands for the ValueError.
  */
  function ParseInt(s: string): Option<int>
  {
    var t := Strip(s);
    if t != [] && (t[0] == '+' || t[0] == '-') then
      if DigitGroups(t[1..]) then
        Some(if t[0] == '-' then -(DigitsValue(t[1..]) as int) else DigitsValue(t[1..]))
      else None
    else if DigitGroups(t) then Some(DigitsValue(t))
    else None
  }

  lemma {:induction false} DigitsValueOfNat(n: nat)
    ensures DigitsValue(NatToString(n)) == n
    decreases n
  {
    var r := NatToString(n);
    if n >= 10 {
      assert r[..|r| - 1] == NatToString(n / 10);
      DigitsValueOfNat(n / 10);
    }
  }

  lemma ParseNatString(n: nat)
    ensures ParseInt(NatToString(n)) == Some(n)
  {
    var d := NatToString(n);
    DigitsValueOfNat(n);
    assert DigitGroups(d);
    StripOfTrimmed(d);
  }

  lemma ParseNegString(n: nat)
    requires n > 0
    ensures ParseInt("-" + NatToString(n)) == Some(-(n as int))
  {
    var d := NatToString(n);
    var s := "-" + d;
    DigitsValueOfNat(n);
    assert DigitGroups(d);
    assert s[|s| - 1] == d[|d| - 1];
    StripOfTrimmed(s);
    assert s[1..] == d;
    ParseSigned(s);
  }

  lemma ParseSigned(t: string)
    requires |t| > 1 && t[0] == '-' && DigitGroups(t[1..]) && Strip(t) == t
    ensures ParseInt(t) == Some(-(DigitsValue(t[1..]) as int))
  {
  }

  /** `int(str(i)) == i`: printing a number and parsing it back is the identity. */
  lemma IntRoundTrip(i: int)
    ensures ParseInt(IntToString(i)) == Some(i)
  {
    if i < 0 {
      NegRoundTrip(-i);
    } else {
      ParseNatString(i);
    }
  }

  lemma NegRoundTrip(n: nat)
    requires n > 0
    ensures ParseInt(IntToString(-(n as int))) == Some(-(n as int))
  {
    var s := IntToString(-(n as int));
    assert s == "-" + NatToString(n);
    ParseNegString(n);
  }

  /** `f"{s:>w}"`: right-aligned in a field of width `w`. */
  function PadLeft(s: string, w: nat): (r: string)
    ensures |r| == if |s| >= w then |s| else w
    ensures EndsWith(r, s)
  {
    if |s| >= w then s else seq(w - |s|, _ => ' ') + s
  }

  // ---------------------------------------------------------------------------
  // Code-point order, as Python's `<` on str and SQLite's BINARY collation compare strings

  predicate LexLe(a: string, b: string)
    decreases |a|
  {
    a == [] || (b != [] && (a[0] < b[0] || (a[0] == b[0] && LexLe(a[1..], b[1..]))))
  }

  lemma {:induction false} LexLeTotal(a: string, b: string)
    ensures LexLe(a, b) || LexLe(b, a)
    decreases |a|
  {
    if a != [] && b != [] && a[0] == b[0] {
      LexLeTotal(a[1..], b[1..]);
    }
  }

  lemma {:induction false} LexLeTrans(a: string, b: string, c: string)
    requires LexLe(a, b) && LexLe(b, c)
    ensures LexLe(a, c)
    decreases |a|
  {
    if a != [] && a[0] == b[0] && b[0] == c[0] {
      LexLeTrans(a[1..], b[1..], c[1..]);
    }
  }

  lemma {:induction false} LexLeAntisym(a: string, b: string)
    requires LexLe(a, b) && LexLe(b, a)
    ensures a == b
    decreases |a|
  {
    if a != [] {
      LexLeAntisym(a[1..], b[1..]);
      assert a == [a[0]] + a[1..] && b == [b[0]] + b[1..];
    }
  }
}
