/** String helpers with Python's semantics: `str.isspace`, `str.rstrip()`,
    `str.splitlines()`, ASCII `str.lower()`, and `str(int)` with its inverse. */
module Text {

  /** Python's `str.isspace()`: the characters `str.rstrip()` removes. */
  predicate IsSpace(c: char) {
    || ('\t' <= c <= '\r')
    || ('\U{1C}' <= c <= ' ')
    || c == '\U{85}' || c == '\U{A0}' || c == '\U{1680}'
    || ('\U{2000}' <= c <= '\U{200A}')
    || c == '\U{2028}' || c == '\U{2029}' || c == '\U{202F}'
    || c == '\U{205F}' || c == '\U{3000}'
  }

  /** The line boundaries recognised by `str.splitlines()`. */
  predicate IsLineBreak(c: char) {
    || c == '\n' || c == '\r' || c == '\U{B}' || c == '\U{C}'
    || c == '\U{1C}' || c == '\U{1D}' || c == '\U{1E}'
    || c == '\U{85}' || c == '\U{2028}' || c == '\U{2029}'
  }

  /** Every line boundary is also whitespace, so `rstrip()` removes trailing ones. */
  lemma LineBreakIsSpace(c: char)
    requires IsLineBreak(c)
    ensures IsSpace(c)
  {
  }

  /** `s.rstrip()`: the longest prefix of `s` not ending in whitespace. */
  function RStrip(s: string): (r: string)
    ensures |r| <= |s| && r == s[..|r|]
    ensures |r| > 0 ==> !IsSpace(r[|r| - 1])
    ensures forall i :: |r| <= i < |s| ==> IsSpace(s[i])
  {
    if |s| == 0 || !IsSpace(s[|s| - 1]) then s else RStrip(s[..|s| - 1])
  }

  /** The index of the first line boundary at or after `i`, or `|s|`. */
  function FirstBreak(s: string, i: nat): (k: nat)
    requires i <= |s|
    ensures i <= k <= |s|
    ensures forall j :: i <= j < k ==> !IsLineBreak(s[j])
    ensures k < |s| ==> IsLineBreak(s[k])
    decreases |s| - i
  {
    if i == |s| || IsLineBreak(s[i]) then i else FirstBreak(s, i + 1)
  }

  /** `s.splitlines()`: the lines of `s` without their boundaries; "\r\n"
      is one boundary and a final boundary does not start an empty line. */
  function SplitLines(s: string): (r: seq<string>)
    ensures |s| == 0 <==> |r| == 0
    ensures forall k, j :: 0 <= k < |r| && 0 <= j < |r[k]| ==> !IsLineBreak(r[k][j])
    decreases |s|
  {
    if |s| == 0 then []
    else
      var i := FirstBreak(s, 0);
      if i == |s| then [s]
      else
        var next := if s[i] == '\r' && i + 1 < |s| && s[i + 1] == '\n' then i + 2 else i + 1;
        [s[..i]] + SplitLines(s[next..])
  }

  /** `sep.join(parts)`. */
  function Join(parts: seq<string>, sep: string): string
  {
    if |parts| == 0 then ""
    else if |parts| == 1 then parts[0]
    else parts[0] + sep + Join(parts[1..], sep)
  }

  /** For text whose only boundary is "\n" and that does not end in one,
      splitting into lines and joining with "\n" gives the text back. */
  lemma {:induction false} SplitLinesJoin(s: string)
    requires OnlyNewlineBreaks(s)
    requires |s| > 0 ==> s[|s| - 1] != '\n'
    ensures Join(SplitLines(s), "\n") == s
    decreases |s|
  {
    if |s| > 0 {
      var i := FirstBreak(s, 0);
      if i == |s| {
        SingleLineJoin(s);
      } else {
        SplitAtBreak(s, i);
        SplitLinesJoin(s[i + 1..]);
        SplitAtNewline(s, i);
        JoinAtBreak(s, i, SplitLines(s[i + 1..]));
      }
    }
  }

  /** The induction step: the first line, "\n", then lines joining to the rest. */
  lemma JoinAtBreak(s: string, i: nat, lines: seq<string>)
    requires i < |s| && s[i] == '\n' && |lines| > 0 && Join(lines, "\n") == s[i + 1..]
    ensures Join([s[..i]] + lines, "\n") == s
  {
    JoinCons(s[..i], lines, "\n");
    assert s == s[..i] + "\n" + s[i + 1..];
  }

  /** Text without a line boundary is one line. */
  lemma SingleLineJoin(s: string)
    requires |s| > 0 && FirstBreak(s, 0) == |s|
    ensures Join(SplitLines(s), "\n") == s
  {
    assert SplitLines(s) == [s];
  }

  /** The facts about the first break of `s` that the induction step needs. */
  lemma SplitAtBreak(s: string, i: nat)
    requires OnlyNewlineBreaks(s) && |s| > 0 && s[|s| - 1] != '\n'
    requires i == FirstBreak(s, 0) && i < |s|
    ensures s[i] == '\n' && i < |s| - 1
    ensures OnlyNewlineBreaks(s[i + 1..]) && s[i + 1..][|s| - i - 2] != '\n'
  {
    SuffixOnlyNewlineBreaks(s, i + 1);
  }

  /** The only line boundary occurring in `s` is "\n". */
  predicate OnlyNewlineBreaks(s: string) {
    forall j :: 0 <= j < |s| && IsLineBreak(s[j]) ==> s[j] == '\n'
  }

  lemma SuffixOnlyNewlineBreaks(s: string, k: nat)
    requires OnlyNewlineBreaks(s) && k <= |s|
    ensures OnlyNewlineBreaks(s[k..])
  {
    forall j | 0 <= j < |s| - k && IsLineBreak(s[k..][j])
      ensures s[k..][j] == '\n'
    {
      assert s[k..][j] == s[k + j];
    }
  }

  /** One unfolding of `SplitLines` at a "\n" boundary that is not the last character. */
  lemma SplitAtNewline(s: string, i: nat)
    requires |s| > 0 && i == FirstBreak(s, 0) && i < |s| - 1 && s[i] == '\n'
    ensures SplitLines(s) == [s[..i]] + SplitLines(s[i + 1..])
    ensures |SplitLines(s[i + 1..])| > 0
  {
  }

  lemma JoinCons(head: string, tail: seq<string>, sep: string)
    requires |tail| > 0
    ensures Join([head] + tail, sep) == head + sep + Join(tail, sep)
  {
    assert ([head] + tail)[1..] == tail;
  }

  /** ASCII lower-casing of one character. */
  function LowerChar(c: char): char
  {
    if 'A' <= c <= 'Z' then (c as int + 32) as char else c
  }

  /** `s.lower()` restricted to ASCII letters. */
  function Lower(s: string): (r: string)
    ensures |r| == |s|
  {
    seq(|s|, i requires 0 <= i < |s| => LowerChar(s[i]))
  }

  /** Lower-casing twice is lower-casing once. */
  lemma LowerIdempotent(s: string)
    ensures Lower(Lower(s)) == Lower(s)
  {
  }

  /** `q` occurs in `s` as a contiguous substring (the empty string occurs everywhere). */
  predicate Contains(s: string, q: string) {
    exists i | 0 <= i <= |s| - |q| :: OccursAt(s, q, i)
  }

  /** `q` occurs in `s` starting at index `i`. */
  predicate OccursAt(s: string, q: string, i: nat) {
    i + |q| <= |s| && s[i..i + |q|] == q
  }

  /** An occurrence of `q` brings every character of `q` with it. */
  lemma ContainsBringsChars(s: string, q: string, j: nat)
    requires Contains(s, q) && j < |q|
    ensures q[j] in s
  {
    var i :| 0 <= i <= |s| - |q| && OccursAt(s, q, i);
    assert s[i + j] == q[j];
  }

  function DigitChar(d: nat): char
    requires d < 10
  {
    (48 + d) as char
  }

  predicate IsDigit(c: char) {
    '0' <= c <= '9'
  }

  function DigitValue(c: char): nat
    requires IsDigit(c)
  {
    c as int - '0' as int
  }

  /** A decimal numeral as `str` writes a natural number: digits only, and
      no leading zero unless the numeral is "0" itself. */
  predicate CanonicalNat(s: string) {
    && |s| > 0
    && (forall i :: 0 <= i < |s| ==> IsDigit(s[i]))
    && (|s| == 1 || s[0] != '0')
  }

  /** A numeral as `str` writes an integer: a canonical natural, or a minus
      sign before a canonical natural that is not "0". */
  predicate CanonicalInt(s: string) {
    CanonicalNat(s) || (|s| >= 2 && s[0] == '-' && CanonicalNat(s[1..]) && s[1] != '0')
  }

  /** `str(n)` for a natural number: canonical, and "0" only for zero. */
  function NatToString(n: nat): (r: string)
    ensures CanonicalNat(r)
    ensures n > 0 ==> r[0] != '0'
  {
    if n < 10 then [DigitChar(n)]
    else
      var r := NatToString(n / 10) + [DigitChar(n % 10)];
      assert r[0] == NatToString(n / 10)[0];
      r
  }

  /** `str(i)` for an integer: a minus sign for negatives, then the digits. */
  function IntToString(i: int): (r: string)
    ensures CanonicalInt(r)
    ensures i < 0 <==> r[0] == '-'
  {
    if i < 0 then
      var r := "-" + NatToString(-i);
      assert r[1..] == NatToString(-i);
      r
    else NatToString(i)
  }

  /** `int(s)` for a string of decimal digits. */
  function ParseNat(s: string): nat
    requires forall i :: 0 <= i < |s| ==> IsDigit(s[i])
  {
    if |s| == 0 then 0 else ParseNat(s[..|s| - 1]) * 10 + DigitValue(s[|s| - 1])
  }

  /** `int(s)` for an optionally signed decimal numeral. */
  function ParseInt(s: string): int
    requires |s| > 0
    requires forall i :: 1 <= i < |s| ==> IsDigit(s[i])
    requires s[0] == '-' || IsDigit(s[0])
  {
    if s[0] == '-' then -(ParseNat(s[1..]) as int) else ParseNat(s)
  }

  lemma {:induction false} NatToStringRoundTrip(n: nat)
    ensures ParseNat(NatToString(n)) == n
  {
    if n >= 10 {
      NatToStringRoundTrip(n / 10);
      var s := NatToString(n);
      assert s[..|s| - 1] == NatToString(n / 10);
    }
  }

  /** `int(str(i)) == i`: the decimal rendering loses nothing. */
  lemma IntToStringRoundTrip(i: int)
    ensures var s := IntToString(i);
      (forall k :: 1 <= k < |s| ==> IsDigit(s[k])) && (s[0] == '-' || IsDigit(s[0]))
      && ParseInt(s) == i
  {
    var s := IntToString(i);
    assert (forall k :: 1 <= k < |s| ==> IsDigit(s[k])) && (s[0] == '-' || IsDigit(s[0])) by {
      CanonicalIntIsIntToString(s);
    }
    if i < 0 {
      var t := NatToString(-i);
      assert s[1..] == t;
      assert ParseNat(t) == -i by {
        NatToStringRoundTrip(-i);
      }
    } else {
      NatToStringRoundTrip(i);
    }
  }

  /** A numeral with no leading zero has a non-zero value. */
  lemma {:induction false} ParseNatPositive(s: string)
    requires |s| > 0 && (forall i :: 0 <= i < |s| ==> IsDigit(s[i])) && s[0] != '0'
    ensures ParseNat(s) > 0
  {
    if |s| > 1 {
      ParseNatPositive(s[..|s| - 1]);
    }
  }

  /** A canonical numeral is `str` of its own value: `str` writes each
      natural number in exactly one way. */
  lemma {:induction false} CanonicalNatIsNatToString(s: string)
    requires CanonicalNat(s)
    ensures s == NatToString(ParseNat(s))
  {
    if |s| > 1 {
      var p := s[..|s| - 1];
      assert p[0] == s[0];
      CanonicalNatIsNatToString(p);
      ParseNatPositive(p);
      var n := ParseNat(s);
      assert n / 10 == ParseNat(p) && n % 10 == DigitValue(s[|s| - 1]);
      assert s == p + [s[|s| - 1]];
    }
  }

  /** A canonical signed numeral is `str` of its own value. */
  lemma CanonicalIntIsIntToString(s: string)
    requires CanonicalInt(s)
    ensures (forall k :: 1 <= k < |s| ==> IsDigit(s[k])) && (s[0] == '-' || IsDigit(s[0]))
    ensures s == IntToString(ParseInt(s))
  {
    if s[0] == '-' {
      var t := s[1..];
      assert forall k :: 1 <= k < |s| ==> s[k] == t[k - 1];
      ParseNatPositive(t);
      CanonicalNatIsNatToString(t);
      assert s == "-" + t;
    } else {
      CanonicalNatIsNatToString(s);
    }
  }
}
