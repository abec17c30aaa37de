/**
 * The JavaScript string and number built-ins the MRZ validator relies on:
 * `substring` and `slice` (which clamp their bounds), `parseInt` (which reads a
 * leading run of decimal digits and yields NaN when there is none), `String(n)`
 * for the numbers `parseInt` returns, and `split` on one separator character.
 */
module JsText {
  import opened Wrappers

  function Min(a: int, b: int): int { if a <= b then a else b }
  function Max(a: int, b: int): int { if a <= b then b else a }

  predicate IsDigit(c: char) { '0' <= c <= '9' }

  function DigitValue(c: char): (v: int)
    requires IsDigit(c)
    ensures 0 <= v <= 9
  {
    c as int - '0' as int
  }

  lemma DigitValueInjective(a: char, b: char)
    requires IsDigit(a) && IsDigit(b) && a != b
    ensures DigitValue(a) != DigitValue(b)
  {
  }

  /** `s.substring(start, end)` for non-negative bounds: both are clamped to the
      length and swapped when `start > end`. */
  function Substring(s: string, start: nat, end: nat): (r: string)
    ensures Max(start, end) <= |s| ==> r == s[Min(start, end)..Max(start, end)]
    ensures Min(start, end) <= |s| <= Max(start, end) ==> r == s[Min(start, end)..]
    ensures |s| <= Min(start, end) ==> r == []
    ensures |r| <= Max(start, end) - Min(start, end)
  {
    s[Min(Min(start, end), |s|)..Min(Max(start, end), |s|)]
  }

  lemma SliceSnoc(s: string, i: nat, j: nat)
    requires i <= j < |s|
    ensures s[i..j] + [s[j]] == s[i..j + 1]
  {
  }

  /** `s.slice(0, n)` for `n >= 0`: the first `n` characters, or all of them. */
  function Prefix(s: string, n: nat): (r: string)
    ensures |r| == Min(n, |s|)
    ensures r <= s
  {
    s[..Min(n, |s|)]
  }

  /** ECMAScript's StrWhiteSpaceChar: white space and line terminators, which
      `parseInt` skips at the front of its argument. Below U+00A0 these are the
      space and TAB, LF, VT, FF, CR (U+0009..U+000D). */
  predicate IsJsWhiteSpace(c: char) {
    if c <= ' ' then
      c == ' ' || '\t' <= c <= '\r'
    else if c < '\U{A0}' then
      false
    else
      c == '\U{A0}' || c == '\U{1680}' || ('\U{2000}' <= c <= '\U{200A}')
        || c == '\U{2028}' || c == '\U{2029}' || c == '\U{202F}' || c == '\U{205F}'
        || c == '\U{3000}' || c == '\U{FEFF}'
  }

  /** `s` without its leading white space. */
  function TrimStart(s: string): string {
    if s != [] && IsJsWhiteSpace(s[0]) then TrimStart(s[1..]) else s
  }

  /** The longest prefix of `s` made of decimal digits. */
  function LeadingDigits(s: string): (r: string)
    ensures r <= s
    ensures forall k :: 0 <= k < |r| ==> IsDigit(r[k])
    ensures |r| == |s| || !IsDigit(s[|r|])
  {
    if s != [] && IsDigit(s[0]) then [s[0]] + LeadingDigits(s[1..]) else []
  }

  /** The number a string of decimal digits denotes. */
  function DecimalValue(ds: string): (v: nat)
    requires forall k :: 0 <= k < |ds| ==> IsDigit(ds[k])
  {
    if ds == [] then 0 else 10 * DecimalValue(ds[..|ds| - 1]) + DigitValue(ds[|ds| - 1])
  }

  /** `parseInt(s, 10)`; `None` is NaN. (`parseInt(s)` without a radix agrees with
      it on every argument shorter than two characters, which is how the
      validator uses it.) */
  function ParseInt(s: string): Option<int> {
    var t := TrimStart(s);
    var negative := t != [] && t[0] == '-';
    var rest := if t != [] && (t[0] == '-' || t[0] == '+') then t[1..] else t;
    var ds := LeadingDigits(rest);
    if ds == [] then None
    else
      var v: int := DecimalValue(ds);
      Some(if negative then -v else v)
  }

  lemma TrimStartOfChar(c: char)
    ensures TrimStart([c]) == if IsJsWhiteSpace(c) then [] else [c]
  {
    assert [c][1..] == [];
  }

  lemma ParseIntOfChar(c: char)
    ensures ParseInt([c]) == if IsDigit(c) then Some(DigitValue(c)) else None
  {
    TrimStartOfChar(c);
    var t := TrimStart([c]);
    if IsDigit(c) {
      assert t == [c];
      assert LeadingDigits(t) == [c] by { assert t[1..] == []; }
      assert DecimalValue([c]) == DigitValue(c) by { assert [c][..0] == []; }
    } else if t == [c] {
      assert c == '-' || c == '+' ==> t[1..] == [];
    }
  }

  lemma ParseIntOfTwoDigits(s: string)
    requires |s| == 2 && IsDigit(s[0]) && IsDigit(s[1])
    ensures ParseInt(s) == Some(10 * DigitValue(s[0]) + DigitValue(s[1]))
  {
    assert s[1..][1..] == [];
    assert TrimStart(s) == s;
    assert LeadingDigits(s[1..]) == s[1..];
    assert LeadingDigits(s) == s;
    assert s[..1][..0] == [];
    assert DecimalValue(s[..1]) == DigitValue(s[0]);
  }

  lemma {:induction false} TrimStartShorter(s: string)
    ensures |TrimStart(s)| <= |s|
  {
    if s != [] && IsJsWhiteSpace(s[0]) { TrimStartShorter(s[1..]); }
  }

  lemma DecimalValueOfShort(ds: string)
    requires |ds| <= 2 && forall k :: 0 <= k < |ds| ==> IsDigit(ds[k])
    ensures DecimalValue(ds) <= if |ds| <= 1 then 9 else 99
  {
    if |ds| == 2 { assert ds[..1][..0] == []; }
    else if |ds| == 1 { assert ds[..0] == []; }
  }

  /** `parseInt` of at most two characters lies in -9..99. */
  lemma ParseIntOfShort(s: string)
    requires |s| <= 2
    ensures ParseInt(s).Some? ==> -9 <= ParseInt(s).value <= 99
  {
    TrimStartShorter(s);
    var t := TrimStart(s);
    var rest := if t != [] && (t[0] == '-' || t[0] == '+') then t[1..] else t;
    var ds := LeadingDigits(rest);
    if ds != [] {
      DecimalValueOfShort(ds);
    }
  }

  /** The decimal text of a natural number, as `String(n)` writes it. */
  function NatText(n: nat): (r: string)
    ensures r != []
    ensures forall k :: 0 <= k < |r| ==> IsDigit(r[k])
  {
    var last := ('0' as int + n % 10) as char;
    if n < 10 then [last] else NatText(n / 10) + [last]
  }

  /** `String(x)` for a number `parseInt` produced: NaN prints as "NaN". */
  function NumberText(x: Option<int>): (r: string)
    ensures x == None ==> r == "NaN"
  {
    match x
    case None => "NaN"
    case Some(n) => if n < 0 then "-" + NatText(-n) else NatText(n)
  }

  lemma {:induction false} NatTextRoundTrip(n: nat)
    ensures DecimalValue(NatText(n)) == n
  {
    var t := NatText(n);
    if n >= 10 {
      NatTextRoundTrip(n / 10);
      assert t[..|t| - 1] == NatText(n / 10);
    }
  }

  lemma DigitTextRoundTrip(c: char)
    requires IsDigit(c)
    ensures NumberText(ParseInt([c])) == [c]
  {
    ParseIntOfChar(c);
  }

  /** `s.split(sep)` for a one-character separator. */
  function Split(s: string, sep: char): (parts: seq<string>)
    ensures |parts| >= 1
    ensures SeparatorFree(parts, sep)
    decreases |s|
  {
    if s == [] then [[]]
    else
      var init := Split(s[..|s| - 1], sep);
      var c := s[|s| - 1];
      if c == sep then init + [[]]
      else init[..|init| - 1] + [init[|init| - 1] + [c]]
  }

  /** `parts.join(sep)`, the inverse of `Split`. */
  function Join(parts: seq<string>, sep: char): string
    requires |parts| >= 1
  {
    if |parts| == 1 then parts[0]
    else Join(parts[..|parts| - 1], sep) + [sep] + parts[|parts| - 1]
  }

  lemma SplitSnoc(t: string, c: char, sep: char)
    ensures var p := Split(t, sep);
      Split(t + [c], sep) == if c == sep then p + [[]] else p[..|p| - 1] + [p[|p| - 1] + [c]]
  {
    assert (t + [c])[..|t|] == t;
  }

  lemma JoinSnoc(parts: seq<string>, c: char, sep: char)
    requires |parts| >= 1
    ensures var n := |parts|;
      Join(parts[..n - 1] + [parts[n - 1] + [c]], sep) == Join(parts, sep) + [c]
  {
    var n := |parts|;
    var q := parts[..n - 1] + [parts[n - 1] + [c]];
    assert q[..n - 1] == parts[..n - 1];
  }

  lemma {:induction false} JoinSplit(s: string, sep: char)
    ensures Join(Split(s, sep), sep) == s
    decreases |s|
  {
    if s != [] {
      var s', c := s[..|s| - 1], s[|s| - 1];
      assert s == s' + [c];
      var p := Split(s', sep);
      JoinSplit(s', sep);
      SplitSnoc(s', c, sep);
      if c == sep {
        assert (p + [[]])[..|p|] == p;
      } else {
        JoinSnoc(p, c, sep);
      }
    }
  }

  /** No part of `parts` contains the separator. */
  predicate SeparatorFree(parts: seq<string>, sep: char) {
    forall i :: 0 <= i < |parts| ==> sep !in parts[i]
  }

  lemma SeparatorFreeParts(parts: seq<string>, sep: char)
    requires |parts| >= 1 && SeparatorFree(parts, sep)
    ensures var n, last := |parts|, parts[|parts| - 1];
      SeparatorFree(parts[..n - 1], sep)
      && (last != [] ==> SeparatorFree(parts[..n - 1] + [last[..|last| - 1]], sep))
  {
    var n, last := |parts|, parts[|parts| - 1];
    assert forall i :: 0 <= i < n - 1 ==> parts[..n - 1][i] == parts[i];
    if last != [] {
      var shorter := parts[..n - 1] + [last[..|last| - 1]];
      forall i | 0 <= i < n
        ensures sep !in shorter[i]
      {
        if i < n - 1 { assert shorter[i] == parts[i]; }
      }
    }
  }

  lemma {:induction false} SplitJoin(parts: seq<string>, sep: char)
    requires |parts| >= 1
    requires SeparatorFree(parts, sep)
    ensures Split(Join(parts, sep), sep) == parts
    decreases |parts|, |parts[|parts| - 1]|
  {
    var init, last := parts[..|parts| - 1], parts[|parts| - 1];
    SeparatorFreeParts(parts, sep);
    if last == [] {
      if |parts| > 1 {
        SplitJoin(init, sep);
        SplitJoinEmptyLast(parts, sep);
      }
    } else {
      SplitJoin(init + [last[..|last| - 1]], sep);
      SplitJoinLongerLast(parts, sep);
    }
  }

  /** The step of `SplitJoin` that appends an empty last part. */
  lemma SplitJoinEmptyLast(parts: seq<string>, sep: char)
    requires |parts| > 1 && parts[|parts| - 1] == []
    requires Split(Join(parts[..|parts| - 1], sep), sep) == parts[..|parts| - 1]
    ensures Split(Join(parts, sep), sep) == parts
  {
    var init := parts[..|parts| - 1];
    assert Join(parts, sep) == Join(init, sep) + [sep];
    SplitSnoc(Join(init, sep), sep, sep);
    assert parts == init + [[]];
  }

  /** The step of `SplitJoin` that appends one character to the last part. */
  lemma SplitJoinLongerLast(parts: seq<string>, sep: char)
    requires |parts| >= 1 && parts[|parts| - 1] != []
    requires sep !in parts[|parts| - 1]
    requires var last := parts[|parts| - 1];
      var shorter := parts[..|parts| - 1] + [last[..|last| - 1]];
      Split(Join(shorter, sep), sep) == shorter
    ensures Split(Join(parts, sep), sep) == parts
  {
    var init, last := parts[..|parts| - 1], parts[|parts| - 1];
    var c := last[|last| - 1];
    var shorter := init + [last[..|last| - 1]];
    var n := |shorter|;
    assert shorter[..n - 1] == init && shorter[n - 1] == last[..|last| - 1];
    assert last[..|last| - 1] + [c] == last;
    assert init + [last] == parts;
    JoinSnoc(shorter, c, sep);
    var joined := Join(shorter, sep);
    SplitSnoc(joined, c, sep);
  }

  /** The last part of `Split(s, sep)` is the text after the last separator. */
  lemma {:induction false} LastPartIsTail(s: string, sep: char)
    ensures var parts := Split(s, sep);
      var last := parts[|parts| - 1];
      |last| <= |s| && s[|s| - |last|..] == last
      && (|last| == |s| || s[|s| - |last| - 1] == sep)
    decreases |s|
  {
    if s != [] {
      LastPartIsTail(s[..|s| - 1], sep);
    }
  }
}
