/**
 * The 7-3-1 check digit of ICAO Doc 9303 Part 3, section 4.9, as the
 * validator computes it: every character has a numeric value (digits their
 * own, `A`..`Z` the values 10..35, everything else 0), the values are weighted
 * 7, 3, 1, 7, 3, 1, ... by their position within the string being checked,
 * and the check digit is the weighted sum modulo 10.
 */
module CheckDigits {
  import opened Wrappers
  import opened JsText

  const Alphabet: string := "ABCDEFGHIJKLMNOPQRSTUVWXYZ"
  const Weights: seq<int> := [7, 3, 1]

  predicate IsUpper(c: char) { 'A' <= c <= 'Z' }

  /** `s.indexOf(c)`: the first position of `c` in `s`, or -1 when it is absent. */
  function IndexOf(s: string, c: char): (r: int)
    ensures r == -1 <==> c !in s
    ensures r != -1 ==> 0 <= r < |s| && s[r] == c && c !in s[..r]
  {
    if s == [] then -1
    else if s[0] == c then 0
    else
      var k := IndexOf(s[1..], c);
      if k == -1 then -1
      else
        assert s[..k + 1] == [s[0]] + s[1..][..k];
        k + 1
  }

  lemma AlphabetIndexOf(c: char)
    requires IsUpper(c)
    ensures IndexOf(Alphabet, c) == c as int - 'A' as int
  {
    AlphabetLetters();
    var k := c as int - 'A' as int;
    assert Alphabet[k] == c;
    var r := IndexOf(Alphabet, c);
    assert Alphabet[r] as int == 'A' as int + r;
  }

  /** The `k`-th letter of the alphabet is `'A' + k`. */
  lemma AlphabetLetters()
    ensures |Alphabet| == 26
    ensures forall k :: 0 <= k < |Alphabet| ==> Alphabet[k] as int == 'A' as int + k
  {
  }

  /** The value of one MRZ character: a digit is worth its own value, a capital
      letter its position in the alphabet plus 10, and every other character (the
      filler `<`, lower-case letters, white space) is worth 0. */
  function CharacterValue(c: char): (v: int)
    ensures 0 <= v <= 35
  {
    if '0' <= c <= '9' then c as int - '0' as int
    else if 'A' <= c <= 'Z' then c as int - 'A' as int + 10
    else 0
  }

  /** `getCharacterValue` reads a digit with `parseInt` and a letter with
      `alphabet.indexOf(char) + 10`; `CharacterValue` agrees with both. */
  lemma CharacterValueMatchesSource(c: char)
    ensures IsDigit(c) ==> ParseInt([c]) == Some(CharacterValue(c))
    ensures IsUpper(c) ==> CharacterValue(c) == IndexOf(Alphabet, c) + 10
    ensures IsDigit(c) ==> CharacterValue(c) == DigitValue(c)
    ensures IsUpper(c) ==> 10 <= CharacterValue(c) <= 35
    ensures !IsDigit(c) && !IsUpper(c) ==> CharacterValue(c) == 0
  {
    if IsDigit(c) {
      ParseIntOfChar(c);
    } else if IsUpper(c) {
      AlphabetIndexOf(c);
    }
  }

  /** The weight of position `i`: `weights[i % 3]`. */
  function Weight(i: nat): (w: int)
    ensures w == 7 || w == 3 || w == 1
  {
    Weights[i % 3]
  }

  /** The weighted sum of the values of `s`, position `i` weighted by `Weight(i)`. */
  function WeightedSum(s: string): (sum: int)
    ensures sum >= 0
  {
    if s == [] then 0
    else WeightedSum(s[..|s| - 1]) + CharacterValue(s[|s| - 1]) * Weight(|s| - 1)
  }

  /** The check digit of `s`. */
  function CheckDigit(s: string): (d: int)
    ensures 0 <= d <= 9
    ensures s == [] ==> d == 0
  {
    WeightedSum(s) % 10
  }

  /** The weighted sum of the first `n` characters of `s` when `s` starts at
      position `offset` of a longer string; computed by index, it lets the
      verifier evaluate check digits of short literal strings. */
  function SumUpTo(s: string, n: nat, offset: nat): int
    requires n <= |s|
  {
    if n == 0 then 0 else SumUpTo(s, n - 1, offset) + CharacterValue(s[n - 1]) * Weight(offset + n - 1)
  }

  lemma {:induction false} WeightedSumAppendPrefix(a: string, b: string, n: nat)
    requires n <= |b|
    ensures WeightedSum(a + b[..n]) == WeightedSum(a) + SumUpTo(b, n, |a|)
  {
    if n == 0 {
      assert a + b[..0] == a;
    } else {
      WeightedSumAppendPrefix(a, b, n - 1);
      var t := a + b[..n];
      assert t[..|t| - 1] == a + b[..n - 1];
      assert t[|t| - 1] == b[n - 1];
    }
  }

  /** The weighted sum of a concatenation: the second part's characters keep the
      weights of their positions in the whole. */
  lemma WeightedSumAppend(a: string, b: string)
    ensures WeightedSum(a + b) == WeightedSum(a) + SumUpTo(b, |b|, |a|)
  {
    WeightedSumAppendPrefix(a, b, |b|);
    assert b[..|b|] == b;
  }

  lemma WeightedSumByIndex(s: string)
    ensures WeightedSum(s) == SumUpTo(s, |s|, 0)
  {
    WeightedSumAppend([], s);
    assert [] + s == s;
  }

  /** `calculateCheckDigit`: the loop accumulating the weighted sum. */
  method CalculateCheckDigit(input: string) returns (d: int)
    ensures d == CheckDigit(input)
    ensures 0 <= d <= 9
  {
    var sum := 0;
    for i := 0 to |input|
      invariant sum == WeightedSum(input[..i])
    {
      var value := CharacterValue(input[i]);
      assert input[..i + 1][..i] == input[..i];
      sum := sum + value * Weights[i % 3];
    }
    assert input[..|input|] == input;
    d := sum % 10;
  }

  /** Replacing the character at `i` moves the weighted sum by the change in value
      times the weight of `i`. */
  lemma {:induction false} WeightedSumUpdate(s: string, i: nat, c: char)
    requires i < |s|
    ensures WeightedSum(s[i := c]) == WeightedSum(s) + (CharacterValue(c) - CharacterValue(s[i])) * Weight(i)
  {
    var n := |s|;
    var t := s[i := c];
    if i == n - 1 {
      assert t[..n - 1] == s[..n - 1];
    } else {
      assert t[..n - 1] == s[..n - 1][i := c];
      WeightedSumUpdate(s[..n - 1], i, c);
    }
  }

  lemma ModShift(k: int, m: int)
    ensures (10 * k + m) % 10 == m % 10
  {
  }

  /** Each weight is a unit modulo 10: multiplying by it keeps a number divisible
      by 10 exactly when it was. */
  lemma WeightIsUnit(x: int, w: int)
    requires w == 7 || w == 3 || w == 1
    ensures (x * w) % 10 == 0 <==> x % 10 == 0
  {
    var q, r := x / 10, x % 10;
    assert x == 10 * q + r;
    assert x * w == 10 * (q * w) + r * w;
    ModShift(q * w, r * w);
    assert 0 <= r < 10;
  }

  /** Moving a sum by `x` times a weight keeps its last decimal digit exactly when
      `x` is a multiple of 10. */
  lemma ShiftByWeight(a: int, x: int, w: int)
    requires w == 7 || w == 3 || w == 1
    ensures (a + x * w) % 10 == a % 10 <==> x % 10 == 0
  {
    var y := x * w;
    WeightIsUnit(x, w);
    var q, r := y / 10, y % 10;
    assert a + y == 10 * q + (a + r);
    ModShift(q, a + r);
    var p, m := a / 10, a % 10;
    assert a + r == 10 * p + (m + r);
    ModShift(p, m + r);
    assert 0 <= m < 10 && 0 <= r < 10;
  }

  /** A change of a single character changes the check digit exactly when the two
      characters' values differ modulo 10. */
  lemma SubstitutionChangesCheckDigit(s: string, i: nat, c: char)
    requires i < |s|
    ensures CheckDigit(s[i := c]) == CheckDigit(s)
        <==> (CharacterValue(c) - CharacterValue(s[i])) % 10 == 0
  {
    WeightedSumUpdate(s, i, c);
    ShiftByWeight(WeightedSum(s), CharacterValue(c) - CharacterValue(s[i]), Weight(i));
  }

  /** Every mistyped digit is caught: two different digits at the same position
      give different check digits. */
  lemma DigitSubstitutionDetected(s: string, i: nat, c: char)
    requires i < |s| && IsDigit(s[i]) && IsDigit(c) && c != s[i]
    ensures CheckDigit(s[i := c]) != CheckDigit(s)
  {
    SubstitutionChangesCheckDigit(s, i, c);
  }
}
