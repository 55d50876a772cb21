/**
 * Decimal digits as the source reads and writes them: the `\d` class of a
 * JavaScript regular expression (ASCII digits only), `parseInt(s, 10)` on a
 * run of such digits, and the rendering of an integer inside a template
 * literal.
 */
module Decimal {

  predicate IsDigit(c: char) {
    '0' <= c <= '9'
  }

  predicate AllDigits(s: string) {
    forall i :: 0 <= i < |s| ==> IsDigit(s[i])
  }

  function DigitValue(c: char): nat
    requires IsDigit(c)
  {
    c as int - '0' as int
  }

  function Digit(d: nat): (c: char)
    requires d < 10
    ensures IsDigit(c) && DigitValue(c) == d
  {
    ('0' as int + d) as char
  }

  /** `parseInt(s, 10)` of a digit string, read most significant digit first (exact). */
  function Value(s: string): (r: nat)
    requires AllDigits(s)
    ensures |s| > 0 && DigitValue(s[0]) > 0 ==> r > 0
  {
    if |s| == 0 then 0 else 10 * Value(s[..|s| - 1]) + DigitValue(s[|s| - 1])
  }

  /** The decimal text of a non-negative integer: digits only, no leading zero, read back by `Value`. */
  function Show(n: nat): (r: string)
    ensures |r| > 0 && AllDigits(r)
    ensures Value(r) == n
    ensures r[0] == '0' ==> n == 0
    decreases n
  {
    if n < 10 then [Digit(n)] else Show(n / 10) + [Digit(n % 10)]
  }

  /**
   * The other direction of the round trip: a digit string without a leading
   * zero is exactly the rendering of the number it reads as.
   */
  lemma {:induction false} ShowValue(s: string)
    requires |s| > 0 && AllDigits(s) && (s[0] == '0' ==> |s| == 1)
    ensures Show(Value(s)) == s
    decreases |s|
  {
    var last := s[|s| - 1];
    assert Digit(DigitValue(last)) == last;
    if |s| > 1 {
      var p := s[..|s| - 1];
      assert p[0] == s[0];
      ShowValue(p);
      var v := Value(s);
      assert v == 10 * Value(p) + DigitValue(last);
      assert v / 10 == Value(p) && v % 10 == DigitValue(last);
      assert s == p + [last];
    }
  }

  /** The decimal text of any integer, with a leading '-' for negative values. */
  function ShowInt(i: int): (r: string)
    ensures i >= 0 ==> r == Show(i)
    ensures i < 0 ==> |r| > 1 && r[0] == '-' && r[1..] == Show(-i)
  {
    if i < 0 then "-" + Show(-i) else Show(i)
  }

  /** Where the greedy `\d*` that starts at `i` stops: the end of the maximal run of digits. */
  function RunEnd(s: string, i: nat): (j: nat)
    requires i <= |s|
    ensures i <= j <= |s|
    ensures AllDigits(s[i..j])
    ensures j == |s| || !IsDigit(s[j])
    decreases |s| - i
  {
    if i < |s| && IsDigit(s[i]) then RunEnd(s, i + 1) else i
  }

  /** A run of digits followed by a non-digit (or the end) is exactly what `RunEnd` finds. */
  lemma RunEndUnique(s: string, i: nat, j: nat)
    requires i <= j <= |s|
    requires AllDigits(s[i..j])
    requires j == |s| || !IsDigit(s[j])
    ensures RunEnd(s, i) == j
  {
  }

  /** The greedy run reaches at least as far as any run of digits from the same start. */
  lemma {:induction false} RunEndCovers(s: string, i: nat, j: nat)
    requires i <= j <= |s|
    requires AllDigits(s[i..j])
    ensures j <= RunEnd(s, i)
    decreases j - i
  {
    if i < j {
      assert IsDigit(s[i..j][0]);
      assert s[i + 1..j] == s[i..j][1..];
      RunEndCovers(s, i + 1, j);
    }
  }

  /** A digit string followed by a non-digit or nothing is read whole by the greedy `\d+`. */
  lemma DigitsRun(p: string, t: string, rest: string)
    requires AllDigits(t)
    requires rest == [] || !IsDigit(rest[0])
    ensures RunEnd(p + t + rest, |p|) == |p| + |t|
    ensures (p + t + rest)[|p|..|p| + |t|] == t
  {
    var s := p + t + rest;
    assert s[|p|..|p| + |t|] == t;
    assert |p| + |t| < |s| ==> s[|p| + |t|] == rest[0];
    RunEndUnique(s, |p|, |p| + |t|);
  }

  /** The rendering of a number, followed by a non-digit or nothing, is read back whole by the greedy `\d+`. */
  lemma ShowRun(p: string, n: nat, rest: string)
    requires rest == [] || !IsDigit(rest[0])
    ensures RunEnd(p + Show(n) + rest, |p|) == |p| + |Show(n)|
    ensures (p + Show(n) + rest)[|p|..|p| + |Show(n)|] == Show(n)
  {
    DigitsRun(p, Show(n), rest);
  }
}
