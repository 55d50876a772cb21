/**
 * Properties of the dice model: what the expression parser accepts, the
 * order in which it reports errors, the rendering round trip, the setters'
 * state machine and the range of the draws.
 */
module DiceLemmas {
  import opened Wrappers
  import opened Errors
  import Decimal
  import DiceMod
  import DiceModRoundTrip
  import DiceModProperties
  import opened Dice

  /* ---------------------------------------------------------------------- */
  /* The expression regular expression                                       */
  /* ---------------------------------------------------------------------- */

  /** Completeness: whenever some decomposition fits, the match succeeds, with the count running up to that `d`. */
  lemma MatchExpressionComplete(s: string, i: int, j: int)
    requires Fits(s, i, j)
    ensures MatchExpression(s).Some?
    ensures |CountText(MatchExpression(s).value)| == i
  {
    Decimal.RunEndUnique(s, 0, i);
    if !(j == i + 2 && (s[i + 1] == 'f' || s[i + 1] == 'F')) {
      assert Decimal.IsDigit(s[i + 1..j][0]);
      Decimal.RunEndCovers(s, i + 1, j);
      var e := Decimal.RunEnd(s, i + 1);
      assert s[e..] == s[j..][e - j..];
    }
  }

  /** The regular expression matches exactly the strings that some decomposition fits. */
  lemma MatchExpressionIff(s: string)
    ensures MatchExpression(s).Some? <==> exists i, j :: Fits(s, i, j)
  {
    if exists i, j :: Fits(s, i, j) {
      var i, j :| Fits(s, i, j);
      MatchExpressionComplete(s, i, j);
    }
  }

  /**
   * The captures split the string: the count, the letter `d`, the faces and
   * the modifiers, in that order and with nothing left over. The match is the
   * greedy one: the count takes every leading digit (and is absent only when
   * the string starts with the `d`), and numeric faces take every digit that
   * follows.
   */
  lemma MatchExpressionSplits(s: string)
    requires MatchExpression(s).Some?
    ensures var m := MatchExpression(s).value; var i := |CountText(m)|;
      && s == CountText(m) + [s[i]] + m.faces + m.rest
      && Decimal.RunEnd(s, 0) == i
      && (m.count.Some? <==> i > 0)
      && (Decimal.IsDigit(m.faces[0]) ==> var j := i + 1 + |m.faces|; j == |s| || !Decimal.IsDigit(s[j]))
  {
    var m := MatchExpression(s).value;
    var i := |CountText(m)|;
    var j := i + 1 + |m.faces|;
    SplitFour(s, i, j);
  }

  lemma SplitFour(s: string, i: nat, j: nat)
    requires i < j <= |s|
    ensures s == s[..i] + [s[i]] + s[i + 1..j] + s[j..]
  {
    assert s[..i] + [s[i]] == s[..i + 1];
    assert s[..i + 1] + s[i + 1..j] == s[..j];
  }

  /* ---------------------------------------------------------------------- */
  /* Construction                                                            */
  /* ---------------------------------------------------------------------- */

  /** No expression, or the empty one, is a plain 1d20 without modifiers. */
  lemma NewDefault(dev: Device)
    ensures New(None, dev) == Success(Dice(1, 20, false, 1, DiceMod.Unset, None, [], [], dev))
    ensures New(Some(""), dev) == New(None, dev)
    ensures New(None, dev).value.D() == 20
  {
  }

  /** An expression the regular expression rejects fails with `InvalidExpression`. */
  lemma NewRejects(s: string, dev: Device)
    requires s != ""
    requires forall i, j :: !Fits(s, i, j)
    ensures New(Some(s), dev) == Failure(InvalidExpression(s))
  {
    MatchExpressionIff(s);
  }

  /**
   * The modifiers are parsed before the count and the faces are checked, so
   * a modifier error is reported even when both numbers are out of range.
   */
  lemma ModifierErrorFirst(s: string, dev: Device)
    requires s != "" && MatchExpression(s).Some?
    requires DiceMod.Parse(Some(MatchExpression(s).value.rest)).Failure?
    ensures New(Some(s), dev) == Failure(DiceMod.Parse(Some(MatchExpression(s).value.rest)).error)
  {
  }

  /* ---------------------------------------------------------------------- */
  /* Rendering round trip                                                    */
  /* ---------------------------------------------------------------------- */

  /** The dice a valid state renders to, rebuilt fresh: same count, faces, fate flag and modifiers, no history. */
  function Rebuilt(x: Dice, dev: Device): Dice {
    x.(result := None, rolls := [], rawRolls := [], device := dev)
  }

  /** Round trip: constructing from `toString` gives back the same count, faces, fate flag and modifiers. */
  lemma RoundTrip(x: Dice, dev: Device)
    requires Valid(x)
    ensures New(Some(ToString(x)), dev) == Success(Rebuilt(x, dev))
  {
    var rest := DiceMod.ToString(x.mods);
    ModifierTextShape(x.mods);
    DiceModRoundTrip.RoundTrip(x.mods);
    assert CheckN(Decimal.Value(Decimal.Show(x.count))) == Success(x.count);
    if x.fate {
      RoundTripFate(x, dev, rest);
    } else {
      RoundTripPlain(x, dev, rest);
    }
  }

  /**
   * What the constructor builds from a matched fate expression (`f` or `F`)
   * whose modifiers and count are accepted; a missing count is one die.
   */
  lemma NewFate(s: string, dev: Device, m: ExprMatch, mods: DiceMod.Modifiers, n: nat)
    requires s != "" && MatchExpression(s) == Some(m)
    requires DiceMod.Parse(Some(m.rest)) == Success(mods)
    requires n == (if m.count.None? then 1 else Decimal.Value(m.count.value)) && n <= MaxN
    requires m.IsFate()
    ensures New(Some(s), dev) == Success(SetFate(Fresh(n, 0, mods, dev), true))
  {
  }

  lemma RoundTripFate(x: Dice, dev: Device, rest: string)
    requires Valid(x) && x.fate
    requires rest == DiceMod.ToString(x.mods) && NoLineTerminator(rest)
    requires DiceMod.Parse(Some(rest)) == Success(x.mods)
    ensures New(Some(ToString(x)), dev) == Success(Rebuilt(x, dev))
  {
    var s := ToString(x);
    var count := Decimal.Show(x.count);
    assert s == count + "d" + "F" + rest;
    MatchRenderedFate(x.count, rest);
    NewFate(s, dev, ExprMatch(Some(count), "F", rest), x.mods, x.count);
  }

  /**
   * What the constructor builds from a matched numeric expression whose
   * modifiers, count and faces are accepted; a missing count is one die.
   */
  lemma NewPlain(s: string, dev: Device, m: ExprMatch, mods: DiceMod.Modifiers, n: nat, d: nat)
    requires s != "" && MatchExpression(s) == Some(m)
    requires DiceMod.Parse(Some(m.rest)) == Success(mods)
    requires n == (if m.count.None? then 1 else Decimal.Value(m.count.value)) && n <= MaxN
    requires !m.IsFate() && d == Decimal.Value(m.faces) && d <= MaxD
    ensures New(Some(s), dev) == Success(Fresh(n, d, mods, dev))
  {
  }

  lemma RoundTripPlain(x: Dice, dev: Device, rest: string)
    requires Valid(x) && !x.fate
    requires rest == DiceMod.ToString(x.mods) && (rest == [] || rest[0] == '!') && NoLineTerminator(rest)
    requires DiceMod.Parse(Some(rest)) == Success(x.mods)
    ensures New(Some(ToString(x)), dev) == Success(Rebuilt(x, dev))
  {
    var s := ToString(x);
    var count := Decimal.Show(x.count);
    var faces := Decimal.Show(x.faces);
    assert s == count + "d" + faces + rest;
    MatchRenderedDigits(x.count, faces, rest);
    assert faces != "f" && faces != "F" by {
      assert Decimal.IsDigit(faces[0]);
    }
    NewPlain(s, dev, ExprMatch(Some(count), faces, rest), x.mods, x.count, x.faces);
  }

  /** The match of "d" followed by a face number: no count capture. */
  lemma MatchFacesOnly(d: nat)
    ensures MatchExpression("d" + Decimal.Show(d)) == Some(ExprMatch(None, Decimal.Show(d), ""))
  {
    MatchDigitFaces(Decimal.Show(d));
  }

  /** The match of "d" followed by any run of digits. */
  lemma MatchDigitFaces(t: string)
    requires |t| > 0 && Decimal.AllDigits(t)
    ensures MatchExpression("d" + t) == Some(ExprMatch(None, t, ""))
  {
    var s := "d" + t;
    Decimal.DigitsRun("d", t, []);
    assert s + [] == s;
    assert Decimal.RunEnd(s, 0) == 0;
    assert s[1] == t[0];
    assert s[1..] == t;
  }

  /** Without a count the expression is one die, as in "d6". */
  lemma CountDefaultsToOne(d: nat, dev: Device)
    requires d <= MaxD
    ensures New(Some("d" + Decimal.Show(d)), dev) == Success(Fresh(1, d, DiceMod.Unset, dev))
  {
    var s := "d" + Decimal.Show(d);
    MatchFacesOnly(d);
    DiceModProperties.ParseAbsentOrEmpty();
    assert Decimal.IsDigit(Decimal.Show(d)[0]);
    NewPlain(s, dev, ExprMatch(None, Decimal.Show(d), ""), DiceMod.Unset, 1, d);
  }

  /** The match of "d" then a fate letter: no count, the letter as faces, no modifiers. */
  lemma MatchFateLetter(s: string)
    requires s == "dF" || s == "df"
    ensures MatchExpression(s) == Some(ExprMatch(None, s[1..], ""))
  {
    assert !Decimal.IsDigit(s[0]);
    assert Decimal.RunEnd(s, 0) == 0;
    assert FacesEnd(s, 1) == 2;
    assert s[1..2] == s[1..];
    assert s[2..] == "" && NoLineTerminator(s[2..]);
  }

  /** The match of "2df": the count "2", faces "f", no modifiers. */
  lemma MatchCountedFate()
    ensures MatchExpression("2df") == Some(ExprMatch(Some("2"), "f", ""))
  {
    var s := "2df";
    Decimal.RunEndUnique(s, 0, 1);
    assert FacesEnd(s, 2) == 3;
    assert s[..1] == "2" && s[2..3] == "f" && s[3..] == "";
  }

  /** The fate letter is accepted in either case, and a missing count is one die. */
  lemma FateEitherCase(dev: Device)
    ensures New(Some("dF"), dev) == Success(SetFate(Fresh(1, 0, DiceMod.Unset, dev), true))
    ensures New(Some("df"), dev) == New(Some("dF"), dev)
    ensures New(Some("2df"), dev) == Success(SetFate(Fresh(2, 0, DiceMod.Unset, dev), true))
  {
    DiceModProperties.ParseAbsentOrEmpty();
    MatchFateLetter("dF");
    MatchFateLetter("df");
    MatchCountedFate();
    assert Decimal.Value("2") == 2;
    NewFate("dF", dev, ExprMatch(None, "F", ""), DiceMod.Unset, 1);
    NewFate("df", dev, ExprMatch(None, "f", ""), DiceMod.Unset, 1);
    NewFate("2df", dev, ExprMatch(Some("2"), "f", ""), DiceMod.Unset, 2);
  }

  /** The match of a count followed by numeric faces and nothing else. */
  lemma MatchCountFaces(c: nat, d: nat)
    ensures var s := Decimal.Show(c) + "d" + Decimal.Show(d);
      && s != ""
      && MatchExpression(s) == Some(ExprMatch(Some(Decimal.Show(c)), Decimal.Show(d), ""))
      && !MatchExpression(s).value.IsFate()
  {
    MatchRenderedDigits(c, Decimal.Show(d), "");
    assert Decimal.Show(c) + "d" + Decimal.Show(d) + "" == Decimal.Show(c) + "d" + Decimal.Show(d);
    assert Decimal.IsDigit(Decimal.Show(d)[0]);
  }

  /** The count is checked before the faces: with both out of range, the count's error is the one reported. */
  lemma CountErrorBeforeFaces(c: nat, d: nat, dev: Device)
    requires c > MaxN && d > MaxD
    ensures New(Some(Decimal.Show(c) + "d" + Decimal.Show(d)), dev) == Failure(OutOfRange("n", MaxN, c))
  {
    MatchCountFaces(c, d);
    DiceModProperties.ParseAbsentOrEmpty();
    assert CheckN(Decimal.Value(Decimal.Show(c))) == Failure(OutOfRange("n", MaxN, c));
  }

  /** A face count above the bound is reported as `d` once the count is in range. */
  lemma FacesOutOfRange(c: nat, d: nat, dev: Device)
    requires c <= MaxN && d > MaxD
    ensures New(Some(Decimal.Show(c) + "d" + Decimal.Show(d)), dev) == Failure(OutOfRange("d", MaxD, d))
  {
    MatchCountFaces(c, d);
    DiceModProperties.ParseAbsentOrEmpty();
    assert CheckN(Decimal.Value(Decimal.Show(c))) == Success(c);
    assert CheckD(Decimal.Value(Decimal.Show(d))) == Failure(OutOfRange("d", MaxD, d));
  }

  /* ---------------------------------------------------------------------- */
  /* The setters                                                             */
  /* ---------------------------------------------------------------------- */

  /**
   * Turning a plain die into a fate die makes it roll in `[-1, 1]` and report
   * 3 faces; turning it back makes it a d3 rolling from 1, whatever it had
   * before. The count and the modifiers survive both.
   */
  lemma FateOnThenOff(x: Dice)
    requires Valid(x) && !x.fate
    ensures var y := SetFate(x, true);
      y.minRoll == -1 && y.faces == 1 && y.D() == 3 && y.count == x.count && y.mods == x.mods
    ensures var z := SetFate(SetFate(x, true), false);
      !z.fate && z.minRoll == 1 && z.faces == 3 && z.D() == 3 && z.count == x.count && z.mods == x.mods
  {
  }

  /** Setting the faces of a fate die turns it back into a plain die with exactly those faces. */
  lemma SetDClearsFate(x: Dice, v: int)
    requires Valid(x) && x.fate && 0 <= v <= MaxD
    ensures SetD(x, v).Success?
    ensures var y := SetD(x, v).value; !y.fate && y.faces == v && y.minRoll == 1 && Valid(y)
    ensures SetFate(SetD(x, v).value, false) == SetD(x, v).value
  {
  }

  /* ---------------------------------------------------------------------- */
  /* The draws                                                               */
  /* ---------------------------------------------------------------------- */

  /**
   * The range of one die of a valid state: a fate die draws from `[-1, 1]`,
   * a plain die with at least one face from `[1, faces]`.
   */
  lemma RollRange(x: Dice, k: nat)
    requires Valid(x) && Honest(x.device) && x.faces >= 1
    ensures forall v :: v in Draws(x.device, k, x.faces, x.minRoll) ==>
      if x.fate then -1 <= v <= 1 else 1 <= v <= x.faces
  {
    var r := Draws(x.device, k, x.faces, x.minRoll);
    forall v | v in r
      ensures if x.fate then -1 <= v <= 1 else 1 <= v <= x.faces
    {
      var i :| 0 <= i < |r| && r[i] == v;
    }
  }

  /** Rolling a d6 a hundred times with an honest device gives a hundred values in `[1, 6]`. */
  method RollHundredD6(dev: Device) returns (r: Result<seq<int>, Error>)
    requires Honest(dev)
    ensures r.Success? && |r.value| == 100
    ensures forall v :: v in r.value ==> 1 <= v <= 6
  {
    var next;
    r, next := RollMany(6, Some(100), dev);
    assert forall i :: 0 <= i < 100 ==> 1 <= r.value[i] <= 6;
  }

  /** The number of dice defaults to one, and a zero-faced die is accepted. */
  method RollDefaults(dev: Device) returns (one: Result<seq<int>, Error>, zero: Result<seq<int>, Error>)
    ensures one.Success? && |one.value| == 1
    ensures zero.Success? && |zero.value| == 1
  {
    var next;
    one, next := RollMany(20, None, dev);
    zero, next := RollMany(0, None, dev);
  }

  /* ---------------------------------------------------------------------- */
  /* checkD's message                                                        */
  /* ---------------------------------------------------------------------- */

  /** `checkD` as written accepts the same values as the corrected one, but blames `n` for a bad `d`. */
  lemma CheckDBlamesN(d: int)
    requires d < 0 || d > MaxD
    ensures CheckDAsWritten(d) == Failure(OutOfRange("n", MaxD, d))
    ensures CheckDAsWritten(d) != CheckD(d)
    ensures CheckD(d) == Failure(OutOfRange("d", MaxD, d))
  {
  }

  /** On an accepted value the two checks agree. */
  lemma CheckDAgree(d: int)
    ensures CheckDAsWritten(d).Success? <==> CheckD(d).Success?
    ensures CheckD(d).Success? ==> CheckDAsWritten(d) == CheckD(d)
  {
  }
}
