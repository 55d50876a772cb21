/** Properties of the modifier parser and renderer. */
module DiceModLemmas {
  import opened Wrappers
  import opened Errors
  import Decimal
  import Strings
  import opened DiceMod

  /**
   * How a token of category `c` with trigger `t` may be written: the
   * canonical rendering when `explicit` holds, and otherwise without the
   * comparator, which then reads back as `=`.
   */
  function Spelled(c: Category, t: Trigger, explicit: bool): string {
    match t.threshold
    case None => MarkerOf(c)
    case Some(n) => MarkerOf(c) + (if explicit then [Glyph(t.cp)] else []) + Decimal.Show(n)
  }

  /** Reading a remainder that no token matches. */
  lemma ParseNothingLeft(original: string, acc: Modifiers)
    ensures ParseFrom(original, "", acc) == Success(acc)
  {
  }

  /** The tail captures a token spelled with trigger `t` produces. */
  function TailFor(t: Trigger, explicit: bool): Tail {
    match t.threshold
    case None => Tail(None, None)
    case Some(n) => Tail(if explicit then Some(Glyph(t.cp)) else None, Some(Decimal.Show(n)))
  }

  lemma SpelledIsMarkerAndTail(c: Category, t: Trigger, explicit: bool)
    ensures Spelled(c, t, explicit) == MarkerOf(c) + TailFor(t, explicit).Text()
  {
  }

  /** The tail group reads back exactly the comparator and digits that were written. */
  lemma MatchTailSpelled(p: string, t: Trigger, explicit: bool, rest: string)
    requires rest == [] || rest[0] == '!'
    ensures MatchTail(p + TailFor(t, explicit).Text() + rest, |p|) == Some(TailFor(t, explicit))
  {
    match t.threshold
    case None =>
      assert TailFor(t, explicit).Text() == [];
      MatchTailBare(p, rest);
    case Some(n) =>
      var glyph: string := if explicit then [Glyph(t.cp)] else [];
      assert TailFor(t, explicit).Text() == glyph + Decimal.Show(n);
      assert p + TailFor(t, explicit).Text() + rest == p + glyph + Decimal.Show(n) + rest;
      if explicit {
        MatchTailCompared(p, t.cp, n, rest);
      } else {
        MatchTailDigits(p, n, rest);
      }
  }

  lemma MatchTailBare(p: string, rest: string)
    requires rest == [] || rest[0] == '!'
    ensures MatchTail(p + rest, |p|) == Some(Tail(None, None))
  {
    var s := p + rest;
    if rest != [] {
      assert s[|p|] == '!';
    }
  }

  lemma MatchTailDigits(p: string, n: nat, rest: string)
    requires rest == [] || rest[0] == '!'
    ensures MatchTail(p + [] + Decimal.Show(n) + rest, |p|) == Some(Tail(None, Some(Decimal.Show(n))))
  {
    var s := p + [] + Decimal.Show(n) + rest;
    assert s == p + Decimal.Show(n) + rest;
    Decimal.ShowRun(p, n, rest);
    assert s[|p|] == Decimal.Show(n)[0];
    assert !IsComparator(s[|p|]);
  }

  lemma MatchTailCompared(p: string, cp: Comparator, n: nat, rest: string)
    requires rest == [] || rest[0] == '!'
    ensures MatchTail(p + [Glyph(cp)] + Decimal.Show(n) + rest, |p|) == Some(Tail(Some(Glyph(cp)), Some(Decimal.Show(n))))
  {
    var s := p + [Glyph(cp)] + Decimal.Show(n) + rest;
    Decimal.ShowRun(p + [Glyph(cp)], n, rest);
    assert s[|p|] == Glyph(cp);
    assert s[|p| + 1] == Decimal.Show(n)[0];
  }

  /** A match at index 0 is the leftmost one. */
  lemma ExecAtStart(s: string)
    requires MatchAt(s, 0).Some?
    ensures Exec(s) == MatchAt(s, 0)
  {
  }

  /** A string that starts with a spelled token matches that whole token at index 0. */
  lemma ExecSpelled(c: Category, t: Trigger, explicit: bool, rest: string)
    requires rest == [] || (rest[0] == '!' && (c != Exploding || t.threshold.Some?))
    ensures Exec(Spelled(c, t, explicit) + rest) == Some(Token(0, MarkerOf(c), TailFor(t, explicit)))
  {
    SpelledIsMarkerAndTail(c, t, explicit);
    assert Spelled(c, t, explicit) + rest == MarkerOf(c) + TailFor(t, explicit).Text() + rest;
    if c == Exploding {
      ExecSpelledShort(t, explicit, rest);
    } else {
      ExecSpelledLong(c, t, explicit, rest);
    }
  }

  lemma ExecSpelledShort(t: Trigger, explicit: bool, rest: string)
    requires rest == [] || (rest[0] == '!' && t.threshold.Some?)
    ensures Exec("!" + TailFor(t, explicit).Text() + rest) == Some(Token(0, "!", TailFor(t, explicit)))
  {
    var tail := TailFor(t, explicit);
    var s := "!" + tail.Text() + rest;
    MatchTailSpelled("!", t, explicit, rest);
    assert s[..1] == "!";
    MatchAtShort(s, tail);
    ExecAtStart(s);
  }

  lemma ExecSpelledLong(c: Category, t: Trigger, explicit: bool, rest: string)
    requires c != Exploding
    requires rest == [] || rest[0] == '!'
    ensures Exec(MarkerOf(c) + TailFor(t, explicit).Text() + rest) == Some(Token(0, MarkerOf(c), TailFor(t, explicit)))
  {
    var marker := MarkerOf(c);
    var tail := TailFor(t, explicit);
    var s := marker + tail.Text() + rest;
    MatchTailSpelled(marker, t, explicit, rest);
    assert s[..2] == marker;
    MatchAtLong(s, tail);
    ExecAtStart(s);
  }

  /** A two-character marker whose tail matches is taken in full. */
  lemma MatchAtLong(s: string, tail: Tail)
    requires |s| >= 2 && s[0] == '!' && (s[1] == '!' || s[1] == 'p')
    requires MatchTail(s, 2) == Some(tail)
    ensures MatchAt(s, 0) == Some(Token(0, s[..2], tail))
  {
  }

  /** A `!` followed by anything but `!`, `p` or `P` can only be the one-character marker. */
  lemma MatchAtShort(s: string, tail: Tail)
    requires |s| >= 1 && s[0] == '!' && s[..1] == "!"
    requires |s| == 1 || (s[1] != '!' && s[1] != 'p' && s[1] != 'P')
    requires MatchTail(s, 1) == Some(tail)
    ensures MatchAt(s, 0) == Some(Token(0, "!", tail))
  {
  }

  /**
   * One step of the parse loop on a string that starts with a token: the
   * token is matched whole at index 0 (the longest marker wins), recorded
   * in its category (or refused when that category is set) and deleted.
   * A bare `!` must not be followed by another `!`, or the two read as `!!`.
   */
  lemma ParseToken(original: string, c: Category, t: Trigger, explicit: bool, rest: string, acc: Modifiers)
    requires t.threshold.None? || !explicit ==> t.cp == Equal
    requires rest == [] || (rest[0] == '!' && (c != Exploding || t.threshold.Some?))
    ensures Get(acc, c).None? ==>
      ParseFrom(original, Spelled(c, t, explicit) + rest, acc) == ParseFrom(original, rest, Put(acc, c, t))
    ensures Get(acc, c).Some? ==>
      ParseFrom(original, Spelled(c, t, explicit) + rest, acc)
        == Failure(AlreadySet(c, CategoryText(acc, c), Spelled(c, t, explicit)))
  {
    var text := Spelled(c, t, explicit);
    var tok := Token(0, MarkerOf(c), TailFor(t, explicit));
    ExecSpelled(c, t, explicit, rest);
    SpelledIsMarkerAndTail(c, t, explicit);
    TriggerOfSpelled(c, t, explicit);
    DeleteLeading(text, rest);
    ParseStep(original, text + rest, acc, tok);
  }

  /** The trigger recorded for a spelled token is the one it spells. */
  lemma TriggerOfSpelled(c: Category, t: Trigger, explicit: bool)
    requires t.threshold.None? || !explicit ==> t.cp == Equal
    ensures Token(0, MarkerOf(c), TailFor(t, explicit)).Valid()
    ensures TriggerOf(Token(0, MarkerOf(c), TailFor(t, explicit))) == t
  {
  }

  /** Deleting the first occurrence of a prefix leaves what follows it. */
  lemma DeleteLeading(text: string, rest: string)
    ensures Strings.DeleteFirst(text + rest, text) == rest
  {
    var s := text + rest;
    assert Strings.OccursAt(s, text, 0);
    Strings.DeleteFirstAt(s, text, 0);
    assert s[..0] + s[|text|..] == rest;
  }

  /** One turn of the constructor's loop. */
  lemma ParseStep(original: string, s: string, acc: Modifiers, tok: Token)
    requires Exec(s) == Some(tok)
    ensures tok.Valid()
    ensures Record(acc, tok).Failure? ==> ParseFrom(original, s, acc) == Failure(Record(acc, tok).error)
    ensures Record(acc, tok).Success? ==>
      ParseFrom(original, s, acc) == ParseFrom(original, Strings.DeleteFirst(s, tok.Text()), Record(acc, tok).value)
  {
  }
}

module DiceModRoundTrip {
  import opened Wrappers
  import opened Errors
  import opened DiceMod
  import opened DiceModLemmas

  /** `acc` with category `c` copied from `m`. */
  function Copy(acc: Modifiers, m: Modifiers, c: Category): Modifiers {
    match Get(m, c)
    case None => acc
    case Some(t) => Put(acc, c, t)
  }

  /** Every rendering is empty or starts with `!`. */
  lemma CategoryTextStart(m: Modifiers, c: Category)
    ensures CategoryText(m, c) == [] || CategoryText(m, c)[0] == '!'
  {
  }

  /** The parser consumes one category's canonical rendering and records exactly it. */
  lemma ParseCategory(original: string, m: Modifiers, c: Category, rest: string, acc: Modifiers)
    requires WellFormedTrigger(Get(m, c)) && Get(acc, c).None?
    requires rest == [] || (rest[0] == '!' && c != Exploding)
    ensures ParseFrom(original, CategoryText(m, c) + rest, acc) == ParseFrom(original, rest, Copy(acc, m, c))
  {
    match Get(m, c)
    case None =>
      assert CategoryText(m, c) + rest == rest;
    case Some(t) =>
      assert CategoryText(m, c) == Spelled(c, t, true);
      ParseToken(original, c, t, true, rest, acc);
  }

  lemma StartsWithBang(a: string, b: string)
    requires a == [] || a[0] == '!'
    requires b == [] || b[0] == '!'
    ensures a + b == [] || (a + b)[0] == '!'
  {
    if a == [] {
      assert a + b == b;
    }
  }

  /** Copying the three categories in turn onto the empty set rebuilds the set. */
  lemma CopyAll(m: Modifiers)
    ensures Copy(Copy(Copy(Unset, m, Penetrating), m, Compounding), m, Exploding) == m
  {
  }

  /** The last category, exploding, finishes the parse with the whole set. */
  lemma ParseExploding(s: string, m: Modifiers)
    requires WellFormed(m)
    ensures ParseFrom(s, ExplodingText(m), Copy(Copy(Unset, m, Penetrating), m, Compounding)) == Success(m)
  {
    var a2 := Copy(Copy(Unset, m, Penetrating), m, Compounding);
    var e := ExplodingText(m);
    assert e + [] == e;
    ParseCategory(s, m, Exploding, [], a2);
    ParseNothingLeft(s, Copy(a2, m, Exploding));
    CopyAll(m);
  }

  /** Compounding, then exploding. */
  lemma ParseCompounding(s: string, m: Modifiers)
    requires WellFormed(m)
    ensures ParseFrom(s, CompoundingText(m) + ExplodingText(m), Copy(Unset, m, Penetrating)) == Success(m)
  {
    CategoryTextStart(m, Exploding);
    ParseCategory(s, m, Compounding, ExplodingText(m), Copy(Unset, m, Penetrating));
    ParseExploding(s, m);
  }

  /** The rendering after the penetrating part is empty or starts with `!`. */
  lemma AfterPenetrating(m: Modifiers)
    ensures var x := CompoundingText(m) + ExplodingText(m); x == [] || x[0] == '!'
  {
    CategoryTextStart(m, Compounding);
    CategoryTextStart(m, Exploding);
    StartsWithBang(CompoundingText(m), ExplodingText(m));
  }

  lemma RenderingSplits(m: Modifiers)
    ensures ToString(m) == PenetratingText(m) + (CompoundingText(m) + ExplodingText(m))
  {
  }

  /** Penetrating, then compounding, then exploding. */
  lemma ParsePenetrating(s: string, m: Modifiers)
    requires WellFormed(m)
    requires s == PenetratingText(m) + (CompoundingText(m) + ExplodingText(m))
    ensures ParseFrom(s, s, Unset) == Success(m)
  {
    AfterPenetrating(m);
    ParseCategory(s, m, Penetrating, CompoundingText(m) + ExplodingText(m), Unset);
    ParseCompounding(s, m);
  }

  /** Round trip: parsing the canonical rendering of any well-formed modifier set gives it back. */
  lemma RoundTrip(m: Modifiers)
    requires WellFormed(m)
    ensures Parse(Some(ToString(m))) == Success(m)
  {
    RenderingSplits(m);
    ParsePenetrating(ToString(m), m);
  }
}

module DiceModProperties {
  import opened Wrappers
  import opened Errors
  import Decimal
  import Strings
  import opened DiceMod
  import opened DiceModLemmas

  /** An absent or empty suffix sets nothing, and the empty set renders as "". */
  lemma ParseAbsentOrEmpty()
    ensures Parse(None) == Success(Unset)
    ensures Parse(Some("")) == Success(Unset)
    ensures ToString(Unset) == ""
  {
    ParseNothingLeft("", Unset);
  }

  /** A bare token sets its category with no threshold and the default `=`, and renders as the marker alone. */
  lemma BareToken(c: Category)
    ensures Parse(Some(MarkerOf(c))) == Success(Put(Unset, c, Trigger(Equal, None)))
    ensures CategoryText(Put(Unset, c, Trigger(Equal, None)), c) == MarkerOf(c)
  {
    var t := Trigger(Equal, None);
    assert Spelled(c, t, true) + [] == MarkerOf(c);
    ParseToken(MarkerOf(c), c, t, true, [], Unset);
    ParseNothingLeft(MarkerOf(c), Put(Unset, c, t));
  }

  /** Digits without a comparator mean `=`: "!6" reads as, and renders back to, "!=6" (likewise "!!" and "!p"). */
  lemma DigitsDefaultToEqual(c: Category, n: nat)
    ensures Parse(Some(MarkerOf(c) + Decimal.Show(n))) == Success(Put(Unset, c, Trigger(Equal, Some(n))))
    ensures CategoryText(Put(Unset, c, Trigger(Equal, Some(n))), c) == MarkerOf(c) + "=" + Decimal.Show(n)
  {
    DigitsParse(c, n);
    DigitsRender(c, n);
  }

  /** A single spelled token is parsed into its category alone. */
  lemma ParseAlone(c: Category, t: Trigger, explicit: bool)
    requires t.threshold.None? || !explicit ==> t.cp == Equal
    ensures Parse(Some(Spelled(c, t, explicit))) == Success(Put(Unset, c, t))
  {
    var s := Spelled(c, t, explicit);
    assert s + [] == s;
    ParseToken(s, c, t, explicit, [], Unset);
    ParseNothingLeft(s, Put(Unset, c, t));
  }

  /** A marker then digits parses to that category at `=` the number. */
  lemma DigitsParse(c: Category, n: nat)
    ensures Parse(Some(MarkerOf(c) + Decimal.Show(n))) == Success(Put(Unset, c, Trigger(Equal, Some(n))))
  {
    ParseAlone(c, Trigger(Equal, Some(n)), false);
    SpelledDigits(c, n);
  }

  /** Digits without a comparator are spelled as marker then number. */
  lemma SpelledDigits(c: Category, n: nat)
    ensures Spelled(c, Trigger(Equal, Some(n)), false) == MarkerOf(c) + Decimal.Show(n)
  {
    assert Spelled(c, Trigger(Equal, Some(n)), false) == MarkerOf(c) + [] + Decimal.Show(n);
  }

  /** The category set at `=` a number renders as marker, `=`, number. */
  lemma DigitsRender(c: Category, n: nat)
    ensures CategoryText(Put(Unset, c, Trigger(Equal, Some(n))), c) == MarkerOf(c) + "=" + Decimal.Show(n)
  {
    assert Get(Put(Unset, c, Trigger(Equal, Some(n))), c) == Some(Trigger(Equal, Some(n)));
  }

  /**
   * A category written twice is refused, whatever the two triggers, as in
   * "!6!", "!!6!!" and "!p6!p" (a bare `!` followed by `!` would read as `!!`).
   */
  lemma SameCategoryTwice(c: Category, t: Trigger, x: bool, t': Trigger, y: bool)
    requires t.threshold.None? || !x ==> t.cp == Equal
    requires t'.threshold.None? || !y ==> t'.cp == Equal
    requires c != Exploding || t.threshold.Some?
    ensures Parse(Some(Spelled(c, t, x) + Spelled(c, t', y)))
      == Failure(AlreadySet(c, RenderTrigger(MarkerOf(c), Some(t)), Spelled(c, t', y)))
  {
    var first, second := Spelled(c, t, x), Spelled(c, t', y);
    var s := first + second;
    ParseToken(s, c, t, x, second, Unset);
    var acc := Put(Unset, c, t);
    assert second + [] == second;
    ParseToken(s, c, t', y, [], acc);
  }

  const Bare := Trigger(Equal, None)

  /** The longest marker wins at each step: "!!!" is compounding then exploding, never two explodes. */
  lemma CompoundThenExplode()
    ensures Parse(Some("!!!")) == Success(Modifiers(Some(Bare), Some(Bare), None))
  {
    var s := "!!!";
    assert s == MarkerOf(Compounding) + MarkerOf(Exploding);
    ParseThen(s, Compounding, MarkerOf(Exploding), Unset);
    ParseLast(s, Exploding, Put(Unset, Compounding, Bare));
  }

  lemma PenetrateThenExplode()
    ensures Parse(Some("!p!")) == Success(Modifiers(Some(Bare), None, Some(Bare)))
  {
    var s := "!p!";
    assert s == MarkerOf(Penetrating) + MarkerOf(Exploding);
    ParseThen(s, Penetrating, MarkerOf(Exploding), Unset);
    ParseLast(s, Exploding, Put(Unset, Penetrating, Bare));
  }

  lemma CompoundThenPenetrate()
    ensures Parse(Some("!!!p")) == Success(Modifiers(None, Some(Bare), Some(Bare)))
  {
    var s := "!!!p";
    assert s == MarkerOf(Compounding) + MarkerOf(Penetrating);
    ParseThen(s, Compounding, MarkerOf(Penetrating), Unset);
    ParseLast(s, Penetrating, Put(Unset, Compounding, Bare));
  }

  lemma PenetrateThenCompound()
    ensures Parse(Some("!p!!")) == Success(Modifiers(None, Some(Bare), Some(Bare)))
  {
    var s' := "!p!!";
    assert s' == MarkerOf(Penetrating) + MarkerOf(Compounding);
    ParseThen(s', Penetrating, MarkerOf(Compounding), Unset);
    ParseLast(s', Compounding, Put(Unset, Penetrating, Bare));
  }

  /** "!p!!!" sets all three categories. */
  lemma AllThreePenetrateFirst()
    ensures Parse(Some("!p!!!")) == Success(Modifiers(Some(Bare), Some(Bare), Some(Bare)))
  {
    var ex, co, pe := MarkerOf(Exploding), MarkerOf(Compounding), MarkerOf(Penetrating);
    var s := "!p!!!";
    assert s == pe + (co + ex);
    ParseThen(s, Penetrating, co + ex, Unset);
    ParseThen(s, Compounding, ex, Put(Unset, Penetrating, Bare));
    ParseLast(s, Exploding, Put(Put(Unset, Penetrating, Bare), Compounding, Bare));
  }

  /** "!!!p!" sets all three categories too. */
  lemma AllThreeCompoundFirst()
    ensures Parse(Some("!!!p!")) == Success(Modifiers(Some(Bare), Some(Bare), Some(Bare)))
  {
    var ex, co, pe := MarkerOf(Exploding), MarkerOf(Compounding), MarkerOf(Penetrating);
    var s := "!!!p!";
    var r := pe + ex;
    assert r == "!p!";
    assert s == co + r;
    ParseThen(s, Compounding, r, Unset);
    ParseThen(s, Penetrating, ex, Put(Unset, Compounding, Bare));
    ParseLast(s, Exploding, Put(Put(Unset, Compounding, Bare), Penetrating, Bare));
  }

  /** "!!!6" is a bare compound followed by an explode at `=6`. */
  lemma CompoundThenExplodeAtSix()
    ensures Parse(Some("!!!6")) == Success(Modifiers(Some(Trigger(Equal, Some(6))), Some(Bare), None))
  {
    var six := Spelled(Exploding, Trigger(Equal, Some(6)), false);
    assert six == "!6";
    var s := "!!!6";
    assert s == MarkerOf(Compounding) + six;
    ParseThen(s, Compounding, six, Unset);
    assert six + [] == six;
    ParseToken(s, Exploding, Trigger(Equal, Some(6)), false, [], Put(Unset, Compounding, Bare));
    ParseNothingLeft(s, Put(Put(Unset, Compounding, Bare), Exploding, Trigger(Equal, Some(6))));
  }

  /** Helper for the examples: a bare token followed by more tokens. */
  lemma ParseThen(original: string, c: Category, rest: string, acc: Modifiers)
    requires c != Exploding && Get(acc, c).None?
    requires rest == [] || rest[0] == '!'
    ensures ParseFrom(original, MarkerOf(c) + rest, acc) == ParseFrom(original, rest, Put(acc, c, Bare))
  {
    assert Spelled(c, Bare, true) == MarkerOf(c);
    ParseToken(original, c, Bare, true, rest, acc);
  }

  /** Helper for the examples: a bare token that ends the string. */
  lemma ParseLast(original: string, c: Category, acc: Modifiers)
    requires Get(acc, c).None?
    ensures ParseFrom(original, MarkerOf(c), acc) == Success(Put(acc, c, Bare))
  {
    assert Spelled(c, Bare, true) + [] == MarkerOf(c);
    ParseToken(original, c, Bare, true, [], acc);
    ParseNothingLeft(original, Put(acc, c, Bare));
  }

  /** No match can start where there is no `!`. */
  lemma {:induction false} NoBangNoMatch(s: string, i: nat)
    requires i <= |s|
    requires forall k :: i <= k < |s| ==> s[k] != '!'
    ensures ExecFrom(s, i) == None
    decreases |s| - i
  {
    if i < |s| {
      NoBangNoMatch(s, i + 1);
    }
  }

  /**
   * A comparator with no digits after it is never consumed: "!>", "!=a",
   * "!!=" and "!p<" are all refused. After "!!" or "!p" the regular
   * expression falls back to the bare "!", which the loop deletes before
   * giving up on the rest.
   */
  lemma ComparatorWithoutDigits(c: Category, g: Comparator, rest: string)
    requires forall k :: 0 <= k < |rest| ==> rest[k] != '!'
    requires rest == [] || !Decimal.IsDigit(rest[0])
    ensures var s := MarkerOf(c) + [Glyph(g)] + rest;
      Parse(Some(s)) == Failure(InvalidModifier(s, if c == Exploding then s else s[1..]))
  {
    var s := MarkerOf(c) + [Glyph(g)] + rest;
    var after := MarkerOf(c)[1..] + [Glyph(g)] + rest;
    assert s == "!" + after;
    if c == Exploding {
      LoneComparator(g, rest);
      assert after == [Glyph(g)] + rest;
      assert s == "!" + [Glyph(g)] + rest;
    } else {
      FallBackToBang(s, after);
      var acc := Put(Unset, Exploding, Bare);
      assert s[1..] == after;
      if c == Compounding {
        assert after == "!" + [Glyph(g)] + rest;
        LoneComparator(g, rest);
      } else {
        assert after == "p" + [Glyph(g)] + rest;
        NoBangNoMatch(after, 0);
      }
      ParseNothingMatches(s, after, acc);
    }
  }

  /** "!" + comparator + no digit: the regular expression matches nowhere. */
  lemma LoneComparator(g: Comparator, rest: string)
    requires forall k :: 0 <= k < |rest| ==> rest[k] != '!'
    requires rest == [] || !Decimal.IsDigit(rest[0])
    ensures Exec("!" + [Glyph(g)] + rest) == None
  {
    var lone := "!" + [Glyph(g)] + rest;
    assert MatchTail(lone, 1) == None;
    assert MatchAt(lone, 0) == None;
    NoBangNoMatch(lone, 1);
  }

  /** When nothing matches, whatever is left is the error. */
  lemma ParseNothingMatches(original: string, s: string, acc: Modifiers)
    requires Exec(s) == None && s != []
    ensures ParseFrom(original, s, acc) == Failure(InvalidModifier(original, s))
  {
  }

  /** "!!" or "!p" whose tail fails: the match is the bare "!" at 0, which is recorded and deleted. */
  lemma FallBackToBang(s: string, after: string)
    requires s == "!" + after && |after| >= 2 && (after[0] == '!' || after[0] == 'p')
    requires DiceMod.IsComparator(after[1]) && (|after| == 2 || !Decimal.IsDigit(after[2]))
    ensures ParseFrom(s, s, Unset) == ParseFrom(s, after, Put(Unset, Exploding, Bare))
  {
    assert MatchTail(s, 2) == None;
    assert MatchTail(s, 1) == Some(Tail(None, None));
    var tok := Token(0, "!", Tail(None, None));
    assert MatchAt(s, 0) == Some(tok);
    ExecAtStart(s);
    DeleteLeading("!", after);
    ParseStep(s, s, Unset, tok);
  }

  /** Under the `i` flag "!P" matches the regular expression but names no category, and is refused. */
  lemma UpperCasePenetrate()
    ensures Parse(Some("!P")) == Failure(UnexpectedMarker("!P"))
    ensures Parse(Some("!P6")) == Failure(UnexpectedMarker("!P"))
  {
    assert MatchTail("!P", 2) == Some(Tail(None, None));
    assert MatchAt("!P", 0) == Some(Token(0, "!P", Tail(None, None)));
    ExecAtStart("!P");
    ParseStep("!P", "!P", Unset, Token(0, "!P", Tail(None, None)));
    Decimal.RunEndUnique("!P6", 2, 3);
    assert "!P6"[2..3] == "6";
    assert MatchTail("!P6", 2) == Some(Tail(None, Some("6")));
    assert MatchAt("!P6", 0) == Some(Token(0, "!P", Tail(None, Some("6"))));
    ExecAtStart("!P6");
    ParseStep("!P6", "!P6", Unset, Token(0, "!P", Tail(None, Some("6"))));
  }
}
