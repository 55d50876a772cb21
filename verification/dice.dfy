/**
 * A single dice group (`Dice`): the expression parser `count d faces
 * modifiers`, the fate/face-count state machine, the roll driver that draws
 * from an injected random device, and the canonical rendering.
 */
module Dice {
  import opened Wrappers
  import opened Errors
  import Decimal
  import DiceMod

  /** `Number.MAX_SAFE_INTEGER`, the default bound on both the count and the face number. */
  const MaxJsInt: int := 9007199254740991

  /** The bounds `Dice.maxD` and `Dice.maxN`, fixed at their defaults. */
  const MaxD: int := MaxJsInt
  const MaxN: int := MaxJsInt

  /**
   * The injected random device. `source(k, max, min)` is what the k-th call
   * `randomInt(max, min)` returns; `calls` counts the calls made so far.
   */
  datatype Device = Device(source: (nat, int, int) -> int, calls: nat) {

    /** `randomInt(max, min)`: one draw, after which the device has answered one more call. */
    function RandomInt(max: int, min: int): (r: (int, Device))
      ensures r.1.calls == calls + 1
    {
      (source(calls, max, min), this.(calls := calls + 1))
    }

    /** The device after `k` further calls. */
    function Advance(k: nat): Device {
      this.(calls := calls + k)
    }
  }

  /** The device's interface promise: a draw lies in `[min, max]` whenever that range is non-empty. */
  ghost predicate Honest(dev: Device) {
    forall k: nat, max: int, min: int :: min <= max ==> min <= dev.source(k, max, min) <= max
  }

  /**
   * The next `n` answers of the device to `randomInt(max, min)`, in call
   * order: the reference the roll drivers are proved against.
   */
  function Draws(dev: Device, n: nat, max: int, min: int): (r: seq<int>)
    ensures |r| == n
    ensures Honest(dev) && min <= max ==> forall i :: 0 <= i < n ==> min <= r[i] <= max
  {
    var r := seq(n, i requires 0 <= i < n => dev.source(dev.calls + i, max, min));
    assert forall i :: 0 <= i < n ==> r[i] == dev.source(dev.calls + i, max, min);
    r
  }

  /* ---------------------------------------------------------------------- */
  /* Range checks                                                            */
  /* ---------------------------------------------------------------------- */

  /** `checkN`: the count must lie in `0..maxN`. */
  function CheckN(n: int): (r: Result<nat, Error>)
    ensures r.Success? <==> 0 <= n <= MaxN
    ensures r.Success? ==> r.value == n
    ensures r.Failure? ==> r.error == OutOfRange("n", MaxN, n)
  {
    if n < 0 || n > MaxN then Failure(OutOfRange("n", MaxN, n)) else Success(n)
  }

  /** `checkD` as written: it accepts `0..maxD`, but its message names `n` instead of `d`. */
  function CheckDAsWritten(d: int): (r: Result<nat, Error>)
    ensures r.Success? <==> 0 <= d <= MaxD
    ensures r.Success? ==> r.value == d
  {
    if d < 0 || d > MaxD then Failure(OutOfRange("n", MaxD, d)) else Success(d)
  }

  /** `checkD` with the message naming the parameter it checks; the rest of the model uses this one. */
  function CheckD(d: int): (r: Result<nat, Error>)
    ensures r.Success? <==> 0 <= d <= MaxD
    ensures r.Success? ==> r.value == d
    ensures r.Failure? ==> r.error == OutOfRange("d", MaxD, d)
  {
    if d < 0 || d > MaxD then Failure(OutOfRange("d", MaxD, d)) else Success(d)
  }

  /* ---------------------------------------------------------------------- */
  /* The static roll                                                         */
  /* ---------------------------------------------------------------------- */

  /**
   * `Dice.roll(d, n = 1, device)`: check `d`, then `n`, then draw `n` values
   * of `randomInt(d)` (whose minimum defaults to 1) in index order.
   */
  method RollMany(d: int, n: Option<int>, device: Device) returns (r: Result<seq<int>, Error>, next: Device)
    ensures !(0 <= d <= MaxD) ==> r == Failure(OutOfRange("d", MaxD, d))
    ensures 0 <= d <= MaxD ==> (r.Success? <==> 0 <= n.GetOr(1) <= MaxN)
    ensures r.Success? ==> r.value == Draws(device, n.GetOr(1), d, 1)
    ensures r.Success? ==> next.source == device.source && next.calls == device.calls + n.GetOr(1)
    ensures r.Failure? ==> next.calls == device.calls
  {
    next := device;
    var checkedD := CheckD(d);
    if checkedD.Failure? {
      return Failure(checkedD.error), next;
    }
    var count := n.GetOr(1);
    var checkedN := CheckN(count);
    if checkedN.Failure? {
      return Failure(checkedN.error), next;
    }
    var result: seq<int> := [];
    var i := 0;
    while i < count
      invariant 0 <= i <= count
      invariant next == device.Advance(i)
      invariant result == Draws(device, i, d, 1)
    {
      var draw := next.RandomInt(d, 1);
      result := result + [draw.0];
      next := draw.1;
      i := i + 1;
    }
    r := Success(result);
  }

  /* ---------------------------------------------------------------------- */
  /* The dice state                                                          */
  /* ---------------------------------------------------------------------- */

  /**
   * The fields of a `Dice`: `count` is `_n`, `faces` the internal `_d`
   * (1 for a fate die), `result` is `null` until the first roll, and the
   * last roll's sequences.
   */
  datatype Dice = Dice(
    count: int,
    faces: int,
    fate: bool,
    minRoll: int,
    mods: DiceMod.Modifiers,
    result: Option<int>,
    rolls: seq<int>,
    rawRolls: seq<int>,
    device: Device)
  {
    /**
     * The `d` getter: how many values a roll can take, so a fate die,
     * rolling in `[-1, 1]`, reports 3.
     */
    function D(): (r: int)
      ensures Valid(this) ==> r == faces - minRoll + 1
      ensures fate ==> r == 3
    {
      if fate then 3 else faces
    }
  }

  /**
   * What every constructed dice satisfies: counts in range, a fate die rolls
   * in `[-1, 1]` through `faces == 1, minRoll == -1`, any other die starts
   * at 1, and the modifiers are what the parser can produce.
   */
  predicate Valid(x: Dice) {
    && 0 <= x.count <= MaxN
    && 0 <= x.faces <= MaxD
    && (x.fate ==> x.faces == 1 && x.minRoll == -1)
    && (!x.fate ==> x.minRoll == 1)
    && DiceMod.WellFormed(x.mods)
  }

  /** The `n` setter. */
  function SetN(x: Dice, v: int): (r: Result<Dice, Error>)
    ensures r.Success? <==> 0 <= v <= MaxN
    ensures r.Failure? ==> r.error == OutOfRange("n", MaxN, v)
    ensures r.Success? ==> r.value.count == v && r.value.(count := x.count) == x
    ensures r.Success? && Valid(x) ==> Valid(r.value)
  {
    var n :- CheckN(v);
    Success(x.(count := n))
  }

  /** The `d` setter: it also clears the fate flag and resets the minimum roll to 1. */
  function SetD(x: Dice, v: int): (r: Result<Dice, Error>)
    ensures r.Success? <==> 0 <= v <= MaxD
    ensures r.Failure? ==> r.error == OutOfRange("d", MaxD, v)
    ensures r.Success? ==> r.value.D() == v && !r.value.fate && r.value.minRoll == 1
    ensures r.Success? ==> r.value.(faces := x.faces, fate := x.fate, minRoll := x.minRoll) == x
    ensures r.Success? && Valid(x) ==> Valid(r.value)
  {
    var d :- CheckD(v);
    Success(x.(faces := d, fate := false, minRoll := 1))
  }

  /**
   * The `fate` setter: nothing happens when the flag keeps its value;
   * turning it on makes the die roll in `[-1, 1]`, turning it off makes it a
   * plain d3.
   */
  function SetFate(x: Dice, v: bool): (r: Dice)
    ensures x.fate == v ==> r == x
    ensures r.fate == v
    ensures x.fate != v ==> r.D() == 3
    ensures x.fate != v && v ==> r.faces == 1 && r.minRoll == -1
    ensures x.fate != v && !v ==> r.faces == 3 && r.minRoll == 1
    ensures r.(fate := x.fate, faces := x.faces, minRoll := x.minRoll) == x
    ensures Valid(x) ==> Valid(r)
  {
    if v == x.fate then x
    else if v then x.(fate := true, faces := 1, minRoll := -1)
    else x.(fate := false, faces := 3, minRoll := 1)
  }

  /* ---------------------------------------------------------------------- */
  /* The expression parser                                                   */
  /* ---------------------------------------------------------------------- */

  /** The characters a JavaScript `.` does not match. */
  predicate IsLineTerminator(c: char) {
    c == '\n' || c == '\r' || c == '\U{2028}' || c == '\U{2029}'
  }

  predicate NoLineTerminator(s: string) {
    forall k :: 0 <= k < |s| ==> !IsLineTerminator(s[k])
  }

  /** The three captures of `/^(\d+)?d(f|\d+)(.*)$/i`. */
  datatype ExprMatch = ExprMatch(count: Option<string>, faces: string, rest: string) {

    predicate IsFate() {
      faces == "f" || faces == "F"
    }

    /** The captures hold what their groups can match: digits for the count, `f` or digits for the faces. */
    predicate Shaped() {
      && (count.Some? ==> Decimal.AllDigits(count.value))
      && (IsFate() || Decimal.AllDigits(faces))
    }
  }

  /**
   * `s` read as count digits `s[..i]`, the letter `d` at `i`, the faces
   * `s[i + 1..j]` and the modifiers `s[j..]`: a decomposition the regular
   * expression accepts.
   */
  predicate Fits(s: string, i: int, j: int) {
    && 0 <= i < j <= |s|
    && Decimal.AllDigits(s[..i])
    && (s[i] == 'd' || s[i] == 'D')
    && ((j == i + 2 && (s[i + 1] == 'f' || s[i + 1] == 'F')) || (i + 1 < j && Decimal.AllDigits(s[i + 1..j])))
    && NoLineTerminator(s[j..])
  }

  function CountText(m: ExprMatch): string {
    if m.count.Some? then m.count.value else ""
  }

  /** Where the faces capture `(f|\d+)` starting at `k` ends; `k` itself when it matches nothing. */
  function FacesEnd(s: string, k: nat): (j: nat)
    requires k <= |s|
    ensures k <= j <= |s|
    ensures j > k ==> (j == k + 1 && (s[k] == 'f' || s[k] == 'F')) || Decimal.AllDigits(s[k..j])
  {
    if k < |s| && (s[k] == 'f' || s[k] == 'F') then k + 1 else Decimal.RunEnd(s, k)
  }

  /**
   * The regular expression `/^(\d+)?d(f|\d+)(.*)$/i`: the count takes every
   * leading digit, the faces prefer `f` and otherwise take every digit, and
   * the modifiers may not hold a line terminator (an `f` followed by one
   * cannot fall back to digits, so the match fails).
   */
  function MatchExpression(s: string): (r: Option<ExprMatch>)
    ensures r.Some? ==> Fits(s, |CountText(r.value)|, |CountText(r.value)| + 1 + |r.value.faces|)
    ensures r.Some? ==> r.value.Shaped()
  {
    var i := Decimal.RunEnd(s, 0);
    if i + 1 < |s| && (s[i] == 'd' || s[i] == 'D') then
      var j := FacesEnd(s, i + 1);
      if j > i + 1 && NoLineTerminator(s[j..]) then
        Some(ExprMatch(if i == 0 then None else Some(s[..i]), s[i + 1..j], s[j..]))
      else
        None
    else
      None
  }

  /** A dice with no roll history. */
  function Fresh(count: nat, faces: nat, mods: DiceMod.Modifiers, device: Device): Dice {
    Dice(count, faces, false, 1, mods, None, [], [], device)
  }

  /**
   * The constructor `new Dice(expr, binding, device)`. An absent or empty
   * expression is "1d20"; anything else must match the regular expression.
   */
  function New(expr: Option<string>, device: Device): (r: Result<Dice, Error>)
    ensures r.Success? ==> Valid(r.value)
    ensures r.Success? ==> r.value.result.None? && r.value.rolls == [] && r.value.rawRolls == []
  {
    if expr.None? || expr.value == "" then
      Success(Fresh(1, 20, DiceMod.Unset, device))
    else
      match MatchExpression(expr.value)
      case None => Failure(InvalidExpression(expr.value))
      case Some(m) => FromMatch(m, device)
  }

  /**
   * The constructor after a successful match: the modifiers are parsed
   * first, so their errors win over range errors; then the count (1 when
   * omitted) is checked, then the faces, where `f`/`F` goes through the fate
   * setter.
   */
  function FromMatch(m: ExprMatch, device: Device): (r: Result<Dice, Error>)
    requires m.Shaped()
    ensures r.Success? ==> Valid(r.value)
    ensures r.Success? ==> r.value.result.None? && r.value.rolls == [] && r.value.rawRolls == []
  {
    var mods :- DiceMod.Parse(Some(m.rest));
    var n :- if m.count.None? then Success(1) else CheckN(Decimal.Value(m.count.value));
    if m.IsFate() then
      // `_d` is still undefined here; the fate setter assigns it.
      Success(SetFate(Fresh(n, 0, mods, device), true))
    else
      var d :- CheckD(Decimal.Value(m.faces));
      Success(Fresh(n, d, mods, device))
  }

  /* ---------------------------------------------------------------------- */
  /* Rolling and rendering                                                   */
  /* ---------------------------------------------------------------------- */

  /**
   * The instance `roll(n = this.n)`: check `n`, draw `n` values of
   * `randomInt(_d, _minRoll)` in index order, hand each to the modifiers'
   * `rolled` hook and total them with `modResult`.
   */
  method Roll(x: Dice, n: Option<int>) returns (r: Result<Dice, Error>)
    ensures r.Success? <==> 0 <= n.GetOr(x.count) <= MaxN
    ensures r.Failure? ==> r.error == OutOfRange("n", MaxN, n.GetOr(x.count))
    ensures r.Success? ==> r.value.rawRolls == Draws(x.device, n.GetOr(x.count), x.faces, x.minRoll)
    ensures r.Success? ==> r.value.rolls == r.value.rawRolls
    ensures r.Success? ==> r.value.result == Some(DiceMod.Sum(r.value.rolls))
    ensures r.Success? ==> r.value.device.source == x.device.source
    ensures r.Success? ==> r.value.device.calls == x.device.calls + n.GetOr(x.count)
    ensures r.Success? ==>
      r.value.(result := x.result, rolls := x.rolls, rawRolls := x.rawRolls, device := x.device) == x
  {
    var count := n.GetOr(x.count);
    var checked := CheckN(count);
    if checked.Failure? {
      return Failure(checked.error);
    }
    var rolls: seq<int> := [];
    var raw: seq<int> := [];
    var dev := x.device;
    var i := 0;
    while i < count
      invariant 0 <= i <= count
      invariant dev == x.device.Advance(i)
      invariant raw == Draws(x.device, i, x.faces, x.minRoll)
      invariant rolls == raw
    {
      var draw := dev.RandomInt(x.faces, x.minRoll);
      raw := raw + [draw.0];
      rolls := DiceMod.Rolled(draw.0, rolls);
      dev := draw.1;
      i := i + 1;
    }
    var total := DiceMod.ModResult(rolls);
    r := Success(x.(result := Some(total), rolls := rolls, rawRolls := raw, device := dev));
  }

  /* ---------------------------------------------------------------------- */
  /* Rendering                                                               */
  /* ---------------------------------------------------------------------- */

  lemma NoLineTerminatorConcat(a: string, b: string)
    requires NoLineTerminator(a) && NoLineTerminator(b)
    ensures NoLineTerminator(a + b)
  {
    forall k | 0 <= k < |a + b|
      ensures !IsLineTerminator((a + b)[k])
    {
      if k >= |a| {
        assert (a + b)[k] == b[k - |a|];
      }
    }
  }

  /** One category's rendering: empty or a marker, and only notation characters. */
  lemma CategoryTextShape(m: DiceMod.Modifiers, c: Category)
    ensures var t := DiceMod.CategoryText(m, c); (t == [] || t[0] == '!') && NoLineTerminator(t)
  {
    var marker := DiceMod.MarkerOf(c);
    var t := DiceMod.Get(m, c);
    if t.Some? && t.value.threshold.Some? {
      var shown := Decimal.Show(t.value.threshold.value);
      assert NoLineTerminator(shown) by {
        forall k | 0 <= k < |shown|
          ensures !IsLineTerminator(shown[k])
        {
          assert Decimal.IsDigit(shown[k]);
        }
      }
      NoLineTerminatorConcat(marker + [DiceMod.Glyph(t.value.cp)], shown);
    }
  }

  /** The modifiers' rendering starts with `!` when it is not empty, and never holds a line terminator. */
  lemma ModifierTextShape(m: DiceMod.Modifiers)
    ensures var t := DiceMod.ToString(m); (t == [] || t[0] == '!') && NoLineTerminator(t)
  {
    var p := DiceMod.PenetratingText(m);
    var c := DiceMod.CompoundingText(m);
    var e := DiceMod.ExplodingText(m);
    CategoryTextShape(m, Penetrating);
    CategoryTextShape(m, Compounding);
    CategoryTextShape(m, Exploding);
    NoLineTerminatorConcat(p, c);
    NoLineTerminatorConcat(p + c, e);
  }

  /** The count of a rendered expression is read whole and followed by the `d`. */
  lemma RenderedCount(c: nat, faces: string, rest: string)
    requires |faces| > 0
    ensures var s := Decimal.Show(c) + "d" + faces + rest; var i := |Decimal.Show(c)|;
      && Decimal.RunEnd(s, 0) == i
      && i + 1 < |s| && s[i] == 'd' && s[i + 1] == faces[0]
      && s[..i] == Decimal.Show(c)
      && s[i + 1..] == faces + rest
  {
    var count := Decimal.Show(c);
    var tail := "d" + faces + rest;
    var s := count + "d" + faces + rest;
    assert s == [] + count + tail;
    Decimal.ShowRun([], c, tail);
    assert s[|count|..] == tail;
    assert tail[1..] == faces + rest;
  }

  /** How the regular expression splits a rendered fate expression. */
  lemma MatchRenderedFate(c: nat, rest: string)
    requires NoLineTerminator(rest)
    ensures MatchExpression(Decimal.Show(c) + "d" + "F" + rest) == Some(ExprMatch(Some(Decimal.Show(c)), "F", rest))
  {
    var s := Decimal.Show(c) + "d" + "F" + rest;
    RenderedCount(c, "F", rest);
    var i := |Decimal.Show(c)|;
    assert s[i + 1..i + 2] == "F";
    assert s[i + 2..] == rest;
  }

  /** How the regular expression splits a rendered numeric expression. */
  lemma MatchRenderedDigits(c: nat, faces: string, rest: string)
    requires |faces| > 0 && Decimal.AllDigits(faces)
    requires rest == [] || rest[0] == '!'
    requires NoLineTerminator(rest)
    ensures MatchExpression(Decimal.Show(c) + "d" + faces + rest) == Some(ExprMatch(Some(Decimal.Show(c)), faces, rest))
  {
    var s := Decimal.Show(c) + "d" + faces + rest;
    RenderedCount(c, faces, rest);
    var i := |Decimal.Show(c)|;
    var j := i + 1 + |faces|;
    var t := s[i + 1..];
    assert t == faces + rest;
    assert s[i + 1..j] == t[..|faces|] == faces;
    assert s[j..] == t[|faces|..] == rest;
    assert j == |s| || s[j] == rest[0];
    Decimal.RunEndUnique(s, i + 1, j);
    assert Decimal.IsDigit(s[i + 1]);
    assert FacesEnd(s, i + 1) == j;
  }

  /**
   * `toString`: count, `d`, then `F` or the internal face number, then the
   * modifiers' rendering. For a valid dice the expression parser reads these
   * back as exactly its three captures.
   */
  function ToString(x: Dice): (r: string)
    ensures Valid(x) ==>
              MatchExpression(r)
              == Some(ExprMatch(Some(Decimal.Show(x.count)), if x.fate then "F" else Decimal.Show(x.faces), DiceMod.ToString(x.mods)))
  {
    var rest := DiceMod.ToString(x.mods);
    var r := Decimal.ShowInt(x.count) + "d" + (if x.fate then "F" else Decimal.ShowInt(x.faces)) + rest;
    if !Valid(x) then r
    else
      ModifierTextShape(x.mods);
      if x.fate then
        MatchRenderedFate(x.count, rest);
        r
      else
        MatchRenderedDigits(x.count, Decimal.Show(x.faces), rest);
        r
  }
}
