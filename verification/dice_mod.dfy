/**
 * The dice-modifier suffix (`DiceMod`): the parser for the exploding `!`,
 * compounding `!!` and penetrating `!p` tokens, their canonical rendering,
 * and the two roll hooks.
 *
 * The parser repeatedly runs the token regular expression
 *   /(![!p]?)(?:([<=>])?(\d+)|(?![<=>]))/i
 * from index 0 (it has no `g` flag), records the match, and deletes the first
 * occurrence of the matched TEXT from the remaining string, which need not be
 * the place it matched. Whatever is left when nothing matches any more is an
 * error.
 */
module DiceMod {
  import opened Wrappers
  import opened Errors
  import Decimal
  import Strings

  /** The comparator glyphs `<`, `=` and `>`; the implemented code records them and never evaluates them. */
  datatype Comparator = Less | Equal | Greater

  function Glyph(c: Comparator): char {
    match c
    case Less => '<'
    case Equal => '='
    case Greater => '>'
  }

  predicate IsComparator(c: char) {
    c == '<' || c == '=' || c == '>'
  }

  function ComparatorOf(c: char): (r: Comparator)
    requires IsComparator(c)
    ensures Glyph(r) == c
  {
    if c == '<' then Less else if c == '=' then Equal else Greater
  }

  /**
   * The `{cp, n}` record of one category: the comparator, which defaults to
   * `=`, and the threshold, which is `None` for a bare token.
   */
  datatype Trigger = Trigger(cp: Comparator, threshold: Option<nat>)

  /** The three implemented categories; `None` is the source's `null` (unset). */
  datatype Modifiers = Modifiers(
    exploding: Option<Trigger>,
    compounding: Option<Trigger>,
    penetrating: Option<Trigger>)

  const Unset := Modifiers(None, None, None)

  /** What the parser can produce: a bare token always carries the default `=`. */
  predicate WellFormedTrigger(t: Option<Trigger>) {
    t.Some? && t.value.threshold.None? ==> t.value.cp == Equal
  }

  predicate WellFormed(m: Modifiers) {
    WellFormedTrigger(m.exploding) && WellFormedTrigger(m.compounding) && WellFormedTrigger(m.penetrating)
  }

  /* ---------------------------------------------------------------------- */
  /* The token regular expression                                            */
  /* ---------------------------------------------------------------------- */

  /** The captures of `(?:([<=>])?(\d+)|(?![<=>]))`: comparator and digits, both optional. */
  datatype Tail = Tail(cp: Option<char>, digits: Option<string>) {

    function Text(): string {
      (if cp.Some? then [cp.value] else []) + (if digits.Some? then digits.value else [])
    }

    predicate Valid() {
      && (cp.Some? ==> IsComparator(cp.value) && digits.Some?)
      && (digits.Some? ==> |digits.value| > 0 && Decimal.AllDigits(digits.value))
    }
  }

  /** One `exec` result: the index of the match, group 1 (the marker) and groups 2 and 3. */
  datatype Token = Token(index: nat, marker: string, tail: Tail) {

    /** `result[0]`, the whole matched text. */
    function Text(): string {
      marker + tail.Text()
    }

    predicate Valid() {
      && (marker == "!" || marker == "!!" || marker == "!p" || marker == "!P")
      && tail.Valid()
    }
  }

  /**
   * The tail group tried at index `j`: a comparator followed by digits, or
   * digits alone (both greedy), or else nothing, provided no comparator
   * follows.
   */
  function MatchTail(s: string, j: nat): (r: Option<Tail>)
    requires j <= |s|
    ensures r.Some? ==> r.value.Valid() && Strings.OccursAt(s, r.value.Text(), j)
  {
    if j + 1 < |s| && IsComparator(s[j]) && Decimal.IsDigit(s[j + 1]) then
      var e := Decimal.RunEnd(s, j + 1);
      Some(Tail(Some(s[j]), Some(s[j + 1..e])))
    else if j < |s| && Decimal.IsDigit(s[j]) then
      var e := Decimal.RunEnd(s, j);
      Some(Tail(None, Some(s[j..e])))
    else if j == |s| || !IsComparator(s[j]) then
      Some(Tail(None, None))
    else
      None
  }

  /**
   * The regular expression anchored at index `i`. Group 1 first tries the
   * two-character marker (`[!p]` also matches `P` under the `i` flag) and
   * backtracks to the single `!` when the tail fails after it.
   */
  function MatchAt(s: string, i: nat): (r: Option<Token>)
    requires i <= |s|
    ensures r.Some? ==> r.value.index == i && r.value.Valid() && Strings.OccursAt(s, r.value.Text(), i)
  {
    if i == |s| || s[i] != '!' then None
    else if i + 1 < |s| && (s[i + 1] == '!' || s[i + 1] == 'p' || s[i + 1] == 'P') && MatchTail(s, i + 2).Some? then
      var t := MatchTail(s, i + 2).value;
      Strings.OccursConcat(s, s[i..i + 2], t.Text(), i);
      Some(Token(i, s[i..i + 2], t))
    else
      match MatchTail(s, i + 1)
      case Some(t) =>
        assert Strings.OccursAt(s, "!", i);
        Strings.OccursConcat(s, "!", t.Text(), i);
        Some(Token(i, "!", t))
      case None => None
  }

  /** The leftmost match at or after index `i`. */
  function ExecFrom(s: string, i: nat): (r: Option<Token>)
    requires i <= |s|
    ensures r.Some? ==> i <= r.value.index < |s| && MatchAt(s, r.value.index) == r
    ensures r.Some? ==> forall k :: i <= k < r.value.index ==> MatchAt(s, k).None?
    ensures r.None? ==> forall k :: i <= k <= |s| ==> MatchAt(s, k).None?
    decreases |s| - i
  {
    if i == |s| then None
    else if MatchAt(s, i).Some? then MatchAt(s, i)
    else ExecFrom(s, i + 1)
  }

  /** `explodeRegExp.exec(s)`: without the `g` flag every search starts at index 0. */
  function Exec(s: string): (r: Option<Token>)
    ensures r.Some? ==> r.value.Valid() && Strings.OccursAt(s, r.value.Text(), r.value.index)
    ensures r.Some? ==> forall k :: 0 <= k < r.value.index ==> MatchAt(s, k).None?
    ensures r.None? ==> forall k :: 0 <= k <= |s| ==> MatchAt(s, k).None?
  {
    ExecFrom(s, 0)
  }

  /* ---------------------------------------------------------------------- */
  /* Rendering                                                               */
  /* ---------------------------------------------------------------------- */

  /** The marker (group 1) that denotes each category. */
  function MarkerOf(c: Category): string {
    match c
    case Exploding => "!"
    case Compounding => "!!"
    case Penetrating => "!p"
  }

  /** The `switch (result[1])` of `parseExplodeResult`: only the exact markers "!", "!!" and "!p" name a category. */
  function CategoryOf(marker: string): (r: Option<Category>)
    ensures r.Some? ==> MarkerOf(r.value) == marker
    ensures forall c :: MarkerOf(c) == marker ==> r == Some(c)
  {
    if marker == "!" then Some(Exploding)
    else if marker == "!!" then Some(Compounding)
    else if marker == "!p" then Some(Penetrating)
    else None
  }

  function Get(m: Modifiers, c: Category): Option<Trigger> {
    match c
    case Exploding => m.exploding
    case Compounding => m.compounding
    case Penetrating => m.penetrating
  }

  function Put(m: Modifiers, c: Category, t: Trigger): (r: Modifiers)
    ensures Get(r, c) == Some(t)
    ensures forall c' :: c' != c ==> Get(r, c') == Get(m, c')
  {
    match c
    case Exploding => m.(exploding := Some(t))
    case Compounding => m.(compounding := Some(t))
    case Penetrating => m.(penetrating := Some(t))
  }

  /** One category's getter: nothing when unset, the marker alone when bare, else marker, comparator and threshold. */
  function RenderTrigger(marker: string, t: Option<Trigger>): string {
    match t
    case None => ""
    case Some(Trigger(cp, None)) => marker
    case Some(Trigger(cp, Some(n))) => marker + [Glyph(cp)] + Decimal.Show(n)
  }

  /** One category's rendering: empty exactly when the category is unset, else its marker comes first. */
  function CategoryText(m: Modifiers, c: Category): (r: string)
    ensures r == [] <==> Get(m, c).None?
    ensures r != [] ==> |MarkerOf(c)| <= |r| && r[..|MarkerOf(c)|] == MarkerOf(c)
  {
    RenderTrigger(MarkerOf(c), Get(m, c))
  }

  /** The `exploding` getter. */
  function ExplodingText(m: Modifiers): (r: string)
    ensures r == [] <==> m.exploding.None?
    ensures r != [] ==> r[..1] == "!"
  {
    CategoryText(m, Exploding)
  }

  /** The `compounding` getter. */
  function CompoundingText(m: Modifiers): (r: string)
    ensures r == [] <==> m.compounding.None?
    ensures r != [] ==> |r| >= 2 && r[..2] == "!!"
  {
    CategoryText(m, Compounding)
  }

  /** The `penetrating` getter. */
  function PenetratingText(m: Modifiers): (r: string)
    ensures r == [] <==> m.penetrating.None?
    ensures r != [] ==> |r| >= 2 && r[..2] == "!p"
  {
    CategoryText(m, Penetrating)
  }

  /**
   * `toString`: penetrating, then compounding, then exploding. The getters of
   * the categories the constructor never sets always return "" and are not
   * part of this model.
   */
  function ToString(m: Modifiers): (r: string)
    ensures r == [] <==> m == Unset
    ensures r == [] || r[0] == '!'
  {
    PenetratingText(m) + CompoundingText(m) + ExplodingText(m)
  }

  /* ---------------------------------------------------------------------- */
  /* Parsing                                                                 */
  /* ---------------------------------------------------------------------- */

  /** `parseExplodeResult`: the trigger a token denotes (comparator defaults to `=`, threshold is `parseInt`). */
  function TriggerOf(tok: Token): (t: Trigger)
    requires tok.Valid()
    ensures tok.tail.cp.None? ==> t.cp == Equal
    ensures tok.tail.cp.Some? ==> Glyph(t.cp) == tok.tail.cp.value
    ensures t.threshold.None? <==> tok.tail.digits.None?
  {
    Trigger(
      if tok.tail.cp.Some? then ComparatorOf(tok.tail.cp.value) else Equal,
      if tok.tail.digits.Some? then Some(Decimal.Value(tok.tail.digits.value)) else None)
  }

  /** `parseExplodeResult`: store the token in its category, refusing a category that is already set. */
  function Record(m: Modifiers, tok: Token): (r: Result<Modifiers, Error>)
    requires tok.Valid()
    ensures CategoryOf(tok.marker).None? ==> r == Failure(UnexpectedMarker(tok.marker))
    ensures CategoryOf(tok.marker).Some? ==>
      var c := CategoryOf(tok.marker).value;
      && (r.Success? <==> Get(m, c).None?)
      && (r.Failure? ==> r.error == AlreadySet(c, CategoryText(m, c), tok.Text()))
      && (r.Success? ==> Get(r.value, c) == Some(TriggerOf(tok)))
      && (r.Success? ==> forall c' :: c' != c ==> Get(r.value, c') == Get(m, c'))
    ensures r.Success? && WellFormed(m) ==> WellFormed(r.value)
  {
    match CategoryOf(tok.marker)
    case None => Failure(UnexpectedMarker(tok.marker))
    case Some(c) =>
      if Get(m, c).Some? then Failure(AlreadySet(c, CategoryText(m, c), tok.Text()))
      else Success(Put(m, c, TriggerOf(tok)))
  }

  /** The constructor's loop over the shrinking string `s`; `original` is kept for the error message. */
  function ParseFrom(original: string, s: string, acc: Modifiers): (r: Result<Modifiers, Error>)
    ensures r.Success? ==> forall c :: Get(acc, c).Some? ==> Get(r.value, c) == Get(acc, c)
    ensures r.Success? && WellFormed(acc) ==> WellFormed(r.value)
    ensures r.Failure? ==> r.error.InvalidModifier? || r.error.AlreadySet? || r.error.UnexpectedMarker?
    decreases |s|
  {
    match Exec(s)
    case None =>
      if |s| > 0 then Failure(InvalidModifier(original, s)) else Success(acc)
    case Some(tok) =>
      var acc' :- Record(acc, tok);
      ParseFrom(original, Strings.DeleteFirst(s, tok.Text()), acc')
  }

  /**
   * The constructor `new DiceMod(modExpr)`. An absent expression is converted
   * to the text "undefined" or "null" by `exec`, which holds no `!`, and the
   * final emptiness test treats it as empty.
   */
  function Parse(expr: Option<string>): (r: Result<Modifiers, Error>)
    ensures r.Success? ==> WellFormed(r.value)
    ensures r.Failure? ==> r.error.InvalidModifier? || r.error.AlreadySet? || r.error.UnexpectedMarker?
  {
    match expr
    case None => Success(Unset)
    case Some(s) => ParseFrom(s, s, Unset)
  }

  /* ---------------------------------------------------------------------- */
  /* Roll hooks                                                              */
  /* ---------------------------------------------------------------------- */

  /** `rolled`: the implemented modifiers only append the rolled value. */
  function Rolled(roll: int, acc: seq<int>): (r: seq<int>)
    ensures |r| == |acc| + 1
    ensures r[..|acc|] == acc && r[|acc|] == roll
  {
    acc + [roll]
  }

  /** The sum of a sequence, accumulated from the left as `reduce` does. */
  function Sum(xs: seq<int>): int {
    if |xs| == 0 then 0 else Sum(xs[..|xs| - 1]) + xs[|xs| - 1]
  }

  /** `modResult`: `result.reduce((acc, val) => acc + val, 0)`. */
  method ModResult(rolls: seq<int>) returns (total: int)
    ensures total == Sum(rolls)
  {
    total := 0;
    var i := 0;
    while i < |rolls|
      invariant 0 <= i <= |rolls|
      invariant total == Sum(rolls[..i])
    {
      assert rolls[..i + 1][..i] == rolls[..i];
      total := total + rolls[i];
      i := i + 1;
    }
    assert rolls[..|rolls|] == rolls;
  }
}
