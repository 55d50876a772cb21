/**
 * `parenthesize`: turning the bracket structure of an expression string
 * into nested lists. Text outside any bracket pair becomes a string element;
 * each matched pair becomes one nested list holding the parse of its inside.
 */
module Parser {
  import opened Wrappers
  import opened Errors

  /** An element of an `IExpression` as `parenthesize` builds it: a string, or a nested list. */
  datatype Item = Text(text: string) | Nested(items: seq<Item>)

  /** `indexOf` for a single character: the first position holding `c`, or -1. */
  function IndexOf(s: string, c: char): (r: int)
    ensures -1 <= r < |s|
    ensures r >= 0 ==> s[r] == c && forall k :: 0 <= k < r ==> s[k] != c
    ensures r < 0 ==> forall k :: 0 <= k < |s| ==> s[k] != c
  {
    if s == [] then -1
    else if s[0] == c then 0
    else
      var k := IndexOf(s[1..], c);
      if k < 0 then -1 else k + 1
  }

  /** How one character moves the bracket depth; an opening bracket is recognised first, as in the scan. */
  function Delta(open: char, close: char, c: char): int {
    if c == open then 1 else if c == close then -1 else 0
  }

  /**
   * The scan for the bracket that closes the one at `first`: `mp` is the
   * last position looked at and `depth` the number of brackets still open
   * (the height of the source's stack). Reading past the end finds nothing.
   */
  function Scan(s: string, open: char, close: char, mp: nat, depth: nat): (r: Option<nat>)
    requires mp < |s|
    ensures r.Some? ==> mp <= r.value < |s| && (depth > 0 ==> mp < r.value)
    decreases |s| - mp
  {
    if depth == 0 then Some(mp)
    else if mp + 1 == |s| then None
    else Scan(s, open, close, mp + 1, depth + Delta(open, close, s[mp + 1]))
  }

  /**
   * The while loop of `parenthesize` as written, with its stack of open
   * positions: it stops when the stack empties or the position reaches the
   * end of the input.
   */
  method MatchingParen(s: string, open: char, close: char, first: nat) returns (found: bool, mp: nat)
    requires first < |s|
    ensures found <==> Scan(s, open, close, first, 1).Some?
    ensures found ==> Scan(s, open, close, first, 1) == Some(mp)
  {
    var stack: seq<nat> := [first];
    mp := first;
    while |stack| > 0 && mp < |s|
      invariant first <= mp <= |s|
      invariant mp < |s| ==> Scan(s, open, close, first, 1) == Scan(s, open, close, mp, |stack|)
      invariant mp == |s| ==> |stack| > 0 && Scan(s, open, close, first, 1).None?
      decreases |s| - mp
    {
      mp := mp + 1;
      if mp < |s| && s[mp] == open {
        stack := stack + [mp];
      } else if mp < |s| && s[mp] == close {
        stack := stack[..|stack| - 1];
      }
    }
    found := |stack| == 0;
  }

  /**
   * `parenthesize(input, openParenChar, closeParenChar)`, with the recursive
   * calls passing the delimiters on. With neither delimiter present the input
   * is the single element. A delimiter kind missing, a closing one first or
   * an opening one never closed is `UNMATCHED PARENTHESIS`. Otherwise the
   * text before the first opening bracket (when not empty), the parse of
   * the inside of the first pair, and the parse of what follows it.
   */
  function Parenthesize(s: string, open: char, close: char): (r: Result<seq<Item>, Error>)
    ensures r.Failure? ==> r.error == UnmatchedParenthesis
    ensures r.Success? ==> |r.value| > 0
    decreases |s|
  {
    var fo := IndexOf(s, open);
    var fc := IndexOf(s, close);
    if fo < 0 && fc < 0 then
      Success([Text(s)])
    else if fo < 0 || fc < 0 || fc < fo then
      Failure(UnmatchedParenthesis)
    else
      match Scan(s, open, close, fo, 1)
      case None => Failure(UnmatchedParenthesis)
      case Some(mp) =>
        var inner :- Parenthesize(s[fo + 1..mp], open, close);
        var rest :- if mp < |s| - 1 then Parenthesize(s[mp + 1..], open, close) else Success([]);
        Success((if fo > 0 then [Text(s[..fo])] else []) + [Nested(inner)] + rest)
  }

  /**
   * `parenthesize` as written: the recursive calls pass only the text, so
   * the inside of a pair and the remainder are parsed with the default
   * delimiters `(` and `)` whatever the caller chose.
   */
  function ParenthesizeAsWritten(s: string, open: char, close: char): (r: Result<seq<Item>, Error>)
    ensures r.Failure? ==> r.error == UnmatchedParenthesis
  {
    var fo := IndexOf(s, open);
    var fc := IndexOf(s, close);
    if fo < 0 && fc < 0 then
      Success([Text(s)])
    else if fo < 0 || fc < 0 || fc < fo then
      Failure(UnmatchedParenthesis)
    else
      match Scan(s, open, close, fo, 1)
      case None => Failure(UnmatchedParenthesis)
      case Some(mp) =>
        var inner :- Parenthesize(s[fo + 1..mp], '(', ')');
        var rest :- if mp < |s| - 1 then Parenthesize(s[mp + 1..], '(', ')') else Success([]);
        Success((if fo > 0 then [Text(s[..fo])] else []) + [Nested(inner)] + rest)
  }

  /** The inverse reading: each nested list wrapped in the delimiters, everything concatenated. */
  function Flatten(items: seq<Item>, open: char, close: char): string
    decreases items
  {
    if items == [] then []
    else
      (match items[0]
       case Text(t) => t
       case Nested(xs) => [open] + Flatten(xs, open, close) + [close])
      + Flatten(items[1..], open, close)
  }

  /** The bracket depth at the end of `s`: openings minus closings. */
  function Depth(s: string, open: char, close: char): int {
    if s == [] then 0 else Depth(s[..|s| - 1], open, close) + Delta(open, close, s[|s| - 1])
  }

  /** Every prefix has non-negative depth and the whole string has depth zero. */
  predicate Balanced(s: string, open: char, close: char) {
    && Depth(s, open, close) == 0
    && forall k :: 0 <= k <= |s| ==> Depth(s[..k], open, close) >= 0
  }

  /** A string holding neither delimiter. */
  predicate Plain(s: string, open: char, close: char) {
    forall k :: 0 <= k < |s| ==> s[k] != open && s[k] != close
  }

  /** No string element, at any nesting level, holds a delimiter. */
  predicate TextsPlain(items: seq<Item>, open: char, close: char)
    decreases items
  {
    forall k :: 0 <= k < |items| ==>
      match items[k]
      case Text(t) => Plain(t, open, close)
      case Nested(xs) => TextsPlain(xs, open, close)
  }

  /**
   * The shape of every parse: a lone (possibly empty) text; or a non-empty
   * text, then a nested list, then the rest; or a nested list, then the rest.
   * The rest is empty or again such a shape with non-empty text, so two texts
   * are never adjacent.
   */
  predicate Canonical(items: seq<Item>, open: char, close: char)
    decreases items
  {
    if |items| == 1 && items[0].Text? then
      Plain(items[0].text, open, close)
    else if |items| >= 2 && items[0].Text? then
      && items[0].text != [] && Plain(items[0].text, open, close)
      && items[1].Nested? && Canonical(items[1].items, open, close)
      && (items[2..] == [] || (Canonical(items[2..], open, close) && Flatten(items[2..], open, close) != []))
    else if |items| >= 1 && items[0].Nested? then
      && Canonical(items[0].items, open, close)
      && (items[1..] == [] || (Canonical(items[1..], open, close) && Flatten(items[1..], open, close) != []))
    else
      false
  }
}
