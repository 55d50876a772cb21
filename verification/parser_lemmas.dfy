/**
 * Properties of `parenthesize`: it succeeds exactly on balanced input, the
 * result flattens back to the input, no string element holds a delimiter,
 * and parses are exactly the canonical trees, each of which is the parse of
 * its own flattening.
 */
module ParserLemmas {
  import opened Wrappers
  import opened Errors
  import opened Parser
  import Strings

  /* ---------------------------------------------------------------------- */
  /* Depth arithmetic                                                        */
  /* ---------------------------------------------------------------------- */

  lemma {:induction false} DepthConcat(a: string, b: string, open: char, close: char)
    ensures Depth(a + b, open, close) == Depth(a, open, close) + Depth(b, open, close)
    decreases |b|
  {
    if b == [] {
      assert a + b == a;
    } else {
      var b' := b[..|b| - 1];
      assert (a + b)[..|a + b| - 1] == a + b';
      DepthConcat(a, b', open, close);
    }
  }

  lemma {:induction false} DepthPlain(t: string, open: char, close: char)
    requires Plain(t, open, close)
    ensures Depth(t, open, close) == 0
    decreases |t|
  {
    if t != [] {
      DepthPlain(t[..|t| - 1], open, close);
    }
  }

  /** Text without delimiters is balanced. */
  lemma PlainBalanced(t: string, open: char, close: char)
    requires Plain(t, open, close)
    ensures Balanced(t, open, close)
  {
    DepthPlain(t, open, close);
    forall k | 0 <= k <= |t|
      ensures Depth(t[..k], open, close) >= 0
    {
      DepthPlain(t[..k], open, close);
    }
  }

  /** Without a closing delimiter the depth never drops below zero. */
  lemma {:induction false} DepthNoClose(t: string, open: char, close: char)
    requires forall k :: 0 <= k < |t| ==> t[k] != close
    ensures Depth(t, open, close) >= 0
    decreases |t|
  {
    if t != [] {
      DepthNoClose(t[..|t| - 1], open, close);
    }
  }

  /** The depth of `s[from..to + 1]` from that of `s[from..to]`. */
  lemma DepthStep(s: string, from: nat, to: nat, open: char, close: char)
    requires from <= to < |s|
    ensures Depth(s[from..to + 1], open, close) == Depth(s[from..to], open, close) + Delta(open, close, s[to])
  {
    assert s[from..to + 1][..to - from] == s[from..to];
  }

  /** A leading stretch that returns to depth zero without dipping below it does not change balance. */
  lemma BalancedAfter(a: string, b: string, open: char, close: char)
    requires Balanced(a, open, close)
    ensures Balanced(a + b, open, close) <==> Balanced(b, open, close)
  {
    DepthConcat(a, b, open, close);
    forall j | 0 <= j <= |b|
      ensures Depth((a + b)[..|a| + j], open, close) == Depth(b[..j], open, close)
    {
      assert (a + b)[..|a| + j] == a + b[..j];
      DepthConcat(a, b[..j], open, close);
    }
    forall k | 0 <= k <= |a|
      ensures (a + b)[..k] == a[..k]
    {
    }
    if Balanced(b, open, close) {
      forall k | 0 <= k <= |a + b|
        ensures Depth((a + b)[..k], open, close) >= 0
      {
        if k > |a| {
          assert Depth((a + b)[..|a| + (k - |a|)], open, close) == Depth(b[..k - |a|], open, close);
        }
      }
    }
    if Balanced(a + b, open, close) {
      forall j | 0 <= j <= |b|
        ensures Depth(b[..j], open, close) >= 0
      {
        assert Depth((a + b)[..|a| + j], open, close) >= 0;
      }
    }
  }

  /* ---------------------------------------------------------------------- */
  /* The scan                                                                */
  /* ---------------------------------------------------------------------- */

  /** The depth of the stretch `s[from..to]`. */
  function Span(s: string, open: char, close: char, from: nat, to: nat): int
    requires from <= to <= |s|
  {
    Depth(s[from..to], open, close)
  }

  /** Every non-empty stretch that starts at `from` and ends by `to` still has a bracket open. */
  predicate StillOpen(s: string, open: char, close: char, from: nat, to: nat)
    requires from <= to <= |s|
  {
    forall j :: from < j <= to ==> Span(s, open, close, from, j) >= 1
  }

  /**
   * What the scan finds: the first position after `from` where the depth of
   * the stretch from `from` returns to zero, or nothing when there is none.
   */
  lemma {:induction false} ScanFinds(s: string, open: char, close: char, from: nat, mp: nat, depth: nat)
    requires from <= mp < |s|
    requires depth == Span(s, open, close, from, mp + 1)
    requires StillOpen(s, open, close, from, mp)
    ensures Scan(s, open, close, mp, depth).Some? ==>
      var e := Scan(s, open, close, mp, depth).value;
      Span(s, open, close, from, e + 1) == 0 && StillOpen(s, open, close, from, e)
    ensures Scan(s, open, close, mp, depth).None? ==> StillOpen(s, open, close, from, |s|)
    decreases |s| - mp
  {
    if depth != 0 && mp + 1 < |s| {
      DepthStep(s, from, mp + 1, open, close);
      ScanFinds(s, open, close, from, mp + 1, depth + Delta(open, close, s[mp + 1]));
    }
  }

  /** Two first returns to depth zero are the same position. */
  lemma FirstZero(s: string, open: char, close: char, from: nat, e: nat, e': nat)
    requires from <= e < |s| && from <= e' < |s|
    requires Span(s, open, close, from, e + 1) == 0 && StillOpen(s, open, close, from, e)
    requires Span(s, open, close, from, e' + 1) == 0 && StillOpen(s, open, close, from, e')
    ensures e == e'
  {
  }

  /** Conversely, the scan from an opening bracket stops at the first return to depth zero. */
  lemma ScanStops(s: string, open: char, close: char, from: nat, e: nat)
    requires from <= e < |s| && s[from] == open
    requires Span(s, open, close, from, e + 1) == 0 && StillOpen(s, open, close, from, e)
    ensures Scan(s, open, close, from, 1) == Some(e)
  {
    DepthStep(s, from, from, open, close);
    assert s[from..from] == [];
    ScanFinds(s, open, close, from, from, 1);
    var r := Scan(s, open, close, from, 1);
    if r.Some? {
      FirstZero(s, open, close, from, e, r.value);
    }
  }

  /* ---------------------------------------------------------------------- */
  /* The first bracket pair                                                  */
  /* ---------------------------------------------------------------------- */

  lemma DepthSingle(c: char, open: char, close: char)
    ensures Depth([c], open, close) == Delta(open, close, c)
  {
    assert [c][..0] == [];
  }

  /** The text before the first opening bracket holds no delimiter when no closing one comes earlier. */
  lemma PrefixPlain(s: string, open: char, close: char)
    requires IndexOf(s, open) >= 0 && IndexOf(s, close) >= IndexOf(s, open)
    ensures Plain(s[..IndexOf(s, open)], open, close)
  {
  }

  /** What the scan's result means, starting from the first opening bracket. */
  lemma FirstPair(s: string, open: char, close: char, fo: nat, mp: nat)
    requires fo < |s| && s[fo] == open
    requires Scan(s, open, close, fo, 1) == Some(mp)
    ensures fo < mp && Span(s, open, close, fo, mp + 1) == 0 && StillOpen(s, open, close, fo, mp)
    ensures s[mp] == close && open != close && Span(s, open, close, fo, mp) == 1
  {
    DepthStep(s, fo, fo, open, close);
    assert s[fo..fo] == [];
    ScanFinds(s, open, close, fo, fo, 1);
    DepthStep(s, fo, mp, open, close);
    assert Span(s, open, close, fo, mp) >= 1;
  }

  /** The inside of the first pair is balanced. */
  lemma InsideBalanced(s: string, open: char, close: char, fo: nat, mp: nat)
    requires fo < mp < |s| && s[fo] == open
    requires StillOpen(s, open, close, fo, mp) && Span(s, open, close, fo, mp) == 1
    ensures Balanced(s[fo + 1..mp], open, close)
  {
    var inner := s[fo + 1..mp];
    DepthSingle(open, open, close);
    forall i | 0 <= i <= |inner|
      ensures Span(s, open, close, fo, fo + 1 + i) == 1 + Depth(inner[..i], open, close)
    {
      assert s[fo..fo + 1 + i] == [open] + inner[..i];
      DepthConcat([open], inner[..i], open, close);
    }
    assert inner[..|inner|] == inner;
    forall i | 0 <= i <= |inner|
      ensures Depth(inner[..i], open, close) >= 0
    {
      assert Span(s, open, close, fo, fo + 1 + i) >= 1;
    }
  }

  /** Up to and including the matching bracket, the input returns to depth zero without dipping below it. */
  lemma ThroughPair(s: string, open: char, close: char, fo: nat, mp: nat)
    requires fo < mp < |s|
    requires Plain(s[..fo], open, close)
    requires StillOpen(s, open, close, fo, mp) && Span(s, open, close, fo, mp + 1) == 0
    ensures Balanced(s[..mp + 1], open, close)
  {
    assert s[..mp + 1][..mp + 1] == s[..mp + 1];
    forall k | fo < k <= mp + 1
      ensures Depth(s[..k], open, close) == Span(s, open, close, fo, k)
    {
      assert s[..k] == s[..fo] + s[fo..k];
      DepthConcat(s[..fo], s[fo..k], open, close);
      DepthPlain(s[..fo], open, close);
    }
    var a := s[..mp + 1];
    forall k | 0 <= k <= |a|
      ensures Depth(a[..k], open, close) >= 0
    {
      assert a[..k] == s[..k];
      if k <= fo {
        assert s[..k] == s[..fo][..k];
        DepthPlain(s[..k], open, close);
      }
    }
  }

  /* ---------------------------------------------------------------------- */
  /* Failing inputs are unbalanced                                          */
  /* ---------------------------------------------------------------------- */

  /** A closing bracket that comes before any opening one drives the depth below zero. */
  lemma CloseFirst(s: string, open: char, close: char, fc: nat)
    requires fc < |s| && s[fc] == close && s[fc] != open
    requires Plain(s[..fc], open, close)
    ensures !Balanced(s, open, close)
  {
    DepthStep(s, 0, fc, open, close);
    DepthPlain(s[..fc], open, close);
    assert s[0..fc] == s[..fc] && s[0..fc + 1] == s[..fc + 1];
    assert Depth(s[..fc + 1], open, close) < 0;
  }

  /** An opening bracket with no closing one anywhere leaves the depth positive. */
  lemma NeverClosed(s: string, open: char, close: char)
    requires IndexOf(s, open) >= 0 && IndexOf(s, close) < 0
    ensures Depth(s, open, close) >= 1
  {
    var fo := IndexOf(s, open);
    assert s == s[..fo + 1] + s[fo + 1..];
    DepthConcat(s[..fo + 1], s[fo + 1..], open, close);
    DepthStep(s, 0, fo, open, close);
    assert s[0..fo] == s[..fo] && s[0..fo + 1] == s[..fo + 1];
    DepthNoClose(s[..fo], open, close);
    DepthNoClose(s[fo + 1..], open, close);
  }

  /** When the scan runs off the end, the first bracket is still open at the end. */
  lemma Unclosed(s: string, open: char, close: char, fo: nat)
    requires fo < |s| && s[fo] == open
    requires Plain(s[..fo], open, close)
    requires Scan(s, open, close, fo, 1).None?
    ensures Depth(s, open, close) >= 1
  {
    DepthStep(s, fo, fo, open, close);
    assert s[fo..fo] == [];
    ScanFinds(s, open, close, fo, fo, 1);
    assert Span(s, open, close, fo, |s|) >= 1;
    assert s[fo..|s|] == s[fo..];
    assert s == s[..fo] + s[fo..];
    DepthConcat(s[..fo], s[fo..], open, close);
    DepthPlain(s[..fo], open, close);
  }

  /* ---------------------------------------------------------------------- */
  /* Success exactly on balanced input                                      */
  /* ---------------------------------------------------------------------- */

  /** The parse after the first pair is what `parenthesize` makes of everything after it. */
  function Remainder(s: string, open: char, close: char, mp: nat): Result<seq<Item>, Error>
    requires mp < |s|
  {
    if mp < |s| - 1 then Parenthesize(s[mp + 1..], open, close) else Success([])
  }

  /** One step of `parenthesize` once the first pair `fo`..`mp` is found. */
  lemma ParseStep(s: string, open: char, close: char, mp: nat)
    requires IndexOf(s, open) >= 0 && IndexOf(s, close) >= IndexOf(s, open)
    requires Scan(s, open, close, IndexOf(s, open), 1) == Some(mp)
    ensures var fo := IndexOf(s, open);
      var inner := Parenthesize(s[fo + 1..mp], open, close);
      var rest := Remainder(s, open, close, mp);
      && (Parenthesize(s, open, close).Success? <==> inner.Success? && rest.Success?)
      && (Parenthesize(s, open, close).Success? ==>
            Parenthesize(s, open, close).value
            == (if fo > 0 then [Text(s[..fo])] else []) + [Nested(inner.value)] + rest.value)
  {
    var fo := IndexOf(s, open);
    var fc := IndexOf(s, close);
    assert !(fo < 0 || fc < 0 || fc < fo);
  }

  /** Whether the input has a first bracket pair for `parenthesize` to split at. */
  predicate HasPair(s: string, open: char, close: char) {
    && IndexOf(s, open) >= 0 && IndexOf(s, close) >= IndexOf(s, open)
    && Scan(s, open, close, IndexOf(s, open), 1).Some?
  }

  /** Without a first pair the input parses exactly when it is plain, and then it is balanced; otherwise it is not. */
  lemma NoPair(s: string, open: char, close: char)
    requires !HasPair(s, open, close)
    ensures Parenthesize(s, open, close).Success? <==> Balanced(s, open, close)
  {
    var fo := IndexOf(s, open);
    var fc := IndexOf(s, close);
    if fo < 0 && fc < 0 {
      PlainBalanced(s, open, close);
    } else if fo < 0 {
      CloseFirst(s, open, close, fc);
    } else if fc < 0 {
      NeverClosed(s, open, close);
    } else if fc < fo {
      CloseFirst(s, open, close, fc);
    } else {
      PrefixPlain(s, open, close);
      Unclosed(s, open, close, fo);
    }
  }

  /** With a first pair, success and balance both reduce to the inside and the remainder. */
  lemma PairCase(s: string, open: char, close: char, mp: nat)
    requires HasPair(s, open, close) && Scan(s, open, close, IndexOf(s, open), 1) == Some(mp)
    requires Parenthesize(s[IndexOf(s, open) + 1..mp], open, close).Success?
             <==> Balanced(s[IndexOf(s, open) + 1..mp], open, close)
    requires mp < |s| - 1 ==> (Parenthesize(s[mp + 1..], open, close).Success? <==> Balanced(s[mp + 1..], open, close))
    ensures Parenthesize(s, open, close).Success? <==> Balanced(s, open, close)
  {
    var fo := IndexOf(s, open);
    ParseStep(s, open, close, mp);
    PrefixPlain(s, open, close);
    FirstPair(s, open, close, fo, mp);
    InsideBalanced(s, open, close, fo, mp);
    ThroughPair(s, open, close, fo, mp);
    BalancedSplit(s, open, close, mp);
  }

  /** After a balanced prefix, balance depends only on what follows. */
  lemma BalancedSplit(s: string, open: char, close: char, mp: nat)
    requires mp < |s| && Balanced(s[..mp + 1], open, close)
    ensures Balanced(s, open, close) <==> (mp < |s| - 1 ==> Balanced(s[mp + 1..], open, close))
  {
    assert s == s[..mp + 1] + s[mp + 1..];
    BalancedAfter(s[..mp + 1], s[mp + 1..], open, close);
    if mp == |s| - 1 {
      assert s[mp + 1..] == [];
      PlainBalanced([], open, close);
    }
  }

  /** `parenthesize` succeeds exactly when the input is balanced in its delimiters. */
  lemma {:induction false} ParseSucceedsIffBalanced(s: string, open: char, close: char)
    ensures Parenthesize(s, open, close).Success? <==> Balanced(s, open, close)
    decreases |s|
  {
    if HasPair(s, open, close) {
      var fo := IndexOf(s, open);
      var mp := Scan(s, open, close, fo, 1).value;
      ParseSucceedsIffBalanced(s[fo + 1..mp], open, close);
      if mp < |s| - 1 {
        ParseSucceedsIffBalanced(s[mp + 1..], open, close);
      }
      PairCase(s, open, close, mp);
    } else {
      NoPair(s, open, close);
    }
  }

  /* ---------------------------------------------------------------------- */
  /* The parse flattens back to the input                                   */
  /* ---------------------------------------------------------------------- */

  lemma {:induction false} FlattenConcat(a: seq<Item>, b: seq<Item>, open: char, close: char)
    ensures Flatten(a + b, open, close) == Flatten(a, open, close) + Flatten(b, open, close)
    decreases |a|
  {
    if a == [] {
      assert a + b == b;
    } else {
      assert (a + b)[0] == a[0];
      assert (a + b)[1..] == a[1..] + b;
      FlattenConcat(a[1..], b, open, close);
    }
  }

  lemma FlattenText(t: string, open: char, close: char)
    ensures Flatten([Text(t)], open, close) == t
  {
    assert [Text(t)][1..] == [];
  }

  /** The flattening of a parse built around one pair. */
  lemma FlattenPieces(t: string, inner: seq<Item>, rest: seq<Item>, open: char, close: char)
    ensures Flatten((if t != [] then [Text(t)] else []) + [Nested(inner)] + rest, open, close)
            == t + ([open] + Flatten(inner, open, close) + [close]) + Flatten(rest, open, close)
  {
    var pre: seq<Item> := if t != [] then [Text(t)] else [];
    FlattenConcat(pre + [Nested(inner)], rest, open, close);
    FlattenConcat(pre, [Nested(inner)], open, close);
    assert [Nested(inner)][1..] == [];
    if t != [] {
      FlattenText(t, open, close);
    }
  }

  /** The input cut around its first pair. */
  lemma SplitAtPair(s: string, fo: nat, mp: nat)
    requires fo < mp < |s|
    ensures s == s[..fo] + ([s[fo]] + s[fo + 1..mp] + [s[mp]]) + s[mp + 1..]
  {
  }

  lemma PairFlattens(s: string, open: char, close: char, mp: nat)
    requires IndexOf(s, open) >= 0 && IndexOf(s, close) >= IndexOf(s, open)
    requires Scan(s, open, close, IndexOf(s, open), 1) == Some(mp)
    requires var inner := s[IndexOf(s, open) + 1..mp];
      Parenthesize(inner, open, close).Success? ==> Flatten(Parenthesize(inner, open, close).value, open, close) == inner
    requires mp < |s| - 1 && Parenthesize(s[mp + 1..], open, close).Success? ==>
      Flatten(Parenthesize(s[mp + 1..], open, close).value, open, close) == s[mp + 1..]
    ensures Parenthesize(s, open, close).Success? ==> Flatten(Parenthesize(s, open, close).value, open, close) == s
  {
    var fo := IndexOf(s, open);
    ParseStep(s, open, close, mp);
    FirstPair(s, open, close, fo, mp);
    if Parenthesize(s, open, close).Success? {
      var inner := Parenthesize(s[fo + 1..mp], open, close).value;
      var rest := Remainder(s, open, close, mp).value;
      assert fo > 0 <==> s[..fo] != [];
      FlattenPieces(s[..fo], inner, rest, open, close);
      if mp == |s| - 1 {
        assert s[mp + 1..] == [];
      }
      SplitAtPair(s, fo, mp);
    }
  }

  /** Concatenating the parse, with every nested list wrapped in the delimiters, gives back the input. */
  lemma {:induction false} ParseFlattens(s: string, open: char, close: char)
    ensures Parenthesize(s, open, close).Success? ==> Flatten(Parenthesize(s, open, close).value, open, close) == s
    decreases |s|
  {
    if HasPair(s, open, close) {
      var fo := IndexOf(s, open);
      var mp := Scan(s, open, close, fo, 1).value;
      ParseFlattens(s[fo + 1..mp], open, close);
      if mp < |s| - 1 {
        ParseFlattens(s[mp + 1..], open, close);
      }
      PairFlattens(s, open, close, mp);
    } else if IndexOf(s, open) < 0 && IndexOf(s, close) < 0 {
      FlattenText(s, open, close);
    }
  }

  /* ---------------------------------------------------------------------- */
  /* Every parse is canonical and holds no delimiter in its texts           */
  /* ---------------------------------------------------------------------- */

  /** A canonical list built around one pair. */
  lemma CanonicalPieces(t: string, inner: seq<Item>, rest: seq<Item>, open: char, close: char)
    requires Plain(t, open, close) && Canonical(inner, open, close)
    requires rest == [] || (Canonical(rest, open, close) && Flatten(rest, open, close) != [])
    ensures Canonical((if t != [] then [Text(t)] else []) + [Nested(inner)] + rest, open, close)
  {
    var items := (if t != [] then [Text(t)] else []) + [Nested(inner)] + rest;
    if t != [] {
      assert items[0] == Text(t) && items[1] == Nested(inner) && items[2..] == rest;
    } else {
      assert items[0] == Nested(inner) && items[1..] == rest;
    }
  }

  lemma PairCanonical(s: string, open: char, close: char, mp: nat)
    requires IndexOf(s, open) >= 0 && IndexOf(s, close) >= IndexOf(s, open)
    requires Scan(s, open, close, IndexOf(s, open), 1) == Some(mp)
    requires var inner := s[IndexOf(s, open) + 1..mp];
      Parenthesize(inner, open, close).Success? ==> Canonical(Parenthesize(inner, open, close).value, open, close)
    requires mp < |s| - 1 && Parenthesize(s[mp + 1..], open, close).Success? ==>
      Canonical(Parenthesize(s[mp + 1..], open, close).value, open, close)
    ensures Parenthesize(s, open, close).Success? ==> Canonical(Parenthesize(s, open, close).value, open, close)
  {
    var fo := IndexOf(s, open);
    ParseStep(s, open, close, mp);
    PrefixPlain(s, open, close);
    if Parenthesize(s, open, close).Success? {
      var inner := Parenthesize(s[fo + 1..mp], open, close).value;
      var rest := Remainder(s, open, close, mp).value;
      assert fo > 0 <==> s[..fo] != [];
      if mp < |s| - 1 {
        ParseFlattens(s[mp + 1..], open, close);
        assert s[mp + 1..] != [];
      }
      CanonicalPieces(s[..fo], inner, rest, open, close);
    }
  }

  /** Every successful parse has the canonical shape. */
  lemma {:induction false} ParseIsCanonical(s: string, open: char, close: char)
    ensures Parenthesize(s, open, close).Success? ==> Canonical(Parenthesize(s, open, close).value, open, close)
    decreases |s|
  {
    if HasPair(s, open, close) {
      var fo := IndexOf(s, open);
      var mp := Scan(s, open, close, fo, 1).value;
      ParseIsCanonical(s[fo + 1..mp], open, close);
      if mp < |s| - 1 {
        ParseIsCanonical(s[mp + 1..], open, close);
      }
      PairCanonical(s, open, close, mp);
    }
  }

  /** The texts of a canonical list, at every depth, hold no delimiter. */
  lemma {:induction false} CanonicalTextsPlain(items: seq<Item>, open: char, close: char)
    requires Canonical(items, open, close)
    ensures TextsPlain(items, open, close)
    decreases items
  {
    if |items| >= 2 && items[0].Text? {
      CanonicalTextsPlain(items[1].items, open, close);
      if items[2..] != [] {
        CanonicalTextsPlain(items[2..], open, close);
        assert forall k :: 2 <= k < |items| ==> items[k] == items[2..][k - 2];
      }
    } else if |items| >= 1 && items[0].Nested? {
      CanonicalTextsPlain(items[0].items, open, close);
      if items[1..] != [] {
        CanonicalTextsPlain(items[1..], open, close);
        assert forall k :: 1 <= k < |items| ==> items[k] == items[1..][k - 1];
      }
    }
  }

  /** No string element of a parse, at any depth, holds a delimiter. */
  lemma ParseTextsPlain(s: string, open: char, close: char)
    ensures Parenthesize(s, open, close).Success? ==> TextsPlain(Parenthesize(s, open, close).value, open, close)
  {
    ParseIsCanonical(s, open, close);
    if Parenthesize(s, open, close).Success? {
      CanonicalTextsPlain(Parenthesize(s, open, close).value, open, close);
    }
  }

  /* ---------------------------------------------------------------------- */
  /* Every canonical list is the parse of its flattening                    */
  /* ---------------------------------------------------------------------- */

  /** An opening bracket followed by a balanced body and a closing bracket is closed exactly there. */
  lemma ScanAcross(s: string, open: char, close: char, fo: nat, n: nat)
    requires open != close && fo + n + 1 < |s|
    requires s[fo] == open && s[fo + n + 1] == close
    requires Balanced(s[fo + 1..fo + 1 + n], open, close)
    ensures Scan(s, open, close, fo, 1) == Some(fo + n + 1)
  {
    var body := s[fo + 1..fo + 1 + n];
    DepthSingle(open, open, close);
    forall j | fo < j <= fo + n + 1
      ensures Span(s, open, close, fo, j) == 1 + Depth(body[..j - fo - 1], open, close) >= 1
    {
      assert s[fo..j] == [open] + body[..j - fo - 1];
      DepthConcat([open], body[..j - fo - 1], open, close);
    }
    assert body[..n] == body;
    DepthStep(s, fo, fo + n + 1, open, close);
    assert StillOpen(s, open, close, fo, fo + n + 1);
    assert Span(s, open, close, fo, fo + n + 1) == 1 + Depth(body[..n], open, close) == 1;
    ScanStops(s, open, close, fo, fo + n + 1);
  }

  /** A character that does not occur has no index. */
  lemma {:induction false} IndexAbsent(s: string, c: char)
    requires forall k :: 0 <= k < |s| ==> s[k] != c
    ensures IndexOf(s, c) < 0
    decreases |s|
  {
    if s != [] {
      IndexAbsent(s[1..], c);
    }
  }

  /**
   * The parser's `indexOf` of one character is the general string search
   * with a one-character pattern from index 0, with -1 standing for "absent".
   */
  lemma IndexOfAgrees(s: string, c: char)
    ensures IndexOf(s, c) == (match Strings.IndexOf(s, [c], 0) case None => -1 case Some(k) => k)
  {
    forall k | 0 <= k < |s|
      ensures Strings.OccursAt(s, [c], k) <==> s[k] == c
    {
      assert s[k..k + 1][0] == s[k];
    }
  }

  /** Text without delimiters reads as itself. */
  lemma PlainParses(t: string, open: char, close: char)
    requires Plain(t, open, close)
    ensures Parenthesize(t, open, close) == Success([Text(t)])
  {
    IndexAbsent(t, open);
    IndexAbsent(t, close);
  }

  /** Searching past a prefix that does not hold `c`. */
  lemma {:induction false} IndexAfter(t: string, u: string, c: char)
    requires forall k :: 0 <= k < |t| ==> t[k] != c
    ensures IndexOf(t + u, c) == (if IndexOf(u, c) < 0 then -1 else |t| + IndexOf(u, c))
    decreases |t|
  {
    if t == [] {
      assert t + u == u;
    } else {
      assert (t + u)[1..] == t[1..] + u;
      IndexAfter(t[1..], u, c);
    }
  }

  /** The pieces of text, bracketed body and remainder, read back by position. */
  lemma CutSlices(t: string, body: string, after: string, open: char, close: char)
    ensures var s := t + ([open] + body + [close]) + after;
      var mp := |t| + |body| + 1;
      && s == t + ([open] + body + [close] + after)
      && s[|t|] == open && s[mp] == close
      && s[..|t|] == t && s[|t| + 1..mp] == body && s[mp + 1..] == after
  {
  }

  /** Where `parenthesize` cuts text, then a bracketed balanced body, then anything. */
  lemma CutAround(t: string, body: string, after: string, open: char, close: char)
    requires open != close && Plain(t, open, close) && Balanced(body, open, close)
    ensures var s := t + ([open] + body + [close]) + after;
      var mp := |t| + |body| + 1;
      && IndexOf(s, open) == |t| && IndexOf(s, close) >= |t|
      && Scan(s, open, close, |t|, 1) == Some(mp)
      && s[..|t|] == t && s[|t| + 1..mp] == body && s[mp + 1..] == after
  {
    CutSlices(t, body, after, open, close);
    CutIndices(t, [open] + body + [close] + after, open, close, |body| + 1);
    ScanAcross(t + ([open] + body + [close] + after), open, close, |t|, |body|);
  }

  /** The first delimiters after plain text that an opening bracket ends. */
  lemma CutIndices(t: string, u: string, open: char, close: char, m: nat)
    requires Plain(t, open, close)
    requires 0 < m < |u| && u[0] == open && u[m] == close
    ensures IndexOf(t + u, open) == |t| && IndexOf(t + u, close) >= |t|
  {
    IndexAfter(t, u, open);
    IndexAfter(t, u, close);
  }

  /**
   * One step of `parenthesize` read forwards: plain text, then a bracketed
   * body that parses, then a remainder, parse to the text, the nested parse
   * of the body and the parse of the remainder, and fail exactly when the
   * remainder does.
   */
  lemma ParseAround(t: string, body: string, after: string, open: char, close: char)
    requires open != close && Plain(t, open, close)
    requires Parenthesize(body, open, close).Success?
    ensures var r := Parenthesize(t + ([open] + body + [close]) + after, open, close);
      var rest := if after == [] then Success([]) else Parenthesize(after, open, close);
      && (r.Success? <==> rest.Success?)
      && (r.Success? ==>
            r.value == (if t != [] then [Text(t)] else []) + [Nested(Parenthesize(body, open, close).value)] + rest.value)
  {
    var s := t + ([open] + body + [close]) + after;
    var mp := |t| + |body| + 1;
    ParseSucceedsIffBalanced(body, open, close);
    CutAround(t, body, after, open, close);
    assert Remainder(s, open, close, mp) == if after == [] then Success([]) else Parenthesize(after, open, close);
    ParseStep(s, open, close, mp);
  }

  /** Plain text and a bracketed balanced body leave the balance of the whole to the remainder. */
  lemma BalancedAround(t: string, body: string, after: string, open: char, close: char)
    requires open != close && Plain(t, open, close) && Balanced(body, open, close)
    ensures Balanced(t + ([open] + body + [close]) + after, open, close) <==> Balanced(after, open, close)
  {
    ParseSucceedsIffBalanced(body, open, close);
    ParseAround(t, body, after, open, close);
    ParseSucceedsIffBalanced(t + ([open] + body + [close]) + after, open, close);
    ParseSucceedsIffBalanced(after, open, close);
    PlainBalanced([], open, close);
  }

  /** The reading of a list built around one pair, given the readings of its parts. */
  lemma ParsePieces(t: string, inner: seq<Item>, rest: seq<Item>, open: char, close: char)
    requires open != close && Plain(t, open, close)
    requires Parenthesize(Flatten(inner, open, close), open, close) == Success(inner)
    requires rest == [] || (Flatten(rest, open, close) != [] && Parenthesize(Flatten(rest, open, close), open, close) == Success(rest))
    ensures var items := (if t != [] then [Text(t)] else []) + [Nested(inner)] + rest;
      Parenthesize(Flatten(items, open, close), open, close) == Success(items)
  {
    FlattenPieces(t, inner, rest, open, close);
    ParseAround(t, Flatten(inner, open, close), Flatten(rest, open, close), open, close);
  }

  /** A list of at least one element, cut as `Canonical` reads it. */
  lemma ItemsPieces(items: seq<Item>)
    requires |items| >= 1
    ensures |items| == 1 && items[0].Text? ==> items == [Text(items[0].text)]
    ensures |items| >= 2 && items[0].Text? && items[1].Nested? ==>
      items == [Text(items[0].text)] + [Nested(items[1].items)] + items[2..]
    ensures items[0].Nested? ==> items == [] + [Nested(items[0].items)] + items[1..]
  {
  }

  /** A canonical list is what `parenthesize` makes of its own flattening. */
  lemma {:induction false} CanonicalParses(items: seq<Item>, open: char, close: char)
    requires open != close && Canonical(items, open, close)
    ensures Parenthesize(Flatten(items, open, close), open, close) == Success(items)
    decreases items
  {
    if |items| == 1 && items[0].Text? {
      FlattenText(items[0].text, open, close);
      PlainParses(items[0].text, open, close);
      ItemsPieces(items);
    } else if |items| >= 2 && items[0].Text? {
      CanonicalParses(items[1].items, open, close);
      if items[2..] != [] {
        CanonicalParses(items[2..], open, close);
      }
      ParsePieces(items[0].text, items[1].items, items[2..], open, close);
      ItemsPieces(items);
    } else {
      CanonicalParses(items[0].items, open, close);
      if items[1..] != [] {
        CanonicalParses(items[1..], open, close);
      }
      ParsePieces([], items[0].items, items[1..], open, close);
      ItemsPieces(items);
    }
  }
}
