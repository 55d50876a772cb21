/**
 * The inputs the repository's own tests give `parenthesize` with the
 * default delimiters, and the inputs on which passing the delimiters on to
 * the recursive calls makes a difference.
 */
module ParserExamples {
  import opened Wrappers
  import opened Errors
  import opened Parser
  import opened ParserLemmas

  /** Text, a bracketed body and a remainder, with the default delimiters. */
  function Around(t: string, body: string, after: string): string {
    t + (['('] + body + [')']) + after
  }

  /* ---------------------------------------------------------------------- */
  /* Accepted inputs                                                        */
  /* ---------------------------------------------------------------------- */

  /* The expected parses of the accepted inputs are canonical and flatten back to them. */

  lemma ParenthesizedShape()
    ensures Canonical([Nested([Text("Hello world")])], '(', ')')
  {
  }

  lemma ParenthesizedSpelling()
    ensures Flatten([Nested([Text("Hello world")])], '(', ')') == "(Hello world)"
  {
  }

  lemma TextThenPairShape()
    ensures Canonical([Text("Hello "), Nested([Text("world")])], '(', ')')
  {
  }

  lemma TextThenPairSpelling()
    ensures Flatten([Text("Hello "), Nested([Text("world")])], '(', ')') == "Hello (world)"
  {
  }

  lemma TwoPairsShape()
    ensures Canonical([Text("He"), Nested([Text("llo")]), Text(" wo"), Nested([Text("rld")])], '(', ')')
  {
  }

  lemma TwoPairsSpelling()
    ensures Flatten([Text("He"), Nested([Text("llo")]), Text(" wo"), Nested([Text("rld")])], '(', ')') == "He(llo) wo(rld)"
  {
  }

  lemma NestedPairShape()
    ensures Canonical([Text("Hello "), Nested([Nested([Text("wo")]), Text("rld")])], '(', ')')
  {
  }

  lemma NestedPairSpelling()
    ensures Flatten([Text("Hello "), Nested([Nested([Text("wo")]), Text("rld")])], '(', ')') == "Hello ((wo)rld)"
  {
  }

  lemma MixedNestingShape()
    ensures Canonical([Text("He"), Nested([Text("ll")]), Text("o "),
                       Nested([Nested([Text("wo")]), Text("r"), Nested([Text("l")]), Text("d")])], '(', ')')
  {
  }

  lemma MixedInnerSpelling()
    ensures Flatten([Nested([Text("wo")]), Text("r"), Nested([Text("l")]), Text("d")], '(', ')') == "(wo)r(l)d"
  {
    var tail := [Text("r"), Nested([Text("l")]), Text("d")];
    FlattenPieces("r", [Text("l")], [Text("d")], '(', ')');
    FlattenText("d", '(', ')');
    FlattenText("wo", '(', ')');
    FlattenText("l", '(', ')');
    assert [Text("r")] + [Nested([Text("l")])] + [Text("d")] == tail;
    FlattenPieces("", [Text("wo")], tail, '(', ')');
    assert [] + [Nested([Text("wo")])] + tail == [Nested([Text("wo")]), Text("r"), Nested([Text("l")]), Text("d")];
  }

  lemma MixedNestingSpelling()
    ensures Flatten([Text("He"), Nested([Text("ll")]), Text("o "),
                     Nested([Nested([Text("wo")]), Text("r"), Nested([Text("l")]), Text("d")])], '(', ')')
            == "He(ll)o ((wo)r(l)d)"
  {
    var inner := [Nested([Text("wo")]), Text("r"), Nested([Text("l")]), Text("d")];
    var rest := [Text("o "), Nested(inner)];
    MixedRestSpelling();
    FlattenText("ll", '(', ')');
    FlattenPieces("He", [Text("ll")], rest, '(', ')');
    assert "He" + ("(" + "ll" + ")") + "o ((wo)r(l)d)" == "He(ll)o ((wo)r(l)d)";
  }

  lemma MixedRestSpelling()
    ensures Flatten([Text("o "), Nested([Nested([Text("wo")]), Text("r"), Nested([Text("l")]), Text("d")])], '(', ')')
            == "o ((wo)r(l)d)"
  {
    var inner := [Nested([Text("wo")]), Text("r"), Nested([Text("l")]), Text("d")];
    MixedInnerSpelling();
    FlattenPieces("o ", inner, [], '(', ')');
    assert [Text("o ")] + [Nested(inner)] + [] == [Text("o "), Nested(inner)];
    assert "o " + ("(" + "(wo)r(l)d" + ")") + [] == "o ((wo)r(l)d)";
  }

  lemma EmptyPairFirstShape()
    ensures Canonical([Nested([Text("")]), Text("Hello world")], '(', ')')
  {
  }

  lemma EmptyPairFirstSpelling()
    ensures Flatten([Nested([Text("")]), Text("Hello world")], '(', ')') == "()Hello world"
  {
  }

  lemma AcceptsPlain()
    ensures Parenthesize("", '(', ')') == Success([Text("")])
    ensures Parenthesize("Hello world", '(', ')') == Success([Text("Hello world")])
  {
    PlainParses("", '(', ')');
    PlainParses("Hello world", '(', ')');
  }

  lemma AcceptsParenthesized()
    ensures Parenthesize("(Hello world)", '(', ')') == Success([Nested([Text("Hello world")])])
  {
    ParenthesizedShape();
    ParenthesizedSpelling();
    CanonicalParses([Nested([Text("Hello world")])], '(', ')');
  }

  lemma AcceptsTextThenPair()
    ensures Parenthesize("Hello (world)", '(', ')') == Success([Text("Hello "), Nested([Text("world")])])
  {
    TextThenPairShape();
    TextThenPairSpelling();
    CanonicalParses([Text("Hello "), Nested([Text("world")])], '(', ')');
  }

  lemma AcceptsTwoPairs()
    ensures Parenthesize("He(llo) wo(rld)", '(', ')')
            == Success([Text("He"), Nested([Text("llo")]), Text(" wo"), Nested([Text("rld")])])
  {
    TwoPairsShape();
    TwoPairsSpelling();
    CanonicalParses([Text("He"), Nested([Text("llo")]), Text(" wo"), Nested([Text("rld")])], '(', ')');
  }

  lemma AcceptsNestedPair()
    ensures Parenthesize("Hello ((wo)rld)", '(', ')')
            == Success([Text("Hello "), Nested([Nested([Text("wo")]), Text("rld")])])
  {
    NestedPairShape();
    NestedPairSpelling();
    CanonicalParses([Text("Hello "), Nested([Nested([Text("wo")]), Text("rld")])], '(', ')');
  }

  lemma AcceptsMixedNesting()
    ensures Parenthesize("He(ll)o ((wo)r(l)d)", '(', ')')
            == Success([Text("He"), Nested([Text("ll")]), Text("o "),
                        Nested([Nested([Text("wo")]), Text("r"), Nested([Text("l")]), Text("d")])])
  {
    MixedNestingShape();
    MixedNestingSpelling();
    CanonicalParses([Text("He"), Nested([Text("ll")]), Text("o "),
                     Nested([Nested([Text("wo")]), Text("r"), Nested([Text("l")]), Text("d")])], '(', ')');
  }

  lemma AcceptsEmptyPairFirst()
    ensures Parenthesize("()Hello world", '(', ')') == Success([Nested([Text("")]), Text("Hello world")])
  {
    EmptyPairFirstShape();
    EmptyPairFirstSpelling();
    CanonicalParses([Nested([Text("")]), Text("Hello world")], '(', ')');
  }

  /* ---------------------------------------------------------------------- */
  /* Rejected inputs                                                        */
  /* ---------------------------------------------------------------------- */

  /** How the rejected inputs that hold a complete pair are put together. */
  lemma RejectedSpellings()
    ensures "He()llo ) world" == Around("He", "", "llo ) world")
    ensures "()" == Around("", "", "")
    ensures "(()))" == Around("", "()", ")")
    ensures "(()()" == "(" + "()" + "()"
  {
  }

  lemma RejectsLoneOpen()
    ensures Parenthesize("(", '(', ')') == Failure(UnmatchedParenthesis)
  {
    IndexAbsent("(", ')');
  }

  lemma RejectsLoneClose()
    ensures Parenthesize(")", '(', ')') == Failure(UnmatchedParenthesis)
  {
    IndexAbsent(")", '(');
  }

  lemma RejectsUnclosedAfterText()
    ensures Parenthesize("Hello ( world", '(', ')') == Failure(UnmatchedParenthesis)
  {
    IndexAbsent("Hello ( world", ')');
    assert "Hello ( world"[6] == '(';
  }

  lemma RejectsCloseFirst()
    ensures Parenthesize(")(", '(', ')') == Failure(UnmatchedParenthesis)
  {
    IndexAfter(")", "(", '(');
  }

  /** A closing bracket left over after a complete pair. */
  lemma RejectsStrayClose()
    ensures Parenthesize("He()llo ) world", '(', ')') == Failure(UnmatchedParenthesis)
  {
    RejectedSpellings();
    PlainBalanced("", '(', ')');
    BalancedAround("He", "", "llo ) world", '(', ')');
    CloseFirst("llo ) world", '(', ')', 4);
    ParseSucceedsIffBalanced("He()llo ) world", '(', ')');
  }

  /** One closing bracket too many. */
  lemma RejectsExtraClose()
    ensures Parenthesize("(()))", '(', ')') == Failure(UnmatchedParenthesis)
  {
    RejectedSpellings();
    PlainBalanced("", '(', ')');
    BalancedAround("", "", "", '(', ')');
    BalancedAround("", "()", ")", '(', ')');
    CloseFirst(")", '(', ')', 0);
    ParseSucceedsIffBalanced("(()))", '(', ')');
  }

  /** An opening bracket never closed, around two complete pairs. */
  lemma RejectsUnclosed()
    ensures Parenthesize("(()()", '(', ')') == Failure(UnmatchedParenthesis)
  {
    RejectedSpellings();
    PlainBalanced("", '(', ')');
    BalancedAround("", "", "", '(', ')');
    DepthSingle('(', '(', ')');
    DepthConcat("(", "()", '(', ')');
    DepthConcat("(" + "()", "()", '(', ')');
    ParseSucceedsIffBalanced("(()()", '(', ')');
  }
}
