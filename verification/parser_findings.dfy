/**
 * What changes when the recursive calls of `parenthesize` do not pass the
 * caller's delimiters on: with the default delimiters nothing, with any
 * other pair the inside of the first bracket pair and everything after it
 * are read with `(` and `)`.
 */
module ParserFindings {
  import opened Wrappers
  import opened Errors
  import opened Parser
  import opened ParserLemmas

  /** With the default delimiters the code as written and the corrected reading agree. */
  lemma AsWrittenAgreesOnDefaults(s: string)
    ensures ParenthesizeAsWritten(s, '(', ')') == Parenthesize(s, '(', ')')
  {
  }

  /** A single pair around a balanced body: the code as written reads the body with `(` and `)`. */
  lemma AsWrittenWrapped(body: string, open: char, close: char)
    requires open != close && Balanced(body, open, close)
    ensures var r := ParenthesizeAsWritten([open] + body + [close], open, close);
      && (r.Success? <==> Parenthesize(body, '(', ')').Success?)
      && (r.Success? ==> r.value == [Nested(Parenthesize(body, '(', ')').value)])
  {
    CutAround("", body, "", open, close);
    assert "" + ([open] + body + [close]) + "" == [open] + body + [close];
    if Parenthesize(body, '(', ')').Success? {
      var v := Parenthesize(body, '(', ')').value;
      assert [] + [Nested(v)] + [] == [Nested(v)];
    }
  }

  /* ---------------------------------------------------------------------- */
  /* Square brackets                                                        */
  /* ---------------------------------------------------------------------- */

  lemma InnerShape()
    ensures Canonical([Nested([Text("a")])], '[', ']')
    ensures Canonical([Nested([Nested([Text("a")])])], '[', ']')
    ensures Plain("[a]", '(', ')')
  {
  }

  lemma InnerSpelling()
    ensures Flatten([Nested([Text("a")])], '[', ']') == "[a]"
    ensures Flatten([Nested([Nested([Text("a")])])], '[', ']') == "[[a]]"
    ensures "[[a]]" == ['['] + "[a]" + [']']
  {
  }

  /**
   * `[[a]]` with square brackets: the corrected reading nests twice; the
   * code as written keeps the inner pair as text, so a string element holds
   * a delimiter.
   */
  lemma AsWrittenKeepsInnerBrackets()
    ensures Parenthesize("[[a]]", '[', ']') == Success([Nested([Nested([Text("a")])])])
    ensures ParenthesizeAsWritten("[[a]]", '[', ']') == Success([Nested([Text("[a]")])])
    ensures !TextsPlain([Nested([Text("[a]")])], '[', ']')
  {
    InnerShape();
    InnerSpelling();
    CanonicalParses([Nested([Nested([Text("a")])])], '[', ']');
    CanonicalParses([Nested([Text("a")])], '[', ']');
    ParseSucceedsIffBalanced("[a]", '[', ']');
    PlainParses("[a]", '(', ')');
    AsWrittenWrapped("[a]", '[', ']');
    assert [Nested(Parenthesize("[a]", '(', ')').value)] == [Nested([Text("[a]")])];
    TextHoldsBracket();
  }

  lemma TextHoldsBracket()
    ensures !TextsPlain([Nested([Text("[a]")])], '[', ']')
  {
    var items := [Nested([Text("[a]")])];
    assert "[a]"[0] == '[';
    assert !Plain("[a]", '[', ']');
    assert !TextsPlain(items[0].items, '[', ']') by {
      assert items[0].items[0] == Text("[a]");
    }
  }

  lemma OpenInsideShape()
    ensures Canonical([Nested([Text("(")])], '[', ']')
    ensures Flatten([Nested([Text("(")])], '[', ']') == "[(]"
    ensures "[(]" == ['['] + "(" + [']']
  {
  }

  /**
   * `[(]` with square brackets is balanced and the corrected reading accepts
   * it; the code as written reads the lone `(` inside with the default
   * delimiters and rejects the input.
   */
  lemma AsWrittenRejectsBalanced()
    ensures Balanced("[(]", '[', ']')
    ensures Parenthesize("[(]", '[', ']') == Success([Nested([Text("(")])])
    ensures ParenthesizeAsWritten("[(]", '[', ']') == Failure(UnmatchedParenthesis)
  {
    OpenInsideShape();
    CanonicalParses([Nested([Text("(")])], '[', ']');
    ParseSucceedsIffBalanced("[(]", '[', ']');
    PlainBalanced("(", '[', ']');
    IndexAbsent("(", ')');
    AsWrittenWrapped("(", '[', ']');
  }
}
