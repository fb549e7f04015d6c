/**
 Concrete rule texts and what the reader makes of them: the rules named in the
 simulator's own comments, the permissive cases, and the refusals.
 */
module RuleExamples {
  import opened RuleText

  /** The standard Game of Life rule. */
  lemma GameOfLife()
    ensures ParseRule("B3/S23") == Ok(Rule([3], [2, 3]))
  {
    ReadsAs("B3/S23", Rule([3], [2, 3]));
  }

  /** A replicator rule with several birth counts. */
  lemma Replicator()
    ensures ParseRule("B147/S4") == Ok(Rule([1, 4, 7], [4]))
  {
    ReadsAs("B147/S4", Rule([1, 4, 7], [4]));
  }

  /** Both digit lists may be empty. */
  lemma EmptyLists()
    ensures ParseRule("B/S") == Ok(Rule([], []))
  {
    ReadsAs("B/S", Rule([], []));
  }

  /** The digit 9 is accepted although no cell has nine neighbours. */
  lemma NineAccepted()
    ensures ParseRule("B3/S29") == Ok(Rule([3], [2, 9]))
  {
    ReadsAs("B3/S29", Rule([3], [2, 9]));
  }

  /** The prefix letters are not checked. */
  lemma OtherLetters()
    ensures ParseRule("X3/Y23") == Ok(Rule([3], [2, 3]))
  {
    ReadsWithLetters("X3/Y23", 'X', 'Y', "3", "23", Rule([3], [2, 3]));
  }

  lemma ReadsWithLetters(text: string, a: char, b: char, u: string, v: string, r: Rule)
    requires a != Separator && b != Separator && text == [a] + u + [Separator] + [b] + v
    requires AllDigits(r.birth) && AllDigits(r.survive) && FormatRule(r) == "B" + u + "/S" + v
    ensures ParseRule(text) == Ok(r)
  {
    PrefixLettersIgnored(a, b, u, v);
    ParseFormat(r);
  }

  /** Without a separator there is one piece, not two. */
  lemma NoSeparator()
    ensures ParseRule("B3S23") == Err(SegmentCount(1))
  {
  }

  /** With two separators there are three pieces. */
  lemma TwoSeparators()
    ensures ParseRule("B3/S2/3") == Err(SegmentCount(3))
  {
  }

  /** A letter among the digits is refused. */
  lemma LetterAmongDigits()
    ensures ParseRule("B3/S2x") == Err(NotADigit('x'))
  {
    BadSurviveDigit("3", "2", 'x');
    assert "B" + "3" + "/S" + "2" + ['x'] == "B3/S2x";
  }
}
