/**
 The textual form of a rule, `"B<digits>/S<digits>"`, and how it is read and
 written.

 Reading splits the text at every `/`, demands exactly two pieces, drops the
 first character of each piece without looking at it, and turns each remaining
 character into its digit value. Any decimal digit is accepted, `9` included;
 the `B` and `S` letters are not checked. Writing puts the letters back and
 the digits side by side.
 */
module RuleText {

  /** Neighbour counts that bring a dead cell to life, and counts that keep a
      live cell alive. Membership is all that matters; order and repetition
      are kept as parsed. */
  datatype Rule = Rule(birth: seq<int>, survive: seq<int>)

  datatype RuleError =
    | SegmentCount(segments: nat)  // the text did not split into exactly two pieces
    | NotADigit(ch: char)          // a character after the prefix letter is not a digit

  datatype Result<T> = Ok(value: T) | Err(error: RuleError)

  const Separator: char := '/'

  /** Number of occurrences of `c` in `s`. */
  function Occurrences(s: string, c: char): nat {
    if |s| == 0 then 0 else (if s[0] == c then 1 else 0) + Occurrences(s[1..], c)
  }

  lemma {:induction false} OccurrencesAbsent(s: string, c: char)
    ensures Occurrences(s, c) == 0 <==> c !in s
    decreases |s|
  {
    if |s| > 0 {
      OccurrencesAbsent(s[1..], c);
      assert s == [s[0]] + s[1..];
    }
  }

  /** The pieces of `s` between occurrences of `sep`, as a string split does
      it: `k` separators give `k + 1` pieces, possibly empty ones. */
  function Split(s: string, sep: char): (parts: seq<string>)
    ensures |parts| == Occurrences(s, sep) + 1
    ensures forall i :: 0 <= i < |parts| ==> sep !in parts[i]
  {
    if |s| == 0 then [""]
    else
      var rest := Split(s[1..], sep);
      if s[0] == sep then [""] + rest
      else [[s[0]] + rest[0]] + rest[1..]
  }

  /** The pieces glued back together with `sep` between neighbours. */
  function Join(parts: seq<string>, sep: char): string
    requires |parts| >= 1
  {
    if |parts| == 1 then parts[0] else parts[0] + [sep] + Join(parts[1..], sep)
  }

  /** Splitting loses nothing: gluing the pieces back gives the text. */
  lemma {:induction false} SplitJoin(s: string, sep: char)
    ensures Join(Split(s, sep), sep) == s
    decreases |s|
  {
    if |s| > 0 {
      var rest := Split(s[1..], sep);
      SplitJoin(s[1..], sep);
      if s[0] == sep {
        assert Split(s, sep)[1..] == rest;
      } else {
        var parts := Split(s, sep);
        assert parts[0] == [s[0]] + rest[0];
        assert parts[1..] == rest[1..];
        if |rest| > 1 {
          assert Join(rest, sep) == rest[0] + [sep] + Join(rest[1..], sep);
        }
      }
      assert s == [s[0]] + s[1..];
    }
  }

  /** Text without the separator is a single piece. */
  lemma {:induction false} SplitWithout(s: string, sep: char)
    requires sep !in s
    ensures Split(s, sep) == [s]
    decreases |s|
  {
    if |s| > 0 {
      SplitWithout(s[1..], sep);
      assert s == [s[0]] + s[1..];
    }
  }

  /** Splitting `x + "/" + y` where neither side holds the separator gives the
      two sides. */
  lemma {:induction false} SplitAround(x: string, y: string, sep: char)
    requires sep !in x && sep !in y
    ensures Split(x + [sep] + y, sep) == [x, y]
    decreases |x|
  {
    if |x| == 0 {
      assert x + [sep] + y == [sep] + y;
      assert ([sep] + y)[1..] == y;
      SplitWithout(y, sep);
    } else {
      assert (x + [sep] + y)[1..] == x[1..] + [sep] + y;
      SplitAround(x[1..], y, sep);
      assert x == [x[0]] + x[1..];
    }
  }

  predicate IsDigit(c: char) {
    '0' <= c <= '9'
  }

  predicate AllDigits(ds: seq<int>) {
    forall i :: 0 <= i < |ds| ==> 0 <= ds[i] <= 9
  }

  /** The digit values of the characters of `s`, or the first character that
      is not a decimal digit. */
  function ParseDigits(s: string): (r: Result<seq<int>>)
    ensures r.Ok? <==> forall i :: 0 <= i < |s| ==> IsDigit(s[i])
    ensures r.Ok? ==> |r.value| == |s| && AllDigits(r.value)
    ensures r.Ok? ==> forall i :: 0 <= i < |s| ==> r.value[i] == s[i] as int - '0' as int
    ensures r.Err? ==> exists k :: 0 <= k < |s| && r.error == NotADigit(s[k]) && !IsDigit(s[k])
                                   && forall i :: 0 <= i < k ==> IsDigit(s[i])
  {
    if |s| == 0 then Ok([])
    else if !IsDigit(s[0]) then Err(NotADigit(s[0]))
    else
      match ParseDigits(s[1..])
      case Err(e) => Err(e)
      case Ok(rest) => Ok([s[0] as int - '0' as int] + rest)
  }

  /** `s[1:]` of a string: everything but the first character, or nothing. */
  function DropFirst(s: string): (r: string)
    ensures |s| > 0 ==> s == [s[0]] + r
    ensures |s| == 0 ==> r == ""
  {
    if |s| == 0 then s else s[1..]
  }

  /** Reads the two halves of a rule text: the first character of each is
      dropped unread and the rest must be digits. */
  function ReadHalves(x: string, y: string): (r: Result<Rule>)
    ensures r.Ok? <==> ParseDigits(DropFirst(x)).Ok? && ParseDigits(DropFirst(y)).Ok?
    ensures r.Ok? ==> r.value == Rule(ParseDigits(DropFirst(x)).value, ParseDigits(DropFirst(y)).value)
    ensures r.Err? ==> r.error == (if ParseDigits(DropFirst(x)).Err? then ParseDigits(DropFirst(x)).error
                                   else ParseDigits(DropFirst(y)).error)
  {
    match ParseDigits(DropFirst(x))
    case Err(e) => Err(e)
    case Ok(b) =>
      match ParseDigits(DropFirst(y))
      case Err(e) => Err(e)
      case Ok(s) => Ok(Rule(b, s))
  }

  /** Reads a rule text. It fails unless the text holds exactly one `/`, and
      fails on the first non-digit after the prefix letter of either half. */
  function ParseRule(text: string): (r: Result<Rule>)
    ensures Occurrences(text, Separator) != 1 ==>
              r == Err(SegmentCount(Occurrences(text, Separator) + 1))
    ensures r.Ok? ==> Occurrences(text, Separator) == 1
    ensures r.Ok? ==> AllDigits(r.value.birth) && AllDigits(r.value.survive)
    ensures r.Err? ==> r.error.SegmentCount? || !IsDigit(r.error.ch)
  {
    var parts := Split(text, Separator);
    if |parts| != 2 then Err(SegmentCount(|parts|))
    else ReadHalves(parts[0], parts[1])
  }

  /** A text with its single separator between `x` and `y` reads as its two
      halves. */
  lemma ParseAround(x: string, y: string)
    requires Separator !in x && Separator !in y
    ensures ParseRule(x + [Separator] + y) == ReadHalves(x, y)
  {
    SplitAround(x, y, Separator);
  }

  function DigitChar(d: int): (c: char)
    requires 0 <= d <= 9
    ensures IsDigit(c) && c as int - '0' as int == d
  {
    ('0' as int + d) as char
  }

  /** The digits side by side, most significant first, no separators. */
  function Digits(ds: seq<int>): (s: string)
    requires AllDigits(ds)
    ensures |s| == |ds|
    ensures forall i :: 0 <= i < |s| ==> IsDigit(s[i]) && s[i] as int - '0' as int == ds[i]
  {
    if |ds| == 0 then "" else [DigitChar(ds[0])] + Digits(ds[1..])
  }

  /** The canonical text of a rule, `"B" + birth digits + "/S" + survive digits`. */
  function FormatRule(r: Rule): (text: string)
    requires AllDigits(r.birth) && AllDigits(r.survive)
    ensures Occurrences(text, Separator) == 1
    ensures |text| == |r.birth| + |r.survive| + 3
  {
    var b, s := Digits(r.birth), Digits(r.survive);
    OccurrencesAbsent(b, Separator);
    OccurrencesAbsent(s, Separator);
    SplitAround("B" + b, "S" + s, Separator);
    assert "B" + b + "/S" + s == ("B" + b) + [Separator] + ("S" + s);
    "B" + b + "/S" + s
  }

  /** Reading what was written gives back the rule. */
  lemma ParseFormat(r: Rule)
    requires AllDigits(r.birth) && AllDigits(r.survive)
    ensures ParseRule(FormatRule(r)) == Ok(r)
  {
    var b, s := Digits(r.birth), Digits(r.survive);
    OccurrencesAbsent(b, Separator);
    OccurrencesAbsent(s, Separator);
    assert FormatRule(r) == ("B" + b) + [Separator] + ("S" + s);
    ParseAround("B" + b, "S" + s);
    assert DropFirst("B" + b) == b;
    assert DropFirst("S" + s) == s;
    ParseDigitsOfDigits(r.birth);
    ParseDigitsOfDigits(r.survive);
  }

  /** Reading the digits that were written gives back the values. */
  lemma {:induction false} ParseDigitsOfDigits(ds: seq<int>)
    requires AllDigits(ds)
    ensures ParseDigits(Digits(ds)) == Ok(ds)
    decreases |ds|
  {
    if |ds| > 0 {
      var t := Digits(ds);
      assert t[1..] == Digits(ds[1..]);
      ParseDigitsOfDigits(ds[1..]);
      assert [ds[0]] + ds[1..] == ds;
    }
  }

  /** Writing the digits that were read gives back the characters. */
  lemma DigitsOfParse(s: string)
    requires ParseDigits(s).Ok?
    ensures Digits(ParseDigits(s).value) == s
  {
    var d := Digits(ParseDigits(s).value);
    forall i | 0 <= i < |s|
      ensures d[i] == s[i]
    {
      assert d[i] as int == s[i] as int;
    }
  }

  /** Separators in a text `[a] + u + "/" + [b] + v` whose prefix letters
      are not separators: the one in the middle and those in `u` and `v`. */
  lemma OccurrencesAround(a: char, b: char, u: string, v: string)
    requires a != Separator && b != Separator
    ensures Occurrences([a] + u + [Separator] + [b] + v, Separator) ==
              Occurrences(u, Separator) + Occurrences(v, Separator) + 1
  {
    assert [a] + u + [Separator] + [b] + v == ([a] + u) + ([Separator] + ([b] + v));
    OccurrencesSplit([a] + u, [Separator] + ([b] + v), Separator);
    OccurrencesSplit([Separator], [b] + v, Separator);
    assert ([a] + u)[1..] == u;
    assert ([b] + v)[1..] == v;
  }

  /** A text `[a] + u + "/" + [b] + v` with a single separator has none in
      `u` or `v`, and reads as its halves. */
  lemma SeparatorBetween(a: char, b: char, u: string, v: string)
    requires a != Separator && b != Separator
    requires Occurrences([a] + u + [Separator] + [b] + v, Separator) == 1
    ensures Separator !in u && Separator !in v
    ensures ParseRule([a] + u + [Separator] + [b] + v) == ReadHalves([a] + u, [b] + v)
  {
    OccurrencesAround(a, b, u, v);
    OccurrencesAbsent(u, Separator);
    OccurrencesAbsent(v, Separator);
    assert [a] + u + [Separator] + [b] + v == ([a] + u) + [Separator] + ([b] + v);
    ParseAround([a] + u, [b] + v);
  }

  /** Writing what was read gives back a text whose prefix letters are `B`
      and `S`. */
  lemma FormatParse(u: string, v: string)
    requires ParseRule("B" + u + "/S" + v).Ok?
    ensures FormatRule(ParseRule("B" + u + "/S" + v).value) == "B" + u + "/S" + v
  {
    var text := "B" + u + "/S" + v;
    assert text == ['B'] + u + [Separator] + ['S'] + v;
    SeparatorBetween('B', 'S', u, v);
    assert DropFirst("B" + u) == u;
    assert DropFirst("S" + v) == v;
    DigitsOfParse(u);
    DigitsOfParse(v);
  }

  lemma {:induction false} OccurrencesSplit(s: string, t: string, c: char)
    ensures Occurrences(s + t, c) == Occurrences(s, c) + Occurrences(t, c)
    decreases |s|
  {
    if |s| == 0 {
      assert s + t == t;
    } else {
      assert (s + t)[1..] == s[1..] + t;
      OccurrencesSplit(s[1..], t, c);
    }
  }

  /** The members of `chosen` in `[lo, hi)`, in ascending order. */
  function Ascending(chosen: set<int>, lo: int, hi: int): (ds: seq<int>)
    ensures forall d :: d in ds <==> lo <= d < hi && d in chosen
    ensures forall i, j :: 0 <= i < j < |ds| ==> ds[i] < ds[j]
    decreases hi - lo
  {
    if lo >= hi then []
    else
      var rest := Ascending(chosen, lo + 1, hi);
      assert forall k :: 0 <= k < |rest| ==> rest[k] in rest;
      (if lo in chosen then [lo] else []) + rest
  }

  /** Counts drawn from `1 .. 7` are digits. */
  lemma AscendingDigits(chosen: set<int>)
    ensures AllDigits(Ascending(chosen, 1, 8))
  {
    var ds := Ascending(chosen, 1, 8);
    forall i | 0 <= i < |ds|
      ensures 0 <= ds[i] <= 9
    {
      assert ds[i] in ds;
    }
  }

  /** The text of a random rule once the random draws are made: `birthPicks`
      and `survivePicks` are the counts in 1..7 whose draw came up. */
  function RandomRuleText(birthPicks: set<int>, survivePicks: set<int>): (text: string)
    ensures ParseRule(text) == Ok(Rule(Ascending(birthPicks, 1, 8), Ascending(survivePicks, 1, 8)))
  {
    AscendingDigits(birthPicks);
    AscendingDigits(survivePicks);
    ParseFormat(Rule(Ascending(birthPicks, 1, 8), Ascending(survivePicks, 1, 8)));
    FormatRule(Rule(Ascending(birthPicks, 1, 8), Ascending(survivePicks, 1, 8)))
  }

  /** The prefix letters are never looked at: any two characters other
      than the separator read the same as `B` and `S`. */
  lemma PrefixLettersIgnored(a: char, b: char, u: string, v: string)
    requires a != Separator && b != Separator
    ensures ParseRule([a] + u + [Separator] + [b] + v) == ParseRule("B" + u + "/S" + v)
  {
    OccurrencesAround(a, b, u, v);
    OccurrencesAround('B', 'S', u, v);
    assert "B" + u + "/S" + v == ['B'] + u + [Separator] + ['S'] + v;
    if Occurrences(u, Separator) + Occurrences(v, Separator) == 0 {
      SeparatorBetween(a, b, u, v);
      SeparatorBetween('B', 'S', u, v);
      assert DropFirst([a] + u) == u == DropFirst(['B'] + u);
      assert DropFirst([b] + v) == v == DropFirst(['S'] + v);
    }
  }

  /** `text` reads as `r` because it is the canonical text of `r`. */
  lemma ReadsAs(text: string, r: Rule)
    requires AllDigits(r.birth) && AllDigits(r.survive) && FormatRule(r) == text
    ensures ParseRule(text) == Ok(r)
  {
    ParseFormat(r);
  }

  /** A text that splits into two pieces fails on a bad character in the
      survive digits. */
  lemma BadSurviveDigit(u: string, v: string, c: char)
    requires Separator !in u && Separator !in v && !IsDigit(c) && c != Separator
    requires forall i :: 0 <= i < |u| ==> IsDigit(u[i])
    requires forall i :: 0 <= i < |v| ==> IsDigit(v[i])
    ensures ParseRule("B" + u + "/S" + v + [c]) == Err(NotADigit(c))
  {
    assert "B" + u + "/S" + v + [c] == ("B" + u) + [Separator] + ("S" + v + [c]);
    ParseAround("B" + u, "S" + v + [c]);
    assert DropFirst("B" + u) == u;
    assert DropFirst("S" + v + [c]) == v + [c];
    var w := v + [c];
    assert w[|v|] == c;
  }
}
