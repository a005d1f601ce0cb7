/** What parsing a whole expression guarantees: which tokens are read and in
    which order, which error wins, when an expression with no subexpression
    is accepted, and that the textual form of parsed intervals reads back as
    the same intervals. */
module Parsing {
  import opened Text
  import opened SubExpressions
  import opened Intervals
  import Normalization

  /** The tokens the parser reads: all but the empty ones, in order. */
  function NonEmpty(tokens: seq<string>): (r: seq<string>)
    ensures |r| <= |tokens|
    ensures forall k :: 0 <= k < |r| ==> r[k] != ""
  {
    if tokens == [] then []
    else
      var last := tokens[|tokens| - 1];
      NonEmpty(tokens[..|tokens| - 1]) + (if last == "" then [] else [last])
  }

  /** The token loop succeeds exactly when every non-empty token parses,
      and then yields their subexpressions in order; otherwise it reports
      the error of the first non-empty token that fails. */
  lemma {:induction false} ParseTokensSpec(tokens: seq<string>)
    ensures ParseTokens(tokens).Success? <==>
              forall k :: 0 <= k < |NonEmpty(tokens)| ==> ParseSubExpression(NonEmpty(tokens)[k]).Success?
    ensures ParseTokens(tokens).Success? ==>
              |ParseTokens(tokens).value| == |NonEmpty(tokens)| &&
              forall k :: 0 <= k < |NonEmpty(tokens)| ==>
                ParseSubExpression(NonEmpty(tokens)[k]) == Success(ParseTokens(tokens).value[k])
    ensures ParseTokens(tokens).Failure? ==>
              exists k :: 0 <= k < |NonEmpty(tokens)| && ParseSubExpression(NonEmpty(tokens)[k]) == Failure(ParseTokens(tokens).error) &&
                forall j :: 0 <= j < k ==> ParseSubExpression(NonEmpty(tokens)[j]).Success?
  {
    if tokens != [] {
      var init := tokens[..|tokens| - 1];
      var last := tokens[|tokens| - 1];
      ParseTokensSpec(init);
      var ne := NonEmpty(init);
      assert NonEmpty(tokens) == ne + (if last == "" then [] else [last]);
      if ParseTokens(init).Failure? {
        var k :| 0 <= k < |ne| && ParseSubExpression(ne[k]) == Failure(ParseTokens(init).error) &&
          forall j :: 0 <= j < k ==> ParseSubExpression(ne[j]).Success?;
        assert NonEmpty(tokens)[k] == ne[k];
      } else if last != "" && ParseSubExpression(last).Failure? {
        assert NonEmpty(tokens)[|ne|] == last;
      }
    }
  }

  /** An input holding no subexpression is accepted, as the expression
      that matches nothing, exactly when the options allow it. */
  lemma EmptyExpressionRule(input: string, opts: ParseOptions)
    requires opts.delimiter != "" && NonEmpty(Split(input, opts.delimiter)) == []
    ensures ParseIntervals(input, opts) ==
              if opts.allowEmptyExpression then Success([]) else Failure(EmptyExpressionDisallowed)
  {
    ParseTokensSpec(Split(input, opts.delimiter));
  }

  /** The textual forms of subexpressions are never empty and use only
      digits, `-` and `*`. */
  lemma RenderAlphabet(ivs: seq<SubExpression>, c: char)
    requires !IsDigit(c) && c != '-' && c != '*'
    ensures forall k :: 0 <= k < |ivs| ==> Render(ivs)[k] != "" && c !in Render(ivs)[k]
  {
    forall k | 0 <= k < |ivs|
      ensures Render(ivs)[k] != "" && c !in Render(ivs)[k]
    {
      StringAlphabet(ivs[k]);
    }
  }

  /** The token loop reads the textual forms of parsed subexpressions back
      as those subexpressions. */
  lemma {:induction false} ParseRendered(ivs: seq<SubExpression>)
    requires forall k :: 0 <= k < |ivs| ==> Canonical(ivs[k])
    ensures ParseTokens(Render(ivs)) == Success(ivs)
  {
    if ivs != [] {
      var init, last := ivs[..|ivs| - 1], ivs[|ivs| - 1];
      ParseRendered(init);
      RenderPrefix(ivs);
      StringRoundTrip(last);
      ParseLastToken(Render(ivs), init, last);
      assert ivs == init + [last];
    }
  }

  /** Rendering all but the last subexpression renders all but the last token. */
  lemma RenderPrefix(ivs: seq<SubExpression>)
    requires |ivs| > 0
    ensures Render(ivs)[..|ivs| - 1] == Render(ivs[..|ivs| - 1])
    ensures Render(ivs)[|ivs| - 1] == ivs[|ivs| - 1].String()
  {
    var a, b := Render(ivs)[..|ivs| - 1], Render(ivs[..|ivs| - 1]);
    forall k | 0 <= k < |a|
      ensures a[k] == b[k]
    {
    }
  }

  /** A non-empty last token that parses is appended to what the tokens
      before it gave. */
  lemma ParseLastToken(tokens: seq<string>, ivs: seq<SubExpression>, se: SubExpression)
    requires |tokens| > 0 && ParseTokens(tokens[..|tokens| - 1]) == Success(ivs)
    requires tokens[|tokens| - 1] != "" && ParseSubExpression(tokens[|tokens| - 1]) == Success(se)
    ensures ParseTokens(tokens) == Success(ivs + [se])
  {
  }

  /** Joining the textual forms of parsed subexpressions with a delimiter
      that cannot start a subexpression, and parsing the result with that
      delimiter, gives the same subexpressions in the same order. */
  lemma ExpressionRoundTrip(ivs: seq<SubExpression>, opts: ParseOptions)
    requires forall k :: 0 <= k < |ivs| ==> Canonical(ivs[k])
    requires |opts.delimiter| > 0 && !IsDigit(opts.delimiter[0]) && opts.delimiter[0] != '-' && opts.delimiter[0] != '*'
    requires |ivs| > 0 || opts.allowEmptyExpression
    ensures ParseIntervals(Join(Render(ivs), opts.delimiter), opts) == Success(ivs)
  {
    var d := opts.delimiter;
    if ivs == [] {
      assert Split("", d) == [""] by {
        assert IndexFrom("", d, 0) == -1;
      }
      assert Render(ivs) == [];
      ParseTokensSpec([""]);
      assert NonEmpty([""]) == [];
    } else {
      RenderAlphabet(ivs, d[0]);
      SplitJoin(Render(ivs), d);
      ParseRendered(ivs);
    }
  }

  /** Parsing and then joining the textual forms gives the input back
      whenever the input is such a join. */
  lemma TextRoundTrip(input: string, ivs: seq<SubExpression>, opts: ParseOptions)
    requires forall k :: 0 <= k < |ivs| ==> Canonical(ivs[k])
    requires |opts.delimiter| > 0 && !IsDigit(opts.delimiter[0]) && opts.delimiter[0] != '-' && opts.delimiter[0] != '*'
    requires |ivs| > 0 || opts.allowEmptyExpression
    requires input == Join(Render(ivs), opts.delimiter)
    ensures ParseIntervals(input, opts).Success?
    ensures Join(Render(ParseIntervals(input, opts).value), opts.delimiter) == input
  {
    ExpressionRoundTrip(ivs, opts);
  }

  /** Every token consisting of nothing is skipped. */
  lemma {:induction false} NonEmptyOfBlanks(tokens: seq<string>)
    requires forall k :: 0 <= k < |tokens| ==> tokens[k] == ""
    ensures NonEmpty(tokens) == []
  {
    if tokens != [] {
      NonEmptyOfBlanks(tokens[..|tokens| - 1]);
    }
  }

  /** The token loop on one non-empty token. */
  lemma ParseOneToken(a: string)
    requires a != ""
    ensures ParseTokens([a]) ==
              if ParseSubExpression(a).Success? then Success([ParseSubExpression(a).value])
              else Failure(ParseSubExpression(a).error)
  {
    assert [a][..0] == [];
    var r := ParseSubExpression(a);
    if r.Success? {
      assert [] + [r.value] == [r.value];
    }
  }

  /** The token loop on two non-empty tokens: the second is read only
      after the first has parsed. */
  lemma ParseTwoTokens(a: string, b: string)
    requires a != "" && b != ""
    ensures ParseSubExpression(a).Failure? ==> ParseTokens([a, b]) == Failure(ParseSubExpression(a).error)
    ensures ParseSubExpression(a).Success? && ParseSubExpression(b).Failure? ==>
              ParseTokens([a, b]) == Failure(ParseSubExpression(b).error)
    ensures ParseSubExpression(a).Success? && ParseSubExpression(b).Success? ==>
              ParseTokens([a, b]) == Success([ParseSubExpression(a).value, ParseSubExpression(b).value])
  {
    assert [a, b][..1] == [a];
    ParseOneToken(a);
    var ra, rb := ParseSubExpression(a), ParseSubExpression(b);
    if ra.Success? && rb.Success? {
      assert [ra.value] + [rb.value] == [ra.value, rb.value];
    }
  }

  // ---------------------------------------------------------------------
  // Worked cases

  /** `1,3-5,7-` reads as three subexpressions in input order. */
  lemma ParseDocumentedExample()
    ensures ParseIntervals("1,3-5,7-", DefaultParseOptions()) ==
              Success([SubExpression(1, 1, false), SubExpression(3, 3, false), SubExpression(7, 0, false)])
  {
    var ivs := [SubExpression(1, 1, false), SubExpression(3, 3, false), SubExpression(7, 0, false)];
    assert ivs[0].String() == "1" && ivs[1].String() == "3-5" && ivs[2].String() == "7-";
    assert Render(ivs) == ["1", "3-5", "7-"];
    assert Join(["1", "3-5", "7-"], ",") == "1,3-5,7-";
    ExpressionRoundTrip(ivs, DefaultParseOptions());
  }

  /** `1,3-5,7-` matches 1, 3 to 5 and every value from 7 on, and not 0, 2
      or 6. */
  lemma MatchDocumentedExample(v: int)
    ensures var ivs := [SubExpression(1, 1, false), SubExpression(3, 3, false), SubExpression(7, 0, false)];
      MatchesAny(ivs, v) <==> v == 1 || 3 <= v <= 5 || 7 <= v
  {
    var ivs := [SubExpression(1, 1, false), SubExpression(3, 3, false), SubExpression(7, 0, false)];
    if v == 1 {
      assert ivs[0].Contains(v);
    } else if 3 <= v <= 5 {
      assert ivs[1].Contains(v);
    } else if 7 <= v {
      assert ivs[2].Contains(v);
    } else {
      assert forall k :: 0 <= k < |ivs| ==> !ivs[k].Contains(v);
    }
  }

  /** With the default options an empty input is refused. */
  lemma EmptyInputRefused()
    ensures ParseIntervals("", DefaultParseOptions()) == Failure(EmptyExpressionDisallowed)
  {
    assert Split("", ",") == [""] by {
      assert IndexFrom("", ",", 0) == -1;
    }
    NonEmptyOfBlanks([""]);
    EmptyExpressionRule("", DefaultParseOptions());
  }

  /** Delimiters alone make an empty expression when that is allowed. */
  lemma DelimitersOnlyAllowed()
    ensures ParseIntervals(",,,,", ParseOptions(",", false, true)) == Success([])
  {
    SplitDelimitersOnly();
    NonEmptyOfBlanks(["", "", "", "", ""]);
    EmptyExpressionRule(",,,,", ParseOptions(",", false, true));
  }

  lemma SplitDelimitersOnly()
    ensures Split(",,,,", ",") == ["", "", "", "", ""]
  {
    var parts := ["", "", "", "", ""];
    assert Join(parts, ",") == ",,,,";
    SplitJoin(parts, ",");
  }

  /** Delimiters alone are refused with the default options. */
  lemma DelimitersOnlyRefused()
    ensures ParseIntervals(",,,,", DefaultParseOptions()) == Failure(EmptyExpressionDisallowed)
  {
    SplitDelimitersOnly();
    NonEmptyOfBlanks(["", "", "", "", ""]);
    EmptyExpressionRule(",,,,", DefaultParseOptions());
  }

  /** Empty tokens between delimiters are skipped. */
  lemma EmptyTokensSkipped()
    ensures ParseIntervals("1,,3", DefaultParseOptions()) ==
              Success([SubExpression(1, 1, false), SubExpression(3, 1, false)])
  {
    var parts := ["1", "", "3"];
    assert Join(parts, ",") == "1,,3";
    SplitJoin(parts, ",");
    SkippedToken();
  }

  lemma SkippedToken()
    ensures ParseTokens(["1", "", "3"]) == Success([SubExpression(1, 1, false), SubExpression(3, 1, false)])
  {
    var parts := ["1", "", "3"];
    SingleValues();
    ParseOneToken("1");
    assert parts[..2] == ["1", ""] && parts[..2][..1] == ["1"];
    assert ParseTokens(parts[..2]) == Success([SubExpression(1, 1, false)]);
    assert [SubExpression(1, 1, false)] + [SubExpression(3, 1, false)] ==
           [SubExpression(1, 1, false), SubExpression(3, 1, false)];
  }

  lemma SingleValues()
    ensures ParseSubExpression("1") == Success(SubExpression(1, 1, false))
    ensures ParseSubExpression("3") == Success(SubExpression(3, 1, false))
  {
    assert SubExpression(1, 1, false).String() == "1";
    assert SubExpression(3, 1, false).String() == "3";
    StringRoundTrip(SubExpression(1, 1, false));
    StringRoundTrip(SubExpression(3, 1, false));
  }

  /** A bad token after a good one aborts the whole parse with its error. */
  lemma BadTokenAborts()
    ensures ParseIntervals("1-3,6-x", DefaultParseOptions()) == Failure(BadSyntax("6-x"))
  {
    var parts := ["1-3", "6-x"];
    assert Join(parts, ",") == "1-3,6-x";
    SplitJoin(parts, ",");
    BadSecondToken();
  }

  lemma BadSecondToken()
    ensures ParseTokens(["1-3", "6-x"]) == Failure(BadSyntax("6-x"))
  {
    assert SubExpression(1, 3, false).String() == "1-3";
    StringRoundTrip(SubExpression(1, 3, false));
    assert !IsDigit("6-x"[2..][0]);
    BadAfterDash("6-x", 0, 1);
    ParseTwoTokens("1-3", "6-x");
  }

  /** A reversed range is refused as the whole expression. */
  lemma ReversedRangeRefused()
    ensures ParseIntervals("7-5", DefaultParseOptions()) == Failure(ReversedRange("7-5"))
  {
    SplitJoin(["7-5"], ",");
    ReversedRangeToken();
    assert ["7-5"][..0] == [];
  }

  /** `1-3,4,10-` joins back to itself. */
  lemma RoundTripRanges()
    ensures ParseIntervals("1-3,4,10-", DefaultParseOptions()).Success?
    ensures Join(Render(ParseIntervals("1-3,4,10-", DefaultParseOptions()).value), ",") == "1-3,4,10-"
  {
    var ivs := [SubExpression(1, 3, false), SubExpression(4, 1, false), SubExpression(10, 0, false)];
    assert ivs[0].String() == "1-3" && ivs[1].String() == "4" && ivs[2].String() == "10-";
    assert Render(ivs) == ["1-3", "4", "10-"];
    assert Join(["1-3", "4", "10-"], ",") == "1-3,4,10-";
    TextRoundTrip("1-3,4,10-", ivs, DefaultParseOptions());
  }

  /** `1,3-5,*,7-` joins back to itself: the wildcard stays in place. */
  lemma RoundTripWildcard()
    ensures ParseIntervals("1,3-5,*,7-", DefaultParseOptions()).Success?
    ensures Join(Render(ParseIntervals("1,3-5,*,7-", DefaultParseOptions()).value), ",") == "1,3-5,*,7-"
  {
    var ivs := [SubExpression(1, 1, false), SubExpression(3, 3, false), Wildcard, SubExpression(7, 0, false)];
    WildcardExampleText(ivs);
    TextRoundTrip("1,3-5,*,7-", ivs, DefaultParseOptions());
  }

  lemma WildcardExampleText(ivs: seq<SubExpression>)
    requires ivs == [SubExpression(1, 1, false), SubExpression(3, 3, false), Wildcard, SubExpression(7, 0, false)]
    ensures Join(Render(ivs), ",") == "1,3-5,*,7-"
  {
    assert Render(ivs) == ["1", "3-5", "*", "7-"] by {
      assert ivs[0].String() == "1" by { assert FormatInt(1) == "1"; }
      assert ivs[1].String() == "3-5" by { assert FormatInt(3) == "3" && FormatInt(5) == "5"; }
      assert ivs[2].String() == "*";
      assert ivs[3].String() == "7-" by { assert FormatInt(7) == "7"; }
    }
    assert Join(["1", "3-5", "*", "7-"], ",") == "1,3-5,*,7-";
  }

  /** `1-2,2-3` reads as two touching ranges, which normalize to one. */
  lemma ParseTouching()
    ensures ParseIntervals("1-2,2-3", ParseOptions(",", true, false)) ==
              Success([SubExpression(1, 2, false), SubExpression(2, 2, false)])
  {
    var ivs := [SubExpression(1, 2, false), SubExpression(2, 2, false)];
    assert ivs[0].String() == "1-2" && ivs[1].String() == "2-3";
    assert Render(ivs) == ["1-2", "2-3"];
    assert Join(["1-2", "2-3"], ",") == "1-2,2-3";
    ExpressionRoundTrip(ivs, ParseOptions(",", true, false));
  }

  /** `1-2,2-3` parsed with normalization switched on gives `1-3`. */
  lemma ParseNormalizedTouching(s: seq<SubExpression>, r: seq<SubExpression>, ro: ParseOptions)
    requires ParseIntervals("1-2,2-3", ParseOptions(",", true, false)) == Success(s)
    requires NormalizesTo(s, ParseOptions(",", true, false), r, ro)
    ensures r == [SubExpression(1, 3, false)] && ro == NoOptions
  {
    ParseTouching();
    Normalization.NormalizeTouching(ParseOptions(",", true, false), r, ro);
  }
}
