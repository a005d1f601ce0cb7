/** One subexpression of an interval expression: a single value, a bounded
    range, a range open to infinity, or the wildcard `*`; its textual form and
    the scanner that reads one token of the expression. */
module SubExpressions {
  import opened Text

  /** The largest value of Go's 64-bit `int`; `strconv.ParseInt` rejects any
      numeral above it. */
  const MaxInt64: int := 0x7FFF_FFFF_FFFF_FFFF

  /** `count == 1` is the single value `start`, `count > 1` the values
      `start .. start + count - 1`, `count == 0` every value from `start` on;
      `matchAll` makes the other two fields irrelevant. */
  datatype SubExpression = SubExpression(start: int, count: int, matchAll: bool) {

    /** Whether `v` lies in this interval (the test inside the loop of
        `Expression.Matches`). */
    predicate Contains(v: int)
      ensures matchAll ==> Contains(v)
      ensures !matchAll && count == 0 ==> (Contains(v) <==> start <= v)
      ensures !matchAll && count == 1 ==> (Contains(v) <==> v == start)
      ensures !matchAll && count > 1 ==> (Contains(v) <==> start <= v <= start + count - 1)
    {
      matchAll || (start <= v && (count == 0 || v <= start + count - 1))
    }

    /** The textual form: `*`, `N`, `N-` or `N-M`. */
    function String(): (s: string)
      ensures |s| > 0
      ensures s == "*" <==> matchAll
      ensures !matchAll ==> (s[|s| - 1] == '-' <==> count == 0)
    {
      if matchAll then "*"
      else if count == 0 then FormatInt(start) + "-"
      else if count == 1 then FormatInt(start)
      else FormatInt(start) + "-" + FormatInt(start + count - 1)
    }
  }

  /** The wildcard as the parser builds it: only `matchAll` set. */
  const Wildcard := SubExpression(0, 0, true)

  datatype Error =
    | EmptyDelimiter
    | EmptyExpressionDisallowed
    | BadSyntax(token: string)
    | ReversedRange(token: string)
    | NumericOverflow(numeral: string)

  datatype Result<+T> = Success(value: T) | Failure(error: Error)

  /** The subexpressions the parser can produce: the wildcard, or a
      non-negative start with a non-negative count whose last value still
      fits in an int64. */
  predicate Canonical(se: SubExpression) {
    se == Wildcard ||
    (!se.matchAll && 0 <= se.start <= MaxInt64 && se.count >= 0 && se.start + se.count - 1 <= MaxInt64)
  }

  /** Reads one token, trying the four shapes `\s*\*\s*`, `\s*\d+\s*`,
      `\s*\d+-` and `\s*\d+-\d+` with a hand-written scanner; every numeral
      goes through the int64 range check of `strconv.ParseInt`, the start
      before the end, and a range whose end is below its start is refused. */
  function ParseSubExpression(t: string): (r: Result<SubExpression>)
    ensures r.Success? ==> Canonical(r.value)
  {
    var i := SpacePrefix(t);
    var rest := t[i..];
    if |rest| > 0 && rest[0] == '*' && AllSpaces(rest[1..]) then Success(Wildcard)
    else
      var j := DigitPrefix(rest);
      if j == 0 then Failure(BadSyntax(t))
      else
        var first, tail := rest[..j], rest[j..];
        if AllSpaces(tail) then
          if DigitsValue(first) > MaxInt64 then Failure(NumericOverflow(first))
          else Success(SubExpression(DigitsValue(first), 1, false))
        else if tail == "-" then
          if DigitsValue(first) > MaxInt64 then Failure(NumericOverflow(first))
          else Success(SubExpression(DigitsValue(first), 0, false))
        else if tail[0] == '-' && AllDigits(tail[1..]) then
          var second := tail[1..];
          if DigitsValue(first) > MaxInt64 then Failure(NumericOverflow(first))
          else if DigitsValue(second) > MaxInt64 then Failure(NumericOverflow(second))
          else if DigitsValue(second) < DigitsValue(first) then Failure(ReversedRange(t))
          else Success(SubExpression(DigitsValue(first), DigitsValue(second) - DigitsValue(first) + 1, false))
        else Failure(BadSyntax(t))
  }

  // The four token languages, stated by where their parts lie in the token.

  /** `t` is `\s*\*\s*` with the star at `i`. */
  predicate WildcardAt(t: string, i: int) {
    0 <= i < |t| && AllSpaces(t[..i]) && t[i] == '*' && AllSpaces(t[i + 1..])
  }

  /** `t` is `\s*\d+\s*` with the digits at `i .. j`. */
  predicate SingleAt(t: string, i: int, j: int) {
    0 <= i < j <= |t| && AllSpaces(t[..i]) && AllDigits(t[i..j]) && AllSpaces(t[j..])
  }

  /** `t` is `\s*\d+-` with the digits at `i .. j` and the dash last. */
  predicate HalfOpenAt(t: string, i: int, j: int) {
    0 <= i < j && j + 1 == |t| && AllSpaces(t[..i]) && AllDigits(t[i..j]) && t[j] == '-'
  }

  /** `t` is `\s*\d+-\d+` with the first digits at `i .. j` and the dash at `j`. */
  predicate DualAt(t: string, i: int, j: int) {
    0 <= i < j && j + 1 < |t| && AllSpaces(t[..i]) && AllDigits(t[i..j]) && t[j] == '-' && AllDigits(t[j + 1..])
  }

  ghost predicate WellShaped(t: string) {
    (exists i :: WildcardAt(t, i)) ||
    (exists i, j :: SingleAt(t, i, j)) ||
    (exists i, j :: HalfOpenAt(t, i, j)) ||
    (exists i, j :: DualAt(t, i, j))
  }

  /** A token whose first non-space character is at `i` starts its scan there. */
  lemma {:induction false} SpacePrefixIs(t: string, i: int)
    requires 0 <= i < |t| && AllSpaces(t[..i]) && !IsSpace(t[i])
    ensures SpacePrefix(t) == i
  {
    if i > 0 {
      assert t[1..][..i - 1] == t[..i][1..];
      SpacePrefixIs(t[1..], i - 1);
    }
  }

  /** A run of digits ending at `j` (end of text, or a non-digit) is scanned whole. */
  lemma {:induction false} DigitPrefixIs(s: string, j: int)
    requires 0 <= j <= |s| && AllDigits(s[..j]) && (j < |s| ==> !IsDigit(s[j]))
    ensures DigitPrefix(s) == j
  {
    if j > 0 {
      assert s[1..][..j - 1] == s[..j][1..];
      DigitPrefixIs(s[1..], j - 1);
    }
  }

  lemma ParseWildcardShape(t: string, i: int)
    requires WildcardAt(t, i)
    ensures ParseSubExpression(t) == Success(Wildcard)
  {
    SpacePrefixIs(t, i);
    assert t[i..][1..] == t[i + 1..];
  }

  lemma ParseSingleShape(t: string, i: int, j: int)
    requires SingleAt(t, i, j)
    ensures var n := DigitsValue(t[i..j]);
      ParseSubExpression(t) ==
        if n > MaxInt64 then Failure(NumericOverflow(t[i..j])) else Success(SubExpression(n, 1, false))
  {
    assert t[i..j][0] == t[i];
    SpacePrefixIs(t, i);
    var rest := t[i..];
    assert rest[..j - i] == t[i..j];
    assert rest[j - i..] == t[j..];
    if j < |t| {
      assert t[j..][0] == t[j];
    }
    DigitPrefixIs(rest, j - i);
  }

  lemma ParseHalfOpenShape(t: string, i: int, j: int)
    requires HalfOpenAt(t, i, j)
    ensures var n := DigitsValue(t[i..j]);
      ParseSubExpression(t) ==
        if n > MaxInt64 then Failure(NumericOverflow(t[i..j])) else Success(SubExpression(n, 0, false))
  {
    assert t[i..j][0] == t[i];
    SpacePrefixIs(t, i);
    var rest := t[i..];
    assert rest[..j - i] == t[i..j];
    assert rest[j - i..] == t[j..] == "-";
    DigitPrefixIs(rest, j - i);
  }

  lemma ParseDualShape(t: string, i: int, j: int)
    requires DualAt(t, i, j)
    ensures var n, m := DigitsValue(t[i..j]), DigitsValue(t[j + 1..]);
      ParseSubExpression(t) ==
        if n > MaxInt64 then Failure(NumericOverflow(t[i..j]))
        else if m > MaxInt64 then Failure(NumericOverflow(t[j + 1..]))
        else if m < n then Failure(ReversedRange(t))
        else Success(SubExpression(n, m - n + 1, false))
  {
    assert t[i..j][0] == t[i];
    SpacePrefixIs(t, i);
    var rest := t[i..];
    assert rest[..j - i] == t[i..j];
    var tail := rest[j - i..];
    assert tail == t[j..];
    assert tail[0] == '-' && tail[1..] == t[j + 1..];
    assert !AllSpaces(tail) by { assert !IsSpace(tail[0]); }
    assert tail != "-" by { assert |tail| >= 2; }
    DigitPrefixIs(rest, j - i);
  }

  /** A token with one of the four shapes is never refused as bad syntax. */
  lemma ShapedTokenParses(t: string)
    requires WellShaped(t)
    ensures ParseSubExpression(t) != Failure(BadSyntax(t))
  {
    if i :| WildcardAt(t, i) {
      ParseWildcardShape(t, i);
    } else if i, j :| SingleAt(t, i, j) {
      ParseSingleShape(t, i, j);
    } else if i, j :| HalfOpenAt(t, i, j) {
      ParseHalfOpenShape(t, i, j);
    } else {
      var i, j :| DualAt(t, i, j);
      ParseDualShape(t, i, j);
    }
  }

  /** A token not refused as bad syntax has one of the four shapes. */
  lemma ParsedTokenShaped(t: string)
    requires ParseSubExpression(t) != Failure(BadSyntax(t))
    ensures WellShaped(t)
  {
    var i := SpacePrefix(t);
    var rest := t[i..];
    if |rest| > 0 && rest[0] == '*' && AllSpaces(rest[1..]) {
      assert t[i + 1..] == rest[1..];
      assert WildcardAt(t, i);
    } else {
      var j := DigitPrefix(rest);
      var first, tail := rest[..j], rest[j..];
      assert t[i..i + j] == first;
      assert t[i + j..] == tail;
      if AllSpaces(tail) {
        assert SingleAt(t, i, i + j);
      } else if tail == "-" {
        assert HalfOpenAt(t, i, i + j);
      } else {
        assert t[i + j + 1..] == tail[1..];
        assert DualAt(t, i, i + j);
      }
    }
  }

  /** A token is refused as bad syntax exactly when it has none of the four
      shapes; every other outcome (a subexpression, an overflow, a reversed
      range) belongs to one of them. */
  lemma BadSyntaxExactly(t: string)
    ensures ParseSubExpression(t) == Failure(BadSyntax(t)) <==> !WellShaped(t)
  {
    if WellShaped(t) {
      ShapedTokenParses(t);
    }
    if ParseSubExpression(t) != Failure(BadSyntax(t)) {
      ParsedTokenShaped(t);
    }
  }

  /** A two-number token that parses yields a non-negative start and a
      count of at least one. */
  lemma DualCountPositive(t: string, i: int, j: int)
    requires DualAt(t, i, j) && ParseSubExpression(t).Success?
    ensures ParseSubExpression(t).value.start >= 0 && ParseSubExpression(t).value.count >= 1
  {
    ParseDualShape(t, i, j);
  }

  /** The textual form of a subexpression uses only digits, `-` and `*`. */
  lemma StringAlphabet(se: SubExpression)
    ensures forall k :: 0 <= k < |se.String()| ==> IsDigit(se.String()[k]) || se.String()[k] in "-*"
  {
  }

  /** Re-reading the textual form of a subexpression the parser can produce
      gives the same subexpression back. */
  lemma StringRoundTrip(se: SubExpression)
    requires Canonical(se)
    ensures ParseSubExpression(se.String()) == Success(se)
  {
    if se.matchAll {
      ReadWildcard(se);
    } else if se.count == 0 {
      ReadHalfOpen(se);
    } else if se.count == 1 {
      ReadSingle(se);
    } else {
      ReadDual(se);
    }
  }

  // Each textual form reads back as the subexpression it shows.

  lemma ReadWildcard(se: SubExpression)
    requires Canonical(se) && se.matchAll
    ensures ParseSubExpression(se.String()) == Success(se)
  {
    assert se == Wildcard && se.String() == "*";
    assert WildcardAt("*", 0);
    ParseWildcardShape("*", 0);
  }

  lemma ReadSingle(se: SubExpression)
    requires Canonical(se) && !se.matchAll && se.count == 1
    ensures ParseSubExpression(se.String()) == Success(se)
  {
    var t := Decimal(se.start);
    assert se.String() == t;
    DigitsValueOfDecimal(se.start);
    assert t[0..|t|] == t;
    assert SingleAt(t, 0, |t|);
    ParseSingleShape(t, 0, |t|);
  }

  lemma ReadHalfOpen(se: SubExpression)
    requires Canonical(se) && !se.matchAll && se.count == 0
    ensures ParseSubExpression(se.String()) == Success(se)
  {
    var ds := Decimal(se.start);
    var t := se.String();
    assert t == ds + "-";
    DigitsValueOfDecimal(se.start);
    assert t[0..|ds|] == ds;
    assert HalfOpenAt(t, 0, |ds|);
    ParseHalfOpenShape(t, 0, |ds|);
  }

  lemma ReadDual(se: SubExpression)
    requires Canonical(se) && !se.matchAll && se.count > 1
    ensures ParseSubExpression(se.String()) == Success(se)
  {
    var n, m := se.start, se.start + se.count - 1;
    var ds, es := Decimal(n), Decimal(m);
    var t := se.String();
    assert t == ds + "-" + es;
    assert t[0..|ds|] == ds;
    assert t[|ds| + 1..] == es;
    assert DualAt(t, 0, |ds|);
    ParseDualShape(t, 0, |ds|);
    DigitsValueOfDecimal(n);
    DigitsValueOfDecimal(m);
  }

  /** Whatever the parser reads, re-reading its textual form reads the same. */
  lemma ReparseString(t: string)
    requires ParseSubExpression(t).Success?
    ensures ParseSubExpression(ParseSubExpression(t).value.String()) == ParseSubExpression(t)
  {
    StringRoundTrip(ParseSubExpression(t).value);
  }

  /** Tokens the parser refuses as bad syntax. */

  /** A token whose first non-space character is neither a digit nor a
      star, or that has none, is bad syntax. */
  lemma BadLeadingCharacter(t: string, i: nat)
    requires i <= |t| && AllSpaces(t[..i])
    requires i < |t| ==> !IsSpace(t[i]) && !IsDigit(t[i]) && t[i] != '*'
    ensures ParseSubExpression(t) == Failure(BadSyntax(t))
  {
    if i < |t| {
      SpacePrefixIs(t, i);
    } else {
      assert t[..i] == t;
    }
  }

  /** A numeral followed by a character that is neither a space, a digit
      nor a dash is bad syntax. */
  lemma BadAfterNumber(t: string, i: nat, j: nat)
    requires i < j < |t| && AllSpaces(t[..i]) && AllDigits(t[i..j])
    requires !IsSpace(t[j]) && !IsDigit(t[j]) && t[j] != '-'
    ensures ParseSubExpression(t) == Failure(BadSyntax(t))
  {
    assert t[i..j][0] == t[i];
    SpacePrefixIs(t, i);
    var rest := t[i..];
    assert rest[..j - i] == t[i..j];
    assert rest[j - i..][0] == t[j];
    DigitPrefixIs(rest, j - i);
  }

  /** A numeral and a dash followed by anything but digits is bad syntax. */
  lemma BadAfterDash(t: string, i: nat, j: nat)
    requires i < j && j + 1 < |t| && AllSpaces(t[..i]) && AllDigits(t[i..j])
    requires t[j] == '-' && !AllDigits(t[j + 1..])
    ensures ParseSubExpression(t) == Failure(BadSyntax(t))
  {
    assert t[i..j][0] == t[i];
    SpacePrefixIs(t, i);
    var rest := t[i..];
    assert rest[..j - i] == t[i..j];
    var tail := rest[j - i..];
    assert tail[0] == '-' && tail[1..] == t[j + 1..];
    DigitPrefixIs(rest, j - i);
  }

  /** Tokens of the test table whose first non-space character is wrong. */
  lemma RejectedLeadingTokens()
    ensures ParseSubExpression("a") == Failure(BadSyntax("a"))
    ensures ParseSubExpression("a-3") == Failure(BadSyntax("a-3"))
    ensures ParseSubExpression("-1") == Failure(BadSyntax("-1"))
    ensures ParseSubExpression("-x") == Failure(BadSyntax("-x"))
  {
    BadLeadingCharacter("a", 0);
    BadLeadingCharacter("a-3", 0);
    BadLeadingCharacter("-1", 0);
    BadLeadingCharacter("-x", 0);
  }

  /** Tokens of the test table with garbage after the first numeral. */
  lemma RejectedTrailingTokens()
    ensures ParseSubExpression("1-b") == Failure(BadSyntax("1-b"))
    ensures ParseSubExpression("1@") == Failure(BadSyntax("1@"))
    ensures ParseSubExpression("1@3") == Failure(BadSyntax("1@3"))
  {
    assert !IsDigit("1-b"[2..][0]);
    BadAfterDash("1-b", 0, 1);
    BadAfterNumber("1@", 0, 1);
    BadAfterNumber("1@3", 0, 1);
  }

  /** A blank token is bad syntax, not an empty subexpression. */
  lemma RejectedBlankToken()
    ensures ParseSubExpression("   ") == Failure(BadSyntax("   "))
  {
    BadLeadingCharacter("   ", 3);
  }

  /** A star with the spaces its shape allows around it. */
  lemma PaddedStar()
    ensures ParseSubExpression(" * ") == Success(Wildcard)
  {
    ParseWildcardShape(" * ", 1);
  }

  /** A single value with the spaces its shape allows around it. */
  lemma PaddedNumber()
    ensures ParseSubExpression(" 12 ") == Success(SubExpression(12, 1, false))
  {
    assert " 12 "[..1] == " " && " 12 "[1..3] == "12" && " 12 "[3..] == " ";
    assert "12"[..1] == "1" && "1"[..0] == "";
    assert DigitsValue("12") == 12;
    ParseSingleShape(" 12 ", 1, 3);
  }

  /** An open range, read back from its textual form. */
  lemma OpenRangeToken()
    ensures ParseSubExpression("1-") == Success(SubExpression(1, 0, false))
  {
    assert SubExpression(1, 0, false).String() == "1-" by { assert FormatInt(1) == "1"; }
    StringRoundTrip(SubExpression(1, 0, false));
  }

  /** A closed range, read back from its textual form. */
  lemma ClosedRangeToken()
    ensures ParseSubExpression("5-7") == Success(SubExpression(5, 3, false))
  {
    assert SubExpression(5, 3, false).String() == "5-7" by { assert FormatInt(5) == "5" && FormatInt(7) == "7"; }
    StringRoundTrip(SubExpression(5, 3, false));
  }

  /** A range written backwards is refused. */
  lemma ReversedRangeToken()
    ensures ParseSubExpression("7-5") == Failure(ReversedRange("7-5"))
  {
    ParseDualShape("7-5", 0, 1);
  }
}
