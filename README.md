# Integer interval expressions

A model of the Go package `integerintervalexpressions`, which reads expressions
such as `1,3-5,7-` and answers whether an integer lies in any of their
intervals. An expression is a delimited list of subexpressions. Each
subexpression is one of four things:

- a single value `N`;
- a closed range `N-M`;
- a range `N-` that is open to infinity;
- the wildcard `*`.

Internally a subexpression is a triple `(start, count, matchAll)`:

- `count == 1` is a single value;
- `count > 1` is a closed range;
- `count == 0` is an open range.

The model has five modules.

- `Text` (`text.dfy`) holds the pieces of Go's standard library that the
  parser relies on:
  - the `\s` and `\d` classes of its regular expressions;
  - `strconv.ParseInt` on a run of digits;
  - `%d` formatting;
  - `strings.Split` and `strings.Join`, written out rather than taken as
    given.
- `SubExpressions` (`subexpression.dfy`) holds:
  - the subexpression value, its `String` form and `Contains`;
  - the token parser `parseSubExpression`, written as a hand-written scanner
    over the four token shapes of the source's regular expressions;
  - lemmas that characterise exactly which tokens parse and which are bad
    syntax, and the token round trip.
- `Intervals` (`expression.dfy`) holds:
  - the parse options;
  - the `Expression` class, whose `intervals` array is reordered in place by
    `Normalize`, just as the Go slice's shared backing array is;
  - evaluation (`Matches`, `MatchesNone`, `MatchesAll`);
  - `Normalize`: a sort by start followed by the merge loop;
  - `String`;
  - `ParseExpressionWithOptions` and `ParseExpression`.
- `Normalization` (`normalization.dfy`) proves what normalization does and
  does not guarantee.
- `Parsing` (`parsing.dfy`) proves which tokens the parser reads, which error
  wins, the empty-expression rule and the round trip of the textual form.

The sort at intervals.go:169 is unstable. The merge at line 195 can also
*lower* the running end. Together these mean the result of `Normalize` may
depend on how equal starts are ordered. `Normalize` is therefore specified by
the relation `NormalizesTo`: the merge sweep applied to *some* ordering of the
intervals by start. The model runs a concrete selection sort that meets that
specification.

The line-195 behaviour is reproduced as written. As a result, `1-10,2`
normalizes to `1-2` and stops matching 5 (`Normalization.NormalizeSwallowed`).
Equivalence with the input is therefore proved only under the premise that no
merge lowers the running end (`Normalization.NormalizeEquivalent`). Soundness
(nothing new is matched) is proved for every expression the parser builds.

The doc comment at intervals.go:129-131 calls `"   "` an empty input. The code
instead refuses a blank token as invalid syntax: `\s*` alone matches none of
the four shapes, and only the token `""` is skipped. The model follows the code
(`SubExpressions.RejectedBlankToken`).

## Model

| member | source | states |
|---|---|---|
| Text.SpacePrefix | intervals.go:326-329 | the leading `\s*` of every token shape: the longest prefix of spaces, tabs, newlines, form feeds and carriage returns |
| Text.DigitPrefix | intervals.go:327-329 | the `\d+` of every numeral: the longest prefix of ASCII digits |
| Text.Decimal | intervals.go:52-56 | `%d` of a non-negative integer is a non-empty digit string without a leading zero |
| Text.DigitsValueOfDecimal | intervals.go:338 | `strconv.ParseInt` reads back the value that `%d` wrote |
| Text.IndexFrom | intervals.go:301 | the first occurrence of the delimiter at or after a position, or -1 when there is none, with no earlier occurrence |
| Text.DigitsValue | intervals.go:338 | the value `strconv.ParseInt` gives a run of digits, leading zeros allowed: zero exactly when every digit is `0` |
| Text.FormatInt | intervals.go:52-56 | `%d` of any integer: digits that read back as the value, after a `-` when it is negative |
| Text.Join | intervals.go:227 | `strings.Join`: the parts with the delimiter between neighbours; it has no contract of its own, and `Text.Split` and `Text.SplitJoin` state how it inverts splitting |
| Text.Split | intervals.go:301 | `strings.Split` with a non-empty delimiter: at least one part; joining the parts gives the input back; no part contains the delimiter |
| Text.SplitLeftmost | intervals.go:301 | every cut of `strings.Split` is at the leftmost occurrence: each part but the last, followed by the delimiter, has its first occurrence of the delimiter right after the part |
| Text.FirstCut | intervals.go:301 | the piece before the first occurrence of the delimiter, followed by the delimiter, has its first occurrence exactly at the cut |
| Text.SplitJoin | intervals.go:227 | splitting a `strings.Join` gives the parts back when the delimiter's first character occurs in none of them |
| SubExpressions.SubExpression.Contains | intervals.go:112-118 | the wildcard contains every value; `count == 0` every value from `start` on; `count == 1` exactly `start`; a larger count exactly `start` to `start + count - 1` |
| SubExpressions.SubExpression.String | intervals.go:45-58 | the textual form is never empty; it is `*` exactly for the wildcard; otherwise it ends in `-` exactly when the interval is open |
| SubExpressions.ParseSubExpression | intervals.go:331-374 | `parseSubExpression`: every success is a wildcard, or has a start in int64 range, a count of at least 0, and an end in int64 range |
| SubExpressions.ParseWildcardShape | intervals.go:326-334 | `\s*\*\s*` parses to the wildcard |
| SubExpressions.ParseSingleShape | intervals.go:327-343 | `\s*\d+\s*` parses to `{N, 1}`, or to a numeric overflow when `N` exceeds the int64 maximum |
| SubExpressions.ParseHalfOpenShape | intervals.go:329-352 | `\s*\d+-` parses to `{N, 0}`, or to a numeric overflow |
| SubExpressions.ParseDualShape | intervals.go:328-371 | `\s*\d+-\d+` gives, in this order of checks: an overflow of the start, then an overflow of the end, then a reversed range when `M < N`, and otherwise `{N, M-N+1}` |
| SubExpressions.ShapedTokenParses | intervals.go:326-373 | a token of one of the four shapes is never bad syntax |
| SubExpressions.ParsedTokenShaped | intervals.go:326-373 | a token that is not bad syntax has one of the four shapes |
| SubExpressions.BadSyntaxExactly | intervals.go:326-373 | a token is refused as bad syntax if and only if it has none of the four shapes |
| SubExpressions.DualCountPositive | intervals.go:365-370 | a parsed two-number token has a start of at least 0 and a count of at least 1 |
| SubExpressions.StringAlphabet | intervals.go:45-58 | the textual form of a subexpression uses only digits, `-` and `*` |
| SubExpressions.StringRoundTrip | intervals.go:45-58 | parsing the `String` of any subexpression the parser can produce gives it back |
| SubExpressions.ReparseString | intervals.go:45-58 | re-parsing the `String` of whatever a token parsed to gives the same result |
| SubExpressions.BadLeadingCharacter | intervals.go:373 | a token whose first non-space character is not a digit or `*`, or which has none, is bad syntax |
| SubExpressions.BadAfterNumber | intervals.go:373 | a numeral followed by a character that is not a space, a digit or `-` is bad syntax |
| SubExpressions.BadAfterDash | intervals.go:373 | a numeral and a dash followed by anything but digits is bad syntax |
| SubExpressions.RejectedLeadingTokens | intervals_test.go:138-179 | `a`, `a-3`, `-1` and `-x` are bad syntax |
| SubExpressions.RejectedTrailingTokens | intervals_test.go:150-167 | `1-b`, `1@` and `1@3` are bad syntax |
| SubExpressions.RejectedBlankToken | intervals.go:129-131 | a blank token is bad syntax, not an empty subexpression |
| SubExpressions.PaddedStar | intervals.go:326 | ` * ` is the wildcard: spaces around the star are allowed |
| SubExpressions.PaddedNumber | intervals.go:327 | ` 12 ` is the single value 12: spaces around a lone number are allowed |
| SubExpressions.OpenRangeToken | intervals_test.go:80-89 | `1-` is `{1, 0}`: open from 1 |
| SubExpressions.ClosedRangeToken | intervals_test.go:90-99 | `5-7` is `{5, 3}`: three values from 5 |
| SubExpressions.ReversedRangeToken | intervals.go:365-367 | `7-5` is refused as a reversed range |
| Intervals.MatchesAny | intervals.go:110-122 | the loop of `Matches` is true if and only if some interval contains the value: it is the wildcard, or the value is at least its start and, when it is bounded, at most its end |
| Intervals.HasWildcard | intervals.go:85-92 | the loop of `MatchesAll` is true if and only if some interval is the wildcard |
| Intervals.MatchesSameMembers | intervals.go:110-122 | what is matched depends only on which intervals occur, not on their order or on how often each occurs |
| Intervals.MatchesPermutation | intervals.go:168-171 | reordering the intervals, as the in-place sort does, does not change what is matched |
| Intervals.DefaultParseOptions | intervals.go:139-147 | the defaults neither normalize nor allow an empty expression, and their delimiter cannot start a subexpression, so the round trip of `Parsing.ExpressionRoundTrip` applies to them |
| Intervals.Sweep | intervals.go:173-207 | the merge loop yields at least one and at most as many intervals as it is given, and the first starts where the first input interval does |
| Intervals.SortByStart | intervals.go:168-171 | the intervals end up sorted by start and are a permutation of what they were |
| Intervals.Merge | intervals.go:173-206 | the imperative merge loop computes `Sweep` of the sorted intervals |
| Intervals.Expression.Matches | intervals.go:110-122 | the expression matches a value exactly when one of its intervals contains it |
| Intervals.Expression.MatchesNone | intervals.go:71-81 | an expression with no intervals matches no value |
| Intervals.Expression.MatchesAll | intervals.go:83-92 | an expression with a wildcard matches every value |
| Intervals.Expression.Normalize | intervals.go:154-208 | an empty expression is returned itself; one with a wildcard gives a new `[*]` with the same options; otherwise the receiver's intervals are sorted by start in place and the result is the merge of exactly that order, with zero options. The receiver's intervals stay a permutation of what they were, and what they match is unchanged |
| Intervals.Expression.String | intervals.go:222-228 | the textual forms of the intervals joined with the expression's own delimiter |
| Intervals.ParseTokens | intervals.go:303-312 | the token loop: on success no more subexpressions than tokens, each one a possible result of the token parser |
| Intervals.FailurePersists | intervals.go:306-309 | once a token fails the loop aborts: the whole result is that token's error |
| Intervals.ParseIntervals | intervals.go:297-318 | an empty delimiter is an error; a success is non-empty unless empty expressions are allowed, and holds only parser results |
| Intervals.ParseExpressionWithOptions | intervals.go:297-324 | fails exactly when `ParseIntervals` does, with the same error and no expression; otherwise returns a new expression holding the intervals in input order with the given options, or, when normalization is asked for, their normalization |
| Intervals.ParseExpression | intervals.go:230-233 | `ParseExpressionWithOptions` with the default options: comma-delimited, no normalization, empty expressions refused |
| Normalization.SweepShape | intervals.go:177-206 | the merge of sorted plain intervals is in normal form: non-empty, no wildcard, starts strictly ascending, only the last unbounded, and a gap after each interval |
| Normalization.SweepSound | intervals.go:183-204 | the merge matches only values that its input matches |
| Normalization.SweepComplete | intervals.go:183-204 | when no merge lowers the running end, the merge matches every value its input matches |
| Normalization.NormalizeShape | intervals.go:154-207 | a wildcard gives exactly `[*]` with the same options; otherwise the result is in normal form, has no more intervals than the input, and has zero options |
| Normalization.NormalizeSound | intervals.go:149-151 | every value matched after normalization was matched before |
| Normalization.NormalizeEquivalent | intervals.go:149-151 | normalization keeps exactly the matched values when the expression holds a wildcard, or when no ordering lets a merge lower the running end (in particular when it is empty) |
| Normalization.SortedPermutationUnique | intervals.go:168-171 | with strictly ascending starts there is only one ordering by start |
| Normalization.SweepFixpoint | intervals.go:177-206 | the merge of intervals already in normal form gives them back |
| Normalization.NormalizeIdempotent | intervals.go:154-208 | normalizing a normalization changes neither its intervals nor its options |
| Normalization.NormalizeTouching | intervals_test.go:383-392 | `1-2,2-3` normalizes to `1-3` with zero options |
| Normalization.NormalizeIntoOpen | intervals_test.go:417-426 | `2-4,3-` normalizes to `2-` |
| Normalization.NormalizeUnsorted | intervals_test.go:450-462 | `1,5-6,2-,9-10,17-` normalizes to `1-` |
| Normalization.NormalizeTiedStarts | intervals_test.go:439-448 | `2,2-` normalizes to `2-` whichever of the equal starts comes first |
| Normalization.NormalizeSwallowed | intervals.go:194-195 | `1-10,2` normalizes to `1-2`, which no longer matches 5 although the input did |
| Parsing.NonEmpty | intervals.go:303-305 | the tokens that are read: the non-empty ones, in order |
| Parsing.ParseTokensSpec | intervals.go:303-312 | the loop succeeds if and only if every non-empty token parses, and then yields their results in order; otherwise it reports the error of the first non-empty token that fails |
| Parsing.EmptyExpressionRule | intervals.go:316-318 | an input with no non-empty token is accepted as the empty expression exactly when the options allow it |
| Parsing.ParseRendered | intervals.go:222-228 | the token loop reads the textual forms of parser results back as those results |
| Parsing.ExpressionRoundTrip | intervals.go:210-228 | parsing the joined textual forms of parser results gives them back in order, with a delimiter that cannot start a subexpression |
| Parsing.TextRoundTrip | intervals.go:218-221 | parsing an input written in that form and printing it again gives the input back |
| Parsing.ParseTwoTokens | intervals.go:303-311 | with two tokens the second is read only when the first parses, and the first error wins |
| Parsing.ParseDocumentedExample | intervals.go:96-105 | `1,3-5,7-` reads as `1`, `3-5`, `7-` in that order |
| Parsing.MatchDocumentedExample | intervals_test.go:23-44 | `1,3-5,7-` matches exactly 1, 3 to 5, and every value from 7 on |
| Parsing.EmptyInputRefused | intervals_test.go:55-61 | with the default options `""` is refused as an empty expression |
| Parsing.DelimitersOnlyAllowed | intervals.go:263-266 | `,,,,` is the empty expression when empty expressions are allowed |
| Parsing.DelimitersOnlyRefused | intervals_test.go:63-69 | with the default options `,,,,` is refused as an empty expression |
| Parsing.EmptyTokensSkipped | intervals.go:304-305 | `1,,3` reads as `1`, `3` |
| Parsing.BadTokenAborts | intervals_test.go:187-191 | `1-3,6-x` fails with the bad syntax of `6-x` |
| Parsing.ReversedRangeRefused | intervals.go:365-367 | the expression `7-5` fails as a reversed range |
| Parsing.RoundTripRanges | intervals_test.go:490-511 | `1-3,4,10-` prints back as itself |
| Parsing.RoundTripWildcard | intervals_test.go:490-511 | `1,3-5,*,7-` prints back as itself |
| Parsing.ParseTouching | intervals_test.go:383-392 | `1-2,2-3` reads as two touching ranges |
| Parsing.ParseNormalizedTouching | intervals.go:320-322 | `1-2,2-3` parsed with normalization switched on gives `1-3` |

## Left out

- The Go `regexp` engine. The four token languages of intervals.go:326-329 are
  recognised by a hand-written scanner. `SubExpressions.BadSyntaxExactly` ties
  the scanner to the four shapes.
- Error message text. Errors are a datatype with five kinds: empty delimiter,
  empty expression disallowed, bad syntax, reversed range and numeric
  overflow. The wrapped `strconv` error is reduced to the numeral that
  overflowed.
- The zero `Expression{}` returned next to an error. A failure carries only
  its error, so asking a failed parse's zero expression whether it
  `MatchesNone` is not modelled.
- Fixed-width `int` arithmetic. Integers are unbounded, and only the int64
  bound that `strconv.ParseInt` checks is modelled. In Go, `start+count-1` and
  `b-a+1` (intervals.go:116, 183, 194, 369) wrap at the extremes: for example,
  `0-9223372036854775807` gets a negative count. The model does not capture
  that.
- `sort.Slice` internals. The model sorts with a selection sort, and its
  contract only promises an ordering by start. `Normalize` is specified over
  every such ordering, so no tie order is relied on.
- Strings are sequences of characters, not UTF-8 bytes. `\s`, `\d` and the
  delimiter search agree on both for the ASCII characters that matter here.
- `fmt.Stringer` and `%v` formatting of an expression, printing, and the test
  harness (`reflect.DeepEqual`, `t.Run`). The test tables appear only as the
  worked cases above.
- Normalization.NormalizeEquivalent: weaker than the doc comment at
  intervals.go:149-151, which promises the same values for every input. The
  equivalence holds only when no merge lowers the running end, because
  intervals.go:195 can shrink the merged interval
  (`Normalization.NormalizeSwallowed`). Only soundness holds for every
  expression the parser builds.
- Intervals.Sweep: its own contract states only the size and the first start.
  Its meaning is stated by `Normalization.SweepShape`, `SweepSound` and
  `SweepComplete`.
