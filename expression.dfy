/** An interval expression: the subexpressions read from a delimited string,
    together with the options it was parsed with; evaluation against an
    integer, normalization (sort, then merge touching intervals) and the
    textual form. */
module Intervals {
  import opened Text
  import opened SubExpressions

  /** How `ParseExpressionWithOptions` reads its input. */
  datatype ParseOptions = ParseOptions(delimiter: string, postProcessNormalize: bool, allowEmptyExpression: bool)

  /** Comma-delimited, no normalization, an empty expression refused. */
  function DefaultParseOptions(): (o: ParseOptions)
    ensures !o.postProcessNormalize && !o.allowEmptyExpression
    ensures |o.delimiter| > 0 && !IsDigit(o.delimiter[0]) && o.delimiter[0] != '-' && o.delimiter[0] != '*'
  {
    ParseOptions(",", false, false)
  }

  /** The zero value of `ParseOptions`: no delimiter, both flags off. */
  const NoOptions := ParseOptions("", false, false)

  // ---------------------------------------------------------------------
  // Evaluation over a sequence of subexpressions

  /** The early-return loop of `Expression.Matches`: a wildcard matches at
      once, otherwise the value must lie between the start and, unless the
      interval is open, its last value. */
  function MatchesAny(ivs: seq<SubExpression>, v: int): (r: bool)
    ensures r <==> exists k :: 0 <= k < |ivs| && ivs[k].Contains(v)
  {
    if ivs == [] then false
    else if ivs[0].matchAll then true
    else if v >= ivs[0].start && (ivs[0].count == 0 || v <= ivs[0].start + ivs[0].count - 1) then true
    else
      var r := MatchesAny(ivs[1..], v);
      assert forall k :: 0 < k < |ivs| ==> ivs[k] == ivs[1..][k - 1];
      r
  }

  /** The early-return loop of `Expression.MatchesAll`. */
  function HasWildcard(ivs: seq<SubExpression>): (r: bool)
    ensures r <==> exists k :: 0 <= k < |ivs| && ivs[k].matchAll
  {
    if ivs == [] then false
    else if ivs[0].matchAll then true
    else
      var r := HasWildcard(ivs[1..]);
      assert forall k :: 0 < k < |ivs| ==> ivs[k] == ivs[1..][k - 1];
      r
  }

  /** Matching depends only on which subexpressions occur: not on their
      order, nor on how often each occurs. */
  lemma MatchesSameMembers(s: seq<SubExpression>, t: seq<SubExpression>, v: int)
    requires forall x :: x in s <==> x in t
    ensures MatchesAny(s, v) == MatchesAny(t, v)
  {
    if MatchesAny(s, v) {
      var k :| 0 <= k < |s| && s[k].Contains(v);
      assert s[k] in t;
      var m :| 0 <= m < |t| && t[m] == s[k];
    }
    if MatchesAny(t, v) {
      var k :| 0 <= k < |t| && t[k].Contains(v);
      assert t[k] in s;
      var m :| 0 <= m < |s| && s[m] == t[k];
    }
  }

  /** A permutation matches what the original matches. */
  lemma MatchesPermutation(s: seq<SubExpression>, t: seq<SubExpression>, v: int)
    requires multiset(s) == multiset(t)
    ensures MatchesAny(s, v) == MatchesAny(t, v)
  {
    forall x
      ensures x in s <==> x in t
    {
      assert x in s <==> x in multiset(s);
      assert x in t <==> x in multiset(t);
    }
    MatchesSameMembers(s, t, v);
  }

  // ---------------------------------------------------------------------
  // Normalization

  predicate SortedByStart(s: seq<SubExpression>) {
    forall i, j :: 0 <= i < j < |s| ==> s[i].start <= s[j].start
  }

  /** `p` is what an unstable sort by start may make of `s`. */
  ghost predicate SortedPermutation(p: seq<SubExpression>, s: seq<SubExpression>) {
    SortedByStart(p) && multiset(p) == multiset(s)
  }

  /** The merge loop of `Normalize` over the intervals after `current`:
      an unbounded `current` ends the sweep; a `next` that starts inside
      `current` or right after it is merged, making `current` unbounded if
      `next` is, and otherwise giving it `next`'s end (even when that end is
      below `current`'s own); a `next` after a gap emits `current` and takes
      its place. */
  function Sweep(current: SubExpression, rest: seq<SubExpression>): (r: seq<SubExpression>)
    ensures 1 <= |r| <= 1 + |rest|
    ensures r[0].start == current.start
    decreases |rest|
  {
    if rest == [] || current.count == 0 then [current]
    else
      var next := rest[0];
      var currentEnd := current.start + current.count - 1;
      if next.start - currentEnd <= 1 then
        if next.count == 0 then [current.(count := 0)]
        else
          var nextEnd := next.start + next.count - 1;
          Sweep(current.(count := nextEnd - current.start + 1), rest[1..])
      else [current] + Sweep(next, rest[1..])
  }

  /** What `Normalize` may return for intervals `s` parsed with options `o`:
      the same expression when it is empty; a lone wildcard with the same
      options when it holds a wildcard; otherwise the merge sweep over some
      ordering of `s` by start, with the zero options. */
  ghost predicate NormalizesTo(s: seq<SubExpression>, o: ParseOptions, r: seq<SubExpression>, ro: ParseOptions) {
    if |s| == 0 then r == s && ro == o
    else if HasWildcard(s) then r == [Wildcard] && ro == o
    else ro == NoOptions && exists p :: SortedPermutation(p, s) && |p| > 0 && r == Sweep(p[0], p[1..])
  }

  /** Every interval before position `i` starts no later than any from `i` on. */
  predicate PartitionedAt(s: seq<SubExpression>, i: int) {
    forall p, q :: 0 <= p < i <= q < |s| ==> s[p].start <= s[q].start
  }

  /** Sorts `a` by start in place (a selection sort standing for
      `sort.Slice`: no order among equal starts is promised). */
  method SortByStart(a: array<SubExpression>)
    modifies a
    ensures SortedByStart(a[..])
    ensures multiset(a[..]) == multiset(old(a[..]))
  {
    var i := 0;
    while i < a.Length
      invariant 0 <= i <= a.Length
      invariant SortedByStart(a[..i]) && PartitionedAt(a[..], i)
      invariant multiset(a[..]) == multiset(old(a[..]))
    {
      var m := EarliestFrom(a, i);
      SwapInto(a, i, m);
      i := i + 1;
    }
    assert a[..a.Length] == a[..];
  }

  /** An index of an earliest-starting interval among `a[i..]`. */
  method EarliestFrom(a: array<SubExpression>, i: int) returns (m: int)
    requires 0 <= i < a.Length
    ensures i <= m < a.Length
    ensures forall q :: i <= q < a.Length ==> a[m].start <= a[q].start
  {
    m := i;
    var j := i + 1;
    while j < a.Length
      invariant i <= m < a.Length && i < j <= a.Length
      invariant forall q :: i <= q < j ==> a[m].start <= a[q].start
    {
      if a[j].start < a[m].start {
        m := j;
      }
      j := j + 1;
    }
  }

  /** One step of the selection sort: the earliest interval of `a[i..]`,
      found at `m`, is swapped to `i`. */
  method SwapInto(a: array<SubExpression>, i: int, m: int)
    requires 0 <= i <= m < a.Length
    requires SortedByStart(a[..i]) && PartitionedAt(a[..], i)
    requires forall q :: i <= q < a.Length ==> a[m].start <= a[q].start
    modifies a
    ensures SortedByStart(a[..i + 1]) && PartitionedAt(a[..], i + 1)
    ensures multiset(a[..]) == multiset(old(a[..]))
  {
    ghost var s := a[..];
    a[i], a[m] := a[m], a[i];
    assert a[..] == s[i := s[m]][m := s[i]];
  }

  /** The merge loop of `Normalize`, run over the sorted intervals. */
  method Merge(a: array<SubExpression>) returns (norm: seq<SubExpression>)
    requires a.Length > 0
    ensures norm == Sweep(a[0], a[1..])
  {
    norm := [];
    var current := a[0];
    var i := 1;
    while i < a.Length
      invariant 1 <= i <= a.Length
      invariant norm + Sweep(current, a[i..]) == Sweep(a[0], a[1..])
    {
      var next := a[i];
      assert a[i..][0] == next && a[i..][1..] == a[i + 1..];
      if current.count == 0 {
        break;
      }
      var currentEnd := current.start + current.count - 1;
      if next.start - currentEnd <= 1 {
        if next.count == 0 {
          current := current.(count := 0);
          break;
        } else {
          var nextEnd := next.start + next.count - 1;
          current := current.(count := nextEnd - current.start + 1);
        }
      } else {
        norm := norm + [current];
        current := next;
        if current.count == 0 {
          break;
        }
      }
      i := i + 1;
    }
    norm := norm + [current];
  }

  // ---------------------------------------------------------------------
  // The expression

  /** The textual forms of the subexpressions, in order. */
  function Render(ivs: seq<SubExpression>): (r: seq<string>)
    ensures |r| == |ivs|
  {
    seq(|ivs|, k requires 0 <= k < |ivs| => ivs[k].String())
  }

  class Expression {
    /** The subexpressions; `Normalize` reorders this array in place. */
    const intervals: array<SubExpression>
    /** The options this expression was parsed with. */
    const opts: ParseOptions

    constructor (intervals: array<SubExpression>, opts: ParseOptions)
      ensures this.intervals == intervals && this.opts == opts
    {
      this.intervals := intervals;
      this.opts := opts;
    }

    /** Whether `v` lies in any of the intervals. */
    predicate Matches(v: int)
      reads intervals
      ensures Matches(v) <==> exists k :: 0 <= k < intervals.Length && intervals[k].Contains(v)
    {
      assert forall k :: 0 <= k < intervals.Length ==> intervals[..][k] == intervals[k];
      MatchesAny(intervals[..], v)
    }

    /** No subexpressions at all: nothing is matched. */
    predicate MatchesNone()
      reads intervals
      ensures MatchesNone() ==> forall v :: !Matches(v)
    {
      intervals.Length == 0
    }

    /** Some subexpression is the wildcard: everything is matched. */
    predicate MatchesAll()
      reads intervals
      ensures MatchesAll() ==> forall v :: Matches(v)
    {
      HasWildcard(intervals[..])
    }

    /** Returns the normalized expression. The receiver's intervals are left
        as a permutation of what they were (sorted by start on the merge
        path), so what the receiver matches does not change; the result is
        the merge of exactly the order the sort left in the receiver. */
    method Normalize() returns (r: Expression)
      modifies intervals
      ensures multiset(intervals[..]) == multiset(old(intervals[..]))
      ensures forall v :: Matches(v) == old(Matches(v))
      ensures NormalizesTo(old(intervals[..]), opts, r.intervals[..], r.opts)
      ensures old(intervals[..]) == [] ==> r == this
      ensures old(intervals[..]) != [] ==> fresh(r) && fresh(r.intervals)
      ensures HasWildcard(old(intervals[..])) ==> intervals[..] == old(intervals[..])
      ensures !HasWildcard(old(intervals[..])) ==> SortedByStart(intervals[..])
      ensures old(intervals[..]) != [] && !HasWildcard(old(intervals[..])) ==>
        r.intervals[..] == Sweep(intervals[0], intervals[1..])
    {
      if MatchesNone() {
        return this;
      }
      if MatchesAll() {
        var w := new SubExpression[1](_ => Wildcard);
        r := new Expression(w, opts);
        assert r.intervals[..] == [Wildcard];
        return;
      }
      SortByStart(intervals);
      var norm := Merge(intervals);
      var a := new SubExpression[|norm|](k requires 0 <= k < |norm| => norm[k]);
      r := new Expression(a, NoOptions);
      assert r.intervals[..] == norm;
      assert SortedPermutation(intervals[..], old(intervals[..]));
      assert intervals[..][0] == intervals[0] && intervals[..][1..] == intervals[1..];
      forall v | true
        ensures MatchesAny(intervals[..], v) == MatchesAny(old(intervals[..]), v)
      {
        MatchesPermutation(intervals[..], old(intervals[..]), v);
      }
    }

    /** The textual forms of the subexpressions joined with the delimiter
        of the options this expression carries. */
    method String() returns (s: string)
      ensures s == Join(Render(intervals[..]), opts.delimiter)
    {
      var ivs: seq<string> := [];
      for i := 0 to intervals.Length
        invariant ivs == Render(intervals[..i])
      {
        ivs := ivs + [intervals[i].String()];
      }
      assert intervals[..intervals.Length] == intervals[..];
      s := Join(ivs, opts.delimiter);
    }
  }

  // ---------------------------------------------------------------------
  // Parsing

  /** The tokens of the loop of `ParseExpressionWithOptions`, left to right:
      empty tokens are skipped, the first token that fails to parse aborts
      with its error, the others are collected in order. */
  function ParseTokens(tokens: seq<string>): (r: Result<seq<SubExpression>>)
    ensures r.Success? ==> |r.value| <= |tokens|
    ensures r.Success? ==> forall k :: 0 <= k < |r.value| ==> Canonical(r.value[k])
  {
    if tokens == [] then Success([])
    else
      match ParseTokens(tokens[..|tokens| - 1])
      case Failure(e) => Failure(e)
      case Success(ivs) =>
        var last := tokens[|tokens| - 1];
        if last == "" then Success(ivs)
        else
          match ParseSubExpression(last)
          case Failure(e) => Failure(e)
          case Success(se) => Success(ivs + [se])
  }

  /** A prefix of the tokens that fails to parse makes all of them fail
      with the same error. */
  lemma {:induction false} FailurePersists(tokens: seq<string>, n: nat)
    requires n <= |tokens| && ParseTokens(tokens[..n]).Failure?
    ensures ParseTokens(tokens) == ParseTokens(tokens[..n])
    decreases |tokens| - n
  {
    if n < |tokens| {
      assert tokens[..n + 1][..n] == tokens[..n];
      FailurePersists(tokens, n + 1);
    } else {
      assert tokens[..n] == tokens;
    }
  }

  /** The intervals `ParseExpressionWithOptions` builds before any
      normalization, or the error it reports: an empty delimiter, the first
      token that fails, or no subexpression when that is not allowed. */
  function ParseIntervals(input: string, opts: ParseOptions): (r: Result<seq<SubExpression>>)
    ensures opts.delimiter == "" ==> r == Failure(EmptyDelimiter)
    ensures r.Success? ==> |r.value| > 0 || opts.allowEmptyExpression
    ensures r.Success? ==> forall k :: 0 <= k < |r.value| ==> Canonical(r.value[k])
  {
    if opts.delimiter == "" then Failure(EmptyDelimiter)
    else
      match ParseTokens(Split(input, opts.delimiter))
      case Failure(e) => Failure(e)
      case Success(ivs) =>
        if |ivs| == 0 && !opts.allowEmptyExpression then Failure(EmptyExpressionDisallowed)
        else Success(ivs)
  }

  /** Parses `input` with `opts`: on success a new expression holding the
      parsed intervals in input order with `opts`, or their normalization
      when `opts` asks for it; on failure the error, with no expression. */
  method ParseExpressionWithOptions(input: string, opts: ParseOptions) returns (r: Result<Expression>)
    ensures r.Failure? <==> ParseIntervals(input, opts).Failure?
    ensures r.Failure? ==> r.error == ParseIntervals(input, opts).error
    ensures r.Success? ==> fresh(r.value) && fresh(r.value.intervals)
    ensures r.Success? && !opts.postProcessNormalize ==>
      r.value.intervals[..] == ParseIntervals(input, opts).value && r.value.opts == opts
    ensures r.Success? && opts.postProcessNormalize ==>
      NormalizesTo(ParseIntervals(input, opts).value, opts, r.value.intervals[..], r.value.opts)
  {
    if opts.delimiter == "" {
      return Failure(EmptyDelimiter);
    }
    var intervalsRaw := Split(input, opts.delimiter);
    var intervals: seq<SubExpression> := [];
    for i := 0 to |intervalsRaw|
      invariant ParseTokens(intervalsRaw[..i]) == Success(intervals)
    {
      var intervalStr := intervalsRaw[i];
      assert intervalsRaw[..i + 1][..i] == intervalsRaw[..i];
      if intervalStr != "" {
        var interval := ParseSubExpression(intervalStr);
        if interval.Failure? {
          FailurePersists(intervalsRaw, i + 1);
          return Failure(interval.error);
        }
        intervals := intervals + [interval.value];
      }
    }
    assert intervalsRaw[..|intervalsRaw|] == intervalsRaw;
    var a := new SubExpression[|intervals|](k requires 0 <= k < |intervals| => intervals[k]);
    var e := new Expression(a, opts);
    assert e.intervals[..] == intervals;
    if e.MatchesNone() && !opts.allowEmptyExpression {
      return Failure(EmptyExpressionDisallowed);
    }
    if opts.postProcessNormalize {
      var n := e.Normalize();
      return Success(n);
    }
    return Success(e);
  }

  /** Parses `input` with the default options. */
  method ParseExpression(input: string) returns (r: Result<Expression>)
    ensures r.Failure? <==> ParseIntervals(input, DefaultParseOptions()).Failure?
    ensures r.Failure? ==> r.error == ParseIntervals(input, DefaultParseOptions()).error
    ensures r.Success? ==> fresh(r.value) && fresh(r.value.intervals)
    ensures r.Success? ==>
      r.value.intervals[..] == ParseIntervals(input, DefaultParseOptions()).value && r.value.opts == DefaultParseOptions()
  {
    r := ParseExpressionWithOptions(input, DefaultParseOptions());
  }
}
