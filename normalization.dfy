/** What normalization guarantees: the shape of the merged intervals, that
    they match nothing the original did not, that they match everything it
    did as long as no interval is swallowed by the running merge, and that
    normalizing twice changes nothing more. */
module Normalization {
  import opened SubExpressions
  import opened Intervals

  /** A bounded or unbounded interval as the merge sweep sees it. */
  predicate Plain(se: SubExpression) {
    !se.matchAll && se.count >= 0
  }

  /** The form the merge sweep produces: at least one interval, no wildcard,
      starts strictly ascending, every interval but the last bounded, and a
      gap of at least one value after each bounded interval. */
  predicate NormalForm(r: seq<SubExpression>) {
    |r| > 0 &&
    (forall k :: 0 <= k < |r| ==> Plain(r[k])) &&
    (forall i, j :: 0 <= i < j < |r| ==> r[i].start < r[j].start) &&
    (forall k :: 0 <= k < |r| - 1 ==> r[k].count >= 1 && r[k + 1].start > r[k].start + r[k].count)
  }

  /** What the sweep needs of its input: plain intervals, sorted by start,
      none starting before `current`. */
  predicate SweepInput(current: SubExpression, rest: seq<SubExpression>) {
    Plain(current) &&
    (forall k :: 0 <= k < |rest| ==> Plain(rest[k]) && current.start <= rest[k].start) &&
    SortedByStart(rest)
  }

  lemma SweepInputTail(current: SubExpression, rest: seq<SubExpression>, c: SubExpression)
    requires SweepInput(current, rest) && |rest| > 0
    requires Plain(c) && c.start <= rest[0].start
    ensures SweepInput(c, rest[1..])
  {
  }

  /** The merge sweep leaves its output in normal form. */
  lemma {:induction false} SweepShape(current: SubExpression, rest: seq<SubExpression>)
    requires SweepInput(current, rest)
    ensures NormalForm(Sweep(current, rest))
    decreases |rest|
  {
    if rest == [] || current.count == 0 {
    } else {
      var next := rest[0];
      var currentEnd := current.start + current.count - 1;
      if next.start - currentEnd <= 1 {
        if next.count != 0 {
          var nextEnd := next.start + next.count - 1;
          var merged := current.(count := nextEnd - current.start + 1);
          SweepInputTail(current, rest, merged);
          SweepShape(merged, rest[1..]);
        }
      } else {
        SweepInputTail(current, rest, next);
        SweepShape(next, rest[1..]);
        var tail := Sweep(next, rest[1..]);
        assert Sweep(current, rest) == [current] + tail;
        NormalFormCons(current, tail);
      }
    }
  }

  /** A bounded interval ending at least one value before a normal form
      starts extends it to a normal form. */
  lemma NormalFormCons(c: SubExpression, tail: seq<SubExpression>)
    requires NormalForm(tail) && Plain(c) && c.count >= 1 && tail[0].start > c.start + c.count
    ensures NormalForm([c] + tail)
  {
    var r := [c] + tail;
    forall k | 0 <= k < |r|
      ensures Plain(r[k])
    {
      if k > 0 { assert r[k] == tail[k - 1]; }
    }
    forall i, j | 0 <= i < j < |r|
      ensures r[i].start < r[j].start
    {
      assert r[j] == tail[j - 1];
      if i > 0 {
        assert r[i] == tail[i - 1];
      } else if j > 1 {
        assert tail[0].start < tail[j - 1].start;
      }
    }
    forall k | 0 <= k < |r| - 1
      ensures r[k].count >= 1 && r[k + 1].start > r[k].start + r[k].count
    {
      assert r[k + 1] == tail[k];
      if k > 0 { assert r[k] == tail[k - 1]; }
    }
  }

  /** The sweep matches nothing that `current` and `rest` do not. */
  lemma {:induction false} SweepSound(current: SubExpression, rest: seq<SubExpression>, v: int)
    requires SweepInput(current, rest)
    ensures MatchesAny(Sweep(current, rest), v) ==> current.Contains(v) || MatchesAny(rest, v)
    decreases |rest|
  {
    if rest == [] || current.count == 0 {
    } else {
      var next := rest[0];
      var currentEnd := current.start + current.count - 1;
      if next.start - currentEnd <= 1 {
        if next.count != 0 {
          var nextEnd := next.start + next.count - 1;
          var merged := current.(count := nextEnd - current.start + 1);
          SweepInputTail(current, rest, merged);
          SweepSound(merged, rest[1..], v);
          if merged.Contains(v) && !current.Contains(v) {
            assert next.Contains(v);
          }
          MatchesTail(rest, v);
        }
      } else {
        SweepInputTail(current, rest, next);
        SweepSound(next, rest[1..], v);
        MatchesTail(rest, v);
        MatchesCons(current, Sweep(next, rest[1..]), v);
      }
    }
  }

  lemma MatchesTail(s: seq<SubExpression>, v: int)
    requires |s| > 0
    ensures MatchesAny(s, v) <==> s[0].Contains(v) || MatchesAny(s[1..], v)
  {
    assert forall k :: 0 < k < |s| ==> s[k] == s[1..][k - 1];
  }

  lemma MatchesCons(c: SubExpression, s: seq<SubExpression>, v: int)
    ensures MatchesAny([c] + s, v) <==> c.Contains(v) || MatchesAny(s, v)
  {
    MatchesTail([c] + s, v);
    assert ([c] + s)[1..] == s;
  }

  /** The merge never lowers the running end: each interval merged into
      `current` while it is bounded ends no earlier than `current` does. */
  predicate NoShrink(current: SubExpression, rest: seq<SubExpression>)
    decreases |rest|
  {
    if rest == [] || current.count == 0 then true
    else
      var next := rest[0];
      var currentEnd := current.start + current.count - 1;
      if next.start - currentEnd <= 1 then
        if next.count == 0 then true
        else
          var nextEnd := next.start + next.count - 1;
          currentEnd <= nextEnd && NoShrink(current.(count := nextEnd - current.start + 1), rest[1..])
      else NoShrink(next, rest[1..])
  }

  /** When no merge lowers the running end, the sweep matches everything
      that `current` and `rest` do. */
  lemma {:induction false} SweepComplete(current: SubExpression, rest: seq<SubExpression>, v: int)
    requires SweepInput(current, rest) && NoShrink(current, rest)
    ensures current.Contains(v) || MatchesAny(rest, v) ==> MatchesAny(Sweep(current, rest), v)
    decreases |rest|
  {
    if rest == [] {
    } else if current.count == 0 {
      if MatchesAny(rest, v) {
        var k :| 0 <= k < |rest| && rest[k].Contains(v);
        assert current.Contains(v);
      }
    } else {
      var next := rest[0];
      var currentEnd := current.start + current.count - 1;
      MatchesTail(rest, v);
      if next.start - currentEnd <= 1 {
        if next.count == 0 {
          if MatchesAny(rest, v) {
            var k :| 0 <= k < |rest| && rest[k].Contains(v);
            assert current.(count := 0).Contains(v);
          }
        } else {
          var nextEnd := next.start + next.count - 1;
          var merged := current.(count := nextEnd - current.start + 1);
          SweepInputTail(current, rest, merged);
          SweepComplete(merged, rest[1..], v);
        }
      } else {
        SweepInputTail(current, rest, next);
        SweepComplete(next, rest[1..], v);
        MatchesCons(current, Sweep(next, rest[1..]), v);
      }
    }
  }

  /** A sorted permutation of intervals with no wildcard and non-negative
      counts is a valid sweep input. */
  lemma SortedSweepInput(p: seq<SubExpression>)
    requires |p| > 0 && SortedByStart(p)
    requires forall k :: 0 <= k < |p| ==> Plain(p[k])
    ensures SweepInput(p[0], p[1..])
  {
    assert forall k :: 0 <= k < |p| - 1 ==> p[1..][k] == p[k + 1];
  }

  /** Parsed intervals that hold no wildcard are plain, and so is every
      element of a permutation of them. */
  lemma PermutationPlain(p: seq<SubExpression>, s: seq<SubExpression>)
    requires multiset(p) == multiset(s)
    requires forall k :: 0 <= k < |s| ==> Canonical(s[k])
    requires !HasWildcard(s)
    ensures forall k :: 0 <= k < |p| ==> Plain(p[k])
  {
    forall k | 0 <= k < |p|
      ensures Plain(p[k])
    {
      assert p[k] in multiset(s);
      var m :| 0 <= m < |s| && s[m] == p[k];
    }
  }

  /** The shape of a normalization of parsed intervals: a lone wildcard when
      they held one, otherwise normal form with no more intervals than
      before. */
  lemma NormalizeShape(s: seq<SubExpression>, o: ParseOptions, r: seq<SubExpression>, ro: ParseOptions)
    requires forall k :: 0 <= k < |s| ==> Canonical(s[k])
    requires |s| > 0 && NormalizesTo(s, o, r, ro)
    ensures HasWildcard(s) ==> r == [Wildcard] && ro == o
    ensures !HasWildcard(s) ==> NormalForm(r) && |r| <= |s| && ro == NoOptions
  {
    if !HasWildcard(s) {
      var p :| SortedPermutation(p, s) && |p| > 0 && r == Sweep(p[0], p[1..]);
      assert |p| == |s| by {
        assert |multiset(p)| == |multiset(s)|;
      }
      PermutationPlain(p, s);
      SortedSweepInput(p);
      SweepShape(p[0], p[1..]);
    }
  }

  /** Normalization never adds a matched value. */
  lemma NormalizeSound(s: seq<SubExpression>, o: ParseOptions, r: seq<SubExpression>, ro: ParseOptions, v: int)
    requires forall k :: 0 <= k < |s| ==> Canonical(s[k])
    requires NormalizesTo(s, o, r, ro)
    ensures MatchesAny(r, v) ==> MatchesAny(s, v)
  {
    if |s| > 0 && !HasWildcard(s) {
      var p :| SortedPermutation(p, s) && |p| > 0 && r == Sweep(p[0], p[1..]);
      PermutationPlain(p, s);
      SortedSweepInput(p);
      SweepSound(p[0], p[1..], v);
      MatchesTail(p, v);
      MatchesPermutation(p, s, v);
    }
  }

  /** No ordering by start of `s` lets the merge lower the running end. */
  ghost predicate NeverShrinks(s: seq<SubExpression>) {
    forall p :: SortedPermutation(p, s) && |p| > 0 ==> NoShrink(p[0], p[1..])
  }

  /** Normalization keeps exactly the matched values when the intervals
      hold a wildcard, or when no interval is swallowed by the running merge
      (in particular when there are no intervals). */
  lemma NormalizeEquivalent(s: seq<SubExpression>, o: ParseOptions, r: seq<SubExpression>, ro: ParseOptions, v: int)
    requires forall k :: 0 <= k < |s| ==> Canonical(s[k])
    requires NormalizesTo(s, o, r, ro) && (NeverShrinks(s) || HasWildcard(s))
    ensures MatchesAny(r, v) <==> MatchesAny(s, v)
  {
    NormalizeSound(s, o, r, ro, v);
    if |s| > 0 && !HasWildcard(s) {
      var p :| SortedPermutation(p, s) && |p| > 0 && r == Sweep(p[0], p[1..]);
      PermutationPlain(p, s);
      SortedSweepInput(p);
      SweepComplete(p[0], p[1..], v);
      MatchesTail(p, v);
      MatchesPermutation(p, s, v);
    } else if |s| > 0 {
      assert r == [Wildcard];
      assert r[0].Contains(v);
    }
  }

  /** Starts strictly ascending leave only one ordering by start. */
  lemma {:induction false} SortedPermutationUnique(p: seq<SubExpression>, q: seq<SubExpression>)
    requires forall i, j :: 0 <= i < j < |p| ==> p[i].start < p[j].start
    requires SortedByStart(q) && multiset(p) == multiset(q)
    ensures p == q
    decreases |p|
  {
    assert |p| == |q| by {
      assert |multiset(p)| == |multiset(q)|;
    }
    if |p| > 0 {
      assert q[0] in multiset(p);
      var i :| 0 <= i < |p| && p[i] == q[0];
      assert p[0] in multiset(q);
      var j :| 0 <= j < |q| && q[j] == p[0];
      assert i == 0;
      MultisetTail(p);
      MultisetTail(q);
      SortedPermutationUnique(p[1..], q[1..]);
    }
  }

  lemma MultisetTail(p: seq<SubExpression>)
    requires |p| > 0
    ensures multiset(p[1..]) == multiset(p) - multiset{p[0]}
  {
    assert p == [p[0]] + p[1..];
  }

  lemma MultisetSwap(s: seq<SubExpression>, i: int, j: int)
    requires 0 <= i < |s| && 0 <= j < |s|
    ensures multiset(s[i := s[j]][j := s[i]]) == multiset(s)
  {
  }

  /** The sweep over intervals already in normal form gives them back. */
  lemma {:induction false} SweepFixpoint(n: seq<SubExpression>)
    requires NormalForm(n)
    ensures Sweep(n[0], n[1..]) == n
    decreases |n|
  {
    if |n| > 1 {
      var tail := n[1..];
      assert NormalForm(tail) by {
        assert forall k :: 0 <= k < |tail| ==> tail[k] == n[k + 1];
      }
      SweepFixpoint(tail);
      assert tail[1..] == n[2..];
      assert n == [n[0]] + tail;
    }
  }

  /** Normalizing a normalization changes neither its intervals nor its
      options. */
  lemma NormalizeIdempotent(s: seq<SubExpression>, o: ParseOptions, n: seq<SubExpression>, no: ParseOptions,
                            n2: seq<SubExpression>, no2: ParseOptions)
    requires forall k :: 0 <= k < |s| ==> Canonical(s[k])
    requires NormalizesTo(s, o, n, no) && NormalizesTo(n, no, n2, no2)
    ensures n2 == n && no2 == no
  {
    if |s| > 0 && !HasWildcard(s) {
      NormalizeShape(s, o, n, no);
      assert !HasWildcard(n);
      var p :| SortedPermutation(p, n) && |p| > 0 && n2 == Sweep(p[0], p[1..]);
      SortedPermutationUnique(n, p);
      SweepFixpoint(n);
    }
  }

  // ---------------------------------------------------------------------
  // Worked cases

  /** `1-2,2-3` normalizes to `1-3`. */
  lemma NormalizeTouching(o: ParseOptions, r: seq<SubExpression>, ro: ParseOptions)
    requires NormalizesTo([SubExpression(1, 2, false), SubExpression(2, 2, false)], o, r, ro)
    ensures r == [SubExpression(1, 3, false)] && ro == NoOptions
  {
    var s := [SubExpression(1, 2, false), SubExpression(2, 2, false)];
    var p :| SortedPermutation(p, s) && |p| > 0 && r == Sweep(p[0], p[1..]);
    SortedPermutationUnique(s, p);
    assert p[1..] == [SubExpression(2, 2, false)];
  }

  /** `2-4,3-` normalizes to `2-`. */
  lemma NormalizeIntoOpen(o: ParseOptions, r: seq<SubExpression>, ro: ParseOptions)
    requires NormalizesTo([SubExpression(2, 3, false), SubExpression(3, 0, false)], o, r, ro)
    ensures r == [SubExpression(2, 0, false)] && ro == NoOptions
  {
    var s := [SubExpression(2, 3, false), SubExpression(3, 0, false)];
    var p :| SortedPermutation(p, s) && |p| > 0 && r == Sweep(p[0], p[1..]);
    SortedPermutationUnique(s, p);
    assert p[1..] == [SubExpression(3, 0, false)];
  }

  /** The one ordering by start of the intervals of `1,5-6,2-,9-10,17-`. */
  lemma UnsortedOrdering(p: seq<SubExpression>)
    requires SortedPermutation(p, [SubExpression(1, 1, false), SubExpression(5, 2, false), SubExpression(2, 0, false),
                                   SubExpression(9, 2, false), SubExpression(17, 0, false)])
    ensures p == [SubExpression(1, 1, false), SubExpression(2, 0, false), SubExpression(5, 2, false),
                  SubExpression(9, 2, false), SubExpression(17, 0, false)]
  {
    var s := [SubExpression(1, 1, false), SubExpression(5, 2, false), SubExpression(2, 0, false),
              SubExpression(9, 2, false), SubExpression(17, 0, false)];
    var sorted := s[1 := s[2]][2 := s[1]];
    MultisetSwap(s, 1, 2);
    SortedPermutationUnique(sorted, p);
  }

  /** `1,5-6,2-,9-10,17-` normalizes to `1-`: once sorted, `2-` touches `1`. */
  lemma NormalizeUnsorted(o: ParseOptions, r: seq<SubExpression>, ro: ParseOptions)
    requires NormalizesTo([SubExpression(1, 1, false), SubExpression(5, 2, false), SubExpression(2, 0, false),
                           SubExpression(9, 2, false), SubExpression(17, 0, false)], o, r, ro)
    ensures r == [SubExpression(1, 0, false)] && ro == NoOptions
  {
    var s := [SubExpression(1, 1, false), SubExpression(5, 2, false), SubExpression(2, 0, false),
              SubExpression(9, 2, false), SubExpression(17, 0, false)];
    var p :| SortedPermutation(p, s) && |p| > 0 && r == Sweep(p[0], p[1..]);
    UnsortedOrdering(p);
    SweepIntoOpen(p[0], p[1..]);
  }

  lemma SweepIntoOpen(c: SubExpression, rest: seq<SubExpression>)
    requires c == SubExpression(1, 1, false) && |rest| > 0 && rest[0] == SubExpression(2, 0, false)
    ensures Sweep(c, rest) == [SubExpression(1, 0, false)]
  {
  }

  /** The only orderings of two intervals. */
  lemma TwoOrderings(p: seq<SubExpression>, x: SubExpression, y: SubExpression)
    requires multiset(p) == multiset([x, y])
    ensures p == [x, y] || p == [y, x]
  {
    assert |p| == 2 by {
      assert |multiset(p)| == |multiset([x, y])|;
    }
    assert p == [p[0]] + [p[1]];
    assert multiset(p) == multiset{p[0], p[1]};
    assert multiset([x, y]) == multiset{x, y};
  }

  /** `2,2-` normalizes to `2-` whichever of the two equal starts the
      unstable sort puts first. */
  lemma NormalizeTiedStarts(o: ParseOptions, r: seq<SubExpression>, ro: ParseOptions)
    requires NormalizesTo([SubExpression(2, 1, false), SubExpression(2, 0, false)], o, r, ro)
    ensures r == [SubExpression(2, 0, false)] && ro == NoOptions
  {
    var s := [SubExpression(2, 1, false), SubExpression(2, 0, false)];
    var p :| SortedPermutation(p, s) && |p| > 0 && r == Sweep(p[0], p[1..]);
    TwoOrderings(p, s[0], s[1]);
    assert p[1..] == [p[1]];
  }

  /** `1-10,2` normalizes to `1-2`: merging `2` sets the running end to 2,
      so 5, matched before, is no longer matched; here the premise of
      `NormalizeEquivalent` fails. */
  lemma NormalizeSwallowed(o: ParseOptions, r: seq<SubExpression>, ro: ParseOptions)
    requires NormalizesTo([SubExpression(1, 10, false), SubExpression(2, 1, false)], o, r, ro)
    ensures r == [SubExpression(1, 2, false)] && ro == NoOptions
    ensures MatchesAny([SubExpression(1, 10, false), SubExpression(2, 1, false)], 5) && !MatchesAny(r, 5)
  {
    var s := [SubExpression(1, 10, false), SubExpression(2, 1, false)];
    var p :| SortedPermutation(p, s) && |p| > 0 && r == Sweep(p[0], p[1..]);
    SortedPermutationUnique(s, p);
    assert p[1..] == [SubExpression(2, 1, false)];
    assert s[0].Contains(5);
  }
}
