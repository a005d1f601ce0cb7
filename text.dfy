/** Character classes, decimal numerals and delimiter splitting, as the
    interval-expression parser uses them: the `\s` and `\d` classes of Go's
    regular expressions, `strconv.ParseInt` on a run of digits, the `%d` verb
    of `fmt.Sprintf`, and `strings.Split` / `strings.Join`. */
module Text {

  /** The class `\s` of Go's regular expressions: `[\t\n\f\r ]`. */
  predicate IsSpace(c: char) {
    c == ' ' || c == '\t' || c == '\n' || c == 12 as char || c == '\r'
  }

  /** The class `\d` of Go's regular expressions: an ASCII digit. */
  predicate IsDigit(c: char) {
    '0' <= c <= '9'
  }

  predicate AllSpaces(s: string) {
    forall k :: 0 <= k < |s| ==> IsSpace(s[k])
  }

  predicate AllDigits(s: string) {
    forall k :: 0 <= k < |s| ==> IsDigit(s[k])
  }

  /** Length of the longest prefix of `s` made of `\s` characters. */
  function SpacePrefix(s: string): (n: nat)
    ensures n <= |s| && AllSpaces(s[..n])
    ensures n < |s| ==> !IsSpace(s[n])
  {
    if s == [] || !IsSpace(s[0]) then 0
    else
      var m := SpacePrefix(s[1..]);
      assert s[..1 + m] == [s[0]] + s[1..][..m];
      1 + m
  }

  /** Length of the longest prefix of `s` made of `\d` characters. */
  function DigitPrefix(s: string): (n: nat)
    ensures n <= |s| && AllDigits(s[..n])
    ensures n < |s| ==> !IsDigit(s[n])
  {
    if s == [] || !IsDigit(s[0]) then 0
    else
      var m := DigitPrefix(s[1..]);
      assert s[..1 + m] == [s[0]] + s[1..][..m];
      1 + m
  }

  /** The numeric value of a run of decimal digits, read most significant
      digit first as `strconv.ParseInt(s, 10, 0)` does (leading zeros allowed,
      no range check: the caller compares the value against the int64 bound). */
  function DigitsValue(s: string): (v: nat)
    requires AllDigits(s)
    ensures v == 0 <==> forall k :: 0 <= k < |s| ==> s[k] == '0'
  {
    if s == [] then 0
    else
      var init := s[..|s| - 1];
      assert forall k :: 0 <= k < |init| ==> init[k] == s[k];
      10 * DigitsValue(init) + (s[|s| - 1] as int - '0' as int)
  }

  function DigitChar(d: nat): (c: char)
    requires d < 10
  {
    ('0' as int + d) as char
  }

  /** The `%d` rendering of a non-negative integer: no sign, no leading zero. */
  function Decimal(n: nat): (s: string)
    ensures |s| > 0 && AllDigits(s)
    ensures |s| > 1 ==> s[0] != '0'
  {
    if n < 10 then [DigitChar(n)]
    else Decimal(n / 10) + [DigitChar(n % 10)]
  }

  /** The `%d` rendering of any integer: a minus sign before a negative one.
      The digits read back as the magnitude. */
  function FormatInt(n: int): (s: string)
    ensures n >= 0 ==> AllDigits(s) && DigitsValue(s) == n
    ensures n < 0 ==> |s| > 1 && s[0] == '-' && AllDigits(s[1..]) && DigitsValue(s[1..]) == -n
  {
    if n < 0 then
      DigitsValueOfDecimal(-n);
      assert ("-" + Decimal(-n))[1..] == Decimal(-n);
      "-" + Decimal(-n)
    else
      DigitsValueOfDecimal(n);
      Decimal(n)
  }

  /** Reading back a rendered numeral gives the number: `%d` and `ParseInt`
      are inverse on the non-negative integers. */
  lemma {:induction false} DigitsValueOfDecimal(n: nat)
    ensures DigitsValue(Decimal(n)) == n
  {
    if n >= 10 {
      DigitsValueOfDecimal(n / 10);
      var s := Decimal(n);
      assert s[..|s| - 1] == Decimal(n / 10);
    }
  }

  /** `sep` occurs in `s` at position `k`. */
  predicate OccursAt(s: string, sep: string, k: int) {
    0 <= k && k + |sep| <= |s| && s[k..k + |sep|] == sep
  }

  /** The first position at or after `k` where `sep` occurs in `s`, or -1
      (`strings.Index` on the suffix from `k`). */
  function IndexFrom(s: string, sep: string, k: nat): (i: int)
    requires |sep| > 0 && k <= |s|
    ensures i == -1 || (k <= i && OccursAt(s, sep, i))
    ensures forall j {:trigger OccursAt(s, sep, j)} :: k <= j && (i == -1 || j < i) ==> !OccursAt(s, sep, j)
    decreases |s| - k
  {
    if k + |sep| > |s| then -1
    else if s[k..k + |sep|] == sep then k
    else IndexFrom(s, sep, k + 1)
  }

  /** `strings.Join`: the parts with `sep` between each two neighbours. */
  function Join(parts: seq<string>, sep: string): string {
    if |parts| == 0 then ""
    else if |parts| == 1 then parts[0]
    else parts[0] + sep + Join(parts[1..], sep)
  }

  /** `strings.Split` with a non-empty separator: the text between the
      leftmost non-overlapping occurrences of `sep`. Joining the parts gives
      `s` back and no part contains `sep`; `SplitLeftmost` shows that each cut
      is made at the first occurrence of `sep` after the previous one (so
      `Split("aaa", "aa")` is `["", "a"]`, not `["a", ""]`); in particular
      `Split("", sep) == [""]`. */
  function Split(s: string, sep: string): (parts: seq<string>)
    requires |sep| > 0
    ensures |parts| > 0
    ensures Join(parts, sep) == s
    ensures forall k, j {:trigger OccursAt(parts[k], sep, j)} :: 0 <= k < |parts| ==> !OccursAt(parts[k], sep, j)
    decreases |s|
  {
    var i := IndexFrom(s, sep, 0);
    if i < 0 then [s]
    else
      var head, rest := s[..i], Split(s[i + |sep|..], sep);
      assert forall j :: OccursAt(head, sep, j) ==> OccursAt(s, sep, j) by {
        forall j | OccursAt(head, sep, j) ensures OccursAt(s, sep, j) {
          assert s[j..j + |sep|] == head[j..j + |sep|];
        }
      }
      assert s == head + sep + s[i + |sep|..];
      [head] + rest
  }

  /** Every cut `Split` makes is at the first occurrence of `sep` after the
      previous cut: each part but the last, followed by `sep`, has its first
      occurrence of `sep` right after the part. */
  lemma {:induction false} SplitLeftmost(s: string, sep: string)
    requires |sep| > 0
    ensures forall k :: 0 <= k < |Split(s, sep)| - 1 ==>
      IndexFrom(Split(s, sep)[k] + sep, sep, 0) == |Split(s, sep)[k]|
    decreases |s|
  {
    var i := IndexFrom(s, sep, 0);
    if i >= 0 {
      var rest := s[i + |sep|..];
      SplitLeftmost(rest, sep);
      FirstCut(s, sep, i);
      var parts := Split(s, sep);
      assert parts == [s[..i]] + Split(rest, sep);
      assert forall k :: 0 < k < |parts| ==> parts[k] == Split(rest, sep)[k - 1];
    }
  }

  /** Cutting `s` at the first occurrence `i` of `sep`, the piece before the
      cut followed by `sep` has its first occurrence of `sep` at the cut. */
  lemma FirstCut(s: string, sep: string, i: int)
    requires |sep| > 0 && 0 <= i && i == IndexFrom(s, sep, 0)
    ensures IndexFrom(s[..i] + sep, sep, 0) == i
  {
    CutAt(s, sep, i, s[..i] + sep);
  }

  /** The same, stated through what makes `i` the first occurrence. */
  lemma CutAt(s: string, sep: string, i: int, t: string)
    requires |sep| > 0 && 0 <= i && OccursAt(s, sep, i)
    requires forall j :: 0 <= j < i ==> !OccursAt(s, sep, j)
    requires t == s[..i] + sep
    ensures IndexFrom(t, sep, 0) == i
  {
    NothingBeforeCut(s, sep, i);
    assert OccursAt(t, sep, i) by {
      assert t[i..i + |sep|] == sep;
    }
    IndexFromIs(t, sep, i);
  }

  lemma NothingBeforeCut(s: string, sep: string, i: int)
    requires |sep| > 0 && 0 <= i && OccursAt(s, sep, i)
    requires forall j :: 0 <= j < i ==> !OccursAt(s, sep, j)
    ensures forall j :: 0 <= j < i ==> !OccursAt(s[..i] + sep, sep, j)
  {
    forall j | 0 <= j < i
      ensures !OccursAt(s[..i] + sep, sep, j)
    {
      BeforeCut(s, sep, i, j);
    }
  }

  /** Before the cut, `s[..i] + sep` agrees with `s`, so it has no
      occurrence there that `s` lacks. */
  lemma BeforeCut(s: string, sep: string, i: int, j: int)
    requires OccursAt(s, sep, i) && 0 <= j < i && !OccursAt(s, sep, j)
    ensures !OccursAt(s[..i] + sep, sep, j)
  {
    var t := s[..i] + sep;
    if j + |sep| <= |t| {
      forall m | j <= m < j + |sep|
        ensures t[m] == s[m]
      {
        if m >= i {
          assert s[i..i + |sep|][m - i] == s[m];
        }
      }
      assert t[j..j + |sep|] == s[j..j + |sep|];
    }
  }

  /** The first occurrence is the one with no occurrence before it. */
  lemma IndexFromIs(t: string, sep: string, i: int)
    requires |sep| > 0 && OccursAt(t, sep, i)
    requires forall j :: 0 <= j < i ==> !OccursAt(t, sep, j)
    ensures IndexFrom(t, sep, 0) == i
  {
    var r := IndexFrom(t, sep, 0);
    assert r == -1 || r > i ==> !OccursAt(t, sep, i);
    assert 0 <= r < i ==> !OccursAt(t, sep, r);
  }

  /** Splitting a joined list gives the list back, provided the separator's
      first character occurs in none of the parts. */
  lemma {:induction false} SplitJoin(parts: seq<string>, sep: string)
    requires |parts| > 0 && |sep| > 0
    requires forall k :: 0 <= k < |parts| ==> sep[0] !in parts[k]
    ensures Split(Join(parts, sep), sep) == parts
  {
    var s := Join(parts, sep);
    var p := parts[0];
    var i := IndexFrom(s, sep, 0);
    if |parts| == 1 {
      assert i == -1;
    } else {
      var rest := Join(parts[1..], sep);
      assert s == p + sep + rest;
      assert OccursAt(s, sep, |p|) by {
        assert s[|p|..|p| + |sep|] == sep;
      }
      assert i == |p|;
      assert s[..i] == p;
      assert s[i + |sep|..] == rest;
      SplitJoin(parts[1..], sep);
    }
  }
}
