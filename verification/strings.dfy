/** The operations of Go's `strings` package that the Amazon provider uses,
    over strings as sequences of Unicode code points. */
module Strings {

  /** `p` occurs in `s` starting at index `i`. */
  predicate OccursAt(p: string, s: string, i: int)
  {
    0 <= i && i + |p| <= |s| && s[i..i + |p|] == p
  }

  /** `p` is a substring of `s`. */
  ghost predicate Occurs(p: string, s: string)
  {
    exists i :: OccursAt(p, s, i)
  }

  /** The first index at or after `k` where `p` occurs in `s`, or -1. */
  function IndexFrom(s: string, p: string, k: nat): (r: int)
    requires k <= |s|
    ensures r == -1 || (k <= r && OccursAt(p, s, r))
    ensures forall i :: k <= i && (r == -1 || i < r) ==> !OccursAt(p, s, i)
    decreases |s| - k
  {
    if k + |p| > |s| then -1
    else if s[k..k + |p|] == p then k
    else IndexFrom(s, p, k + 1)
  }

  /** `strings.Index`: the leftmost occurrence of `p` in `s`, or -1. */
  function Index(s: string, p: string): (r: int)
    ensures r == -1 || OccursAt(p, s, r)
    ensures forall i :: 0 <= i && (r == -1 || i < r) ==> !OccursAt(p, s, i)
  {
    IndexFrom(s, p, 0)
  }

  /** `strings.Contains`: reports exactly whether `p` is a substring of `s`. */
  function Contains(s: string, p: string): (b: bool)
    ensures b <==> Occurs(p, s)
  {
    Index(s, p) >= 0
  }

  /** A substring keeps every occurrence it spans: an occurrence in a slice is
      an occurrence in the whole string. */
  lemma OccursInSlice(p: string, s: string, a: int, b: int)
    requires 0 <= a <= b <= |s|
    requires Occurs(p, s[a..b])
    ensures Occurs(p, s)
  {
    var i :| OccursAt(p, s[a..b], i);
    var t := s[a..b];
    var u, w := s[a + i..a + i + |p|], t[i..i + |p|];
    forall k | 0 <= k < |p|
      ensures u[k] == w[k]
    {
      assert t[i + k] == s[a + i + k];
    }
    assert u == w;
    assert OccursAt(p, s, a + i);
  }

  /** A string lacking some character of `p` cannot contain `p`. */
  lemma MissingChar(p: string, s: string, j: int)
    requires 0 <= j < |p|
    requires forall i :: 0 <= i < |s| ==> s[i] != p[j]
    ensures !Occurs(p, s)
  {
    forall i | 0 <= i
      ensures !OccursAt(p, s, i)
    {
      if i + |p| <= |s| {
        assert s[i..i + |p|][j] == s[i + j];
      }
    }
  }

  /** A string in which two adjacent characters of `p` never appear side by
      side cannot contain `p`. */
  lemma MissingPair(p: string, s: string, j: int)
    requires 0 <= j && j + 1 < |p|
    requires forall i :: 0 <= i < |s| - 1 ==> !(s[i] == p[j] && s[i + 1] == p[j + 1])
    ensures !Occurs(p, s)
  {
    forall i | 0 <= i
      ensures !OccursAt(p, s, i)
    {
      if i + |p| <= |s| {
        assert s[i..i + |p|][j] == s[i + j];
        assert s[i..i + |p|][j + 1] == s[i + j + 1];
      }
    }
  }

  /** Adding text around a string keeps every substring it had. */
  lemma OccursExtend(p: string, s: string, x: string, y: string)
    requires Occurs(p, s)
    ensures Occurs(p, x + s + y)
  {
    var i :| OccursAt(p, s, i);
    var t := x + s + y;
    assert t[|x| + i..|x| + i + |p|] == s[i..i + |p|];
    assert OccursAt(p, t, |x| + i);
  }

  /** `strings.HasPrefix`. */
  predicate HasPrefix(s: string, p: string)
  {
    |p| <= |s| && s[..|p|] == p
  }

  /** `unicode.IsSpace`, the white-space test of `strings.TrimSpace`: the
      ASCII spaces, NEL, NBSP and the Unicode space separators. */
  predicate IsSpace(c: char)
  {
    || c == '\t' || c == '\n' || c == '\U{0B}' || c == '\U{0C}' || c == '\r' || c == ' '
    || c == '\U{85}' || c == '\U{A0}' || c == '\U{1680}'
    || ('\U{2000}' <= c <= '\U{200A}')
    || c == '\U{2028}' || c == '\U{2029}' || c == '\U{202F}' || c == '\U{205F}' || c == '\U{3000}'
  }

  /** Every character of `t` is white space. */
  ghost predicate AllSpace(t: string)
  {
    forall i :: 0 <= i < |t| ==> IsSpace(t[i])
  }

  /** `t` neither starts nor ends with white space. */
  predicate IsTrimmed(t: string)
  {
    |t| == 0 || (!IsSpace(t[0]) && !IsSpace(t[|t| - 1]))
  }

  /** The length of the white-space run at the start of `s`. */
  function LeadingSpaces(s: string): (n: nat)
    ensures n <= |s|
    ensures AllSpace(s[..n])
    ensures n < |s| ==> !IsSpace(s[n])
  {
    if |s| > 0 && IsSpace(s[0]) then
      var n := 1 + LeadingSpaces(s[1..]);
      assert s[..n] == [s[0]] + s[1..][..n - 1];
      n
    else 0
  }

  /** The length of the white-space run at the end of `s`. */
  function TrailingSpaces(s: string): (n: nat)
    ensures n <= |s|
    ensures AllSpace(s[|s| - n..])
    ensures n < |s| ==> !IsSpace(s[|s| - n - 1])
  {
    if |s| > 0 && IsSpace(s[|s| - 1]) then
      var init := s[..|s| - 1];
      var n := 1 + TrailingSpaces(init);
      assert s[|s| - n..] == init[|init| - (n - 1)..] + [s[|s| - 1]];
      n
    else 0
  }

  /** `strings.TrimSpace`: the result is trimmed, and it is what is left of `s`
      once a white-space prefix and a white-space suffix are cut off. */
  function TrimSpace(s: string): (r: string)
    ensures IsTrimmed(r)
    ensures exists a, b :: 0 <= a <= b <= |s| && r == s[a..b] && AllSpace(s[..a]) && AllSpace(s[b..])
  {
    var a := LeadingSpaces(s);
    var t := s[a..];
    var b := a + |t| - TrailingSpaces(t);
    assert t[|t| - TrailingSpaces(t)..] == s[b..];
    s[a..b]
  }

  /** A string that is already trimmed is left unchanged. */
  lemma TrimSpaceOfTrimmed(s: string)
    requires IsTrimmed(s)
    ensures TrimSpace(s) == s
  {
    if |s| > 0 {
      assert LeadingSpaces(s) == 0;
      assert TrailingSpaces(s) == 0;
    }
  }

  /** Trimming twice is trimming once. */
  lemma TrimSpaceIdempotent(s: string)
    ensures TrimSpace(TrimSpace(s)) == TrimSpace(s)
  {
    TrimSpaceOfTrimmed(TrimSpace(s));
  }

  /** `strings.Join` for a non-empty list. */
  function Join(parts: seq<string>, sep: string): string
    requires |parts| >= 1
  {
    if |parts| == 1 then parts[0] else parts[0] + sep + Join(parts[1..], sep)
  }

  /** `strings.Split` with a non-empty separator: the pieces between the
      occurrences of `sep` found left to right. No piece contains `sep`, and
      joining the pieces with `sep` gives back `s`. */
  function Split(s: string, sep: string): (parts: seq<string>)
    requires |sep| > 0
    ensures |parts| >= 1
    ensures forall k :: 0 <= k < |parts| ==> !Occurs(sep, parts[k])
    ensures Join(parts, sep) == s
    decreases |s|
  {
    var i := Index(s, sep);
    if i < 0 then
      [s]
    else
      var head := s[..i];
      var rest := Split(s[i + |sep|..], sep);
      assert !Occurs(sep, head) by {
        if Occurs(sep, head) {
          var j :| OccursAt(sep, head, j);
          assert s[j..j + |sep|] == head[j..j + |sep|];
          assert OccursAt(sep, s, j);
        }
      }
      assert s == head + sep + s[i + |sep|..];
      [head] + rest
  }

  /** A character missing from `s` is missing from every piece of it. */
  lemma {:induction false} SplitAvoids(s: string, sep: string, cs: set<char>)
    requires |sep| > 0
    requires forall i :: 0 <= i < |s| ==> s[i] !in cs
    ensures forall k, i :: 0 <= k < |Split(s, sep)| && 0 <= i < |Split(s, sep)[k]| ==> Split(s, sep)[k][i] !in cs
    decreases |s|
  {
    var i := Index(s, sep);
    if i >= 0 {
      var rest := s[i + |sep|..];
      SplitAvoids(rest, sep, cs);
      assert Split(s, sep) == [s[..i]] + Split(rest, sep);
    }
  }

  /** Splitting `a + sep + b`, where `a` holds no separator, cuts exactly
      at the separator after `a`. */
  lemma SplitCons(a: string, sep: string, b: string)
    requires |sep| > 0 && Unbordered(sep)
    requires !Occurs(sep, a)
    ensures Split(a + sep + b, sep) == [a] + Split(b, sep)
  {
    var s := a + sep + b;
    assert OccursAt(sep, s, |a|) by {
      assert s[|a|..|a| + |sep|] == sep;
    }
    forall i | 0 <= i < |a|
      ensures !OccursAt(sep, s, i)
    {
      if i + |sep| <= |a| {
        assert s[i..i + |sep|] == a[i..i + |sep|];
        assert !OccursAt(sep, a, i);
      } else if OccursAt(sep, s, i) {
        NoOverlap(sep, s, i, |a|);
      }
    }
    assert Index(s, sep) == |a|;
    assert s[..|a|] == a;
    assert s[|a| + |sep|..] == b;
  }

  /** Without a separator there is a single piece. */
  lemma SplitNone(s: string, sep: string)
    requires |sep| > 0
    requires !Occurs(sep, s)
    ensures Split(s, sep) == [s]
  {
  }

  /** `strings.Split` inverts `strings.Join` when the separator is unbordered
      and no piece holds it. */
  lemma {:induction false} SplitJoin(parts: seq<string>, sep: string)
    requires |parts| >= 1
    requires |sep| > 0 && Unbordered(sep)
    requires forall k :: 0 <= k < |parts| ==> !Occurs(sep, parts[k])
    ensures Split(Join(parts, sep), sep) == parts
    decreases |parts|
  {
    if |parts| == 1 {
      SplitNone(parts[0], sep);
    } else {
      SplitJoin(parts[1..], sep);
      SplitCons(parts[0], sep, Join(parts[1..], sep));
      assert parts == [parts[0]] + parts[1..];
    }
  }

  /** The number of positions at or after `k` where `p` occurs in `s`. */
  function CountFrom(s: string, p: string, k: nat): nat
    decreases |s| + 1 - k
  {
    if k > |s| then 0
    else (if OccursAt(p, s, k) then 1 else 0) + CountFrom(s, p, k + 1)
  }

  /** The number of occurrences of `p` in `s`, overlapping or not. */
  function Occurrences(s: string, p: string): nat
  {
    CountFrom(s, p, 0)
  }

  /** No proper suffix of `p` is also a prefix of it, so two occurrences of
      `p` can never overlap. */
  predicate Unbordered(p: string)
  {
    forall d :: 0 < d < |p| ==> p[d..] != p[..|p| - d]
  }

  /** Positions without an occurrence add nothing to the count. */
  lemma {:induction false} CountSkip(s: string, p: string, k: nat, j: nat)
    requires k <= j
    requires forall i :: k <= i < j ==> !OccursAt(p, s, i)
    ensures CountFrom(s, p, k) == CountFrom(s, p, j)
    decreases j - k
  {
    if k < j {
      CountSkip(s, p, k + 1, j);
    }
  }

  /** Counting from `m + k` in `s` is counting from `k` in the suffix from `m`. */
  lemma {:induction false} CountShift(s: string, p: string, m: nat, k: nat)
    requires m <= |s|
    ensures CountFrom(s, p, m + k) == CountFrom(s[m..], p, k)
    decreases |s| + 1 - (m + k)
  {
    if m + k <= |s| {
      if k + |p| <= |s[m..]| {
        assert s[m..][k..k + |p|] == s[m + k..m + k + |p|];
      }
      assert OccursAt(p, s, m + k) <==> OccursAt(p, s[m..], k);
      CountShift(s, p, m, k + 1);
    }
  }

  /** An occurrence of an unbordered `p` hides no other occurrence inside it. */
  lemma NoOverlap(p: string, s: string, i: int, j: int)
    requires Unbordered(p)
    requires OccursAt(p, s, i)
    requires i < j < i + |p|
    ensures !OccursAt(p, s, j)
  {
    var d := j - i;
    assert s[j..i + |p|] == p[d..];
    assert p[d..] != p[..|p| - d];
    if j + |p| <= |s| {
      assert s[j..i + |p|] == s[j..j + |p|][..|p| - d];
    }
  }

  /** Splitting on an unbordered separator yields one piece more than there
      are occurrences of the separator. */
  lemma {:induction false} SplitCount(s: string, sep: string)
    requires |sep| > 0 && Unbordered(sep)
    ensures |Split(s, sep)| == Occurrences(s, sep) + 1
    decreases |s|
  {
    var i := Index(s, sep);
    if i < 0 {
      CountSkip(s, sep, 0, |s| + 1);
    } else {
      var m := i + |sep|;
      var rest := s[m..];
      assert Split(s, sep) == [s[..i]] + Split(rest, sep);
      SplitCount(rest, sep);
      CountSkip(s, sep, 0, i);
      assert CountFrom(s, sep, i) == 1 + CountFrom(s, sep, i + 1);
      forall j | i + 1 <= j < m
        ensures !OccursAt(sep, s, j)
      {
        NoOverlap(sep, s, i, j);
      }
      CountSkip(s, sep, i + 1, m);
      CountShift(s, sep, m, 0);
      assert CountFrom(s, sep, m) == Occurrences(rest, sep);
    }
  }

  /** `s` with every character of `cs` deleted: a `strings.Replacer` whose
      old strings are single characters and whose new strings are empty. */
  function DeleteChars(s: string, cs: set<char>): (r: string)
    ensures forall i :: 0 <= i < |r| ==> r[i] !in cs
    ensures |r| <= |s|
  {
    if |s| == 0 then []
    else (if s[0] in cs then [] else [s[0]]) + DeleteChars(s[1..], cs)
  }

  /** Every other character survives the deletion as often as it occurs. */
  lemma {:induction false} DeleteCharsKeepsOthers(s: string, cs: set<char>)
    ensures forall c :: c !in cs ==> multiset(DeleteChars(s, cs))[c] == multiset(s)[c]
    decreases |s|
  {
    if |s| > 0 {
      DeleteCharsKeepsOthers(s[1..], cs);
      assert s == [s[0]] + s[1..];
    }
  }

  /** Deleting characters works piecewise on a concatenation. */
  lemma {:induction false} DeleteCharsAppend(a: string, b: string, cs: set<char>)
    ensures DeleteChars(a + b, cs) == DeleteChars(a, cs) + DeleteChars(b, cs)
    decreases |a|
  {
    if |a| > 0 {
      DeleteCharsAppend(a[1..], b, cs);
      assert (a + b)[0] == a[0];
      assert (a + b)[1..] == a[1..] + b;
    } else {
      assert a + b == b;
    }
  }

  /** Deleting characters that do not occur changes nothing. */
  lemma {:induction false} DeleteAbsentChars(s: string, cs: set<char>)
    requires forall i :: 0 <= i < |s| ==> s[i] !in cs
    ensures DeleteChars(s, cs) == s
    decreases |s|
  {
    if |s| > 0 {
      DeleteAbsentChars(s[1..], cs);
      assert s == [s[0]] + s[1..];
    }
  }
}
