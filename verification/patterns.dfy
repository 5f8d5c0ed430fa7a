/** The two regular expressions of the Amazon provider, written out as
    predicates over strings: `[0-9]+` (its leftmost match, `FindString`) and
    `[3-9]\+? [Yy]ear` (whether it matches anywhere, `MatchString`). */
module Patterns {
  import opened Strconv

  /** Some character of `s` is an ASCII digit. */
  ghost predicate HasDigit(s: string)
  {
    exists k :: 0 <= k < |s| && IsDigit(s[k])
  }

  /** `s[i..j]` is the leftmost maximal run of digits in `s`. */
  ghost predicate LeftmostDigitRun(s: string, i: int, j: int)
  {
    && 0 <= i < j <= |s|
    && (forall k :: 0 <= k < i ==> !IsDigit(s[k]))
    && (forall k :: i <= k < j ==> IsDigit(s[k]))
    && (j == |s| || !IsDigit(s[j]))
  }

  /** The number of characters before the first digit of `s`. */
  function NonDigitPrefix(s: string): (n: nat)
    ensures n <= |s|
    ensures forall k :: 0 <= k < n ==> !IsDigit(s[k])
    ensures n < |s| ==> IsDigit(s[n])
  {
    if |s| == 0 || IsDigit(s[0]) then 0 else 1 + NonDigitPrefix(s[1..])
  }

  /** The length of the run of digits at the start of `s`. */
  function DigitPrefix(s: string): (n: nat)
    ensures n <= |s|
    ensures forall k :: 0 <= k < n ==> IsDigit(s[k])
    ensures n < |s| ==> !IsDigit(s[n])
  {
    if |s| == 0 || !IsDigit(s[0]) then 0 else 1 + DigitPrefix(s[1..])
  }

  /** `regexp.MustCompile("[0-9]+").FindString(s)`: the leftmost, longest run of
      digits, or the empty string when `s` has no digit. */
  function FirstDigitRun(s: string): (r: string)
    ensures AllDigits(r)
    ensures r == [] <==> !HasDigit(s)
    ensures r != [] ==> exists i, j :: LeftmostDigitRun(s, i, j) && r == s[i..j]
  {
    var i := NonDigitPrefix(s);
    var n := DigitPrefix(s[i..]);
    assert i < |s| ==> n >= 1;
    assert LeftmostDigitRun(s, i, i + n) || n == 0;
    s[i..i + n]
  }

  /** There is only one leftmost maximal run, and it is the one found. */
  lemma FirstDigitRunIsLeftmost(s: string)
    ensures forall i, j :: LeftmostDigitRun(s, i, j) ==> s[i..j] == FirstDigitRun(s)
  {
    forall i, j | LeftmostDigitRun(s, i, j)
      ensures s[i..j] == FirstDigitRun(s)
    {
      assert HasDigit(s) by {
        assert IsDigit(s[i]);
      }
      var r := FirstDigitRun(s);
      var i2, j2 :| LeftmostDigitRun(s, i2, j2) && r == s[i2..j2];
      assert IsDigit(s[i]) && IsDigit(s[i2]);
      assert i == i2;
      assert j == j2;
    }
  }

  /** `[Yy]ear` preceded by one space, starting at index `k` of `s`. */
  predicate YearWordAt(s: string, k: int)
  {
    && 0 <= k && k + 5 <= |s|
    && s[k] == ' '
    && (s[k + 1] == 'Y' || s[k + 1] == 'y')
    && s[k + 2..k + 5] == "ear"
  }

  /** `[3-9]\+? [Yy]ear` matches the text of `s` that starts at index `i`. */
  predicate YearsPatternAt(s: string, i: int)
  {
    && 0 <= i < |s|
    && '3' <= s[i] <= '9'
    && (YearWordAt(s, i + 1) || (i + 1 < |s| && s[i + 1] == '+' && YearWordAt(s, i + 2)))
  }

  /** The unanchored pattern matches somewhere in `s`. */
  ghost predicate MentionsYears(s: string)
  {
    exists i :: YearsPatternAt(s, i)
  }

  /** Text without any of the digits 3 to 9 never asks for years. */
  lemma NoHighDigit(s: string)
    requires forall i :: 0 <= i < |s| ==> !('3' <= s[i] <= '9')
    ensures !MentionsYears(s)
  {
  }

  /** A match stays a match, shifted, when text is added around it. */
  lemma YearsPatternExtend(s: string, i: int, x: string, y: string)
    requires YearsPatternAt(s, i)
    ensures YearsPatternAt(x + s + y, |x| + i)
  {
    var t := x + s + y;
    forall k | 0 <= k < |s|
      ensures t[|x| + k] == s[k]
    {
    }
    if YearWordAt(s, i + 1) {
      assert t[|x| + i + 3..|x| + i + 6] == s[i + 3..i + 6];
    } else {
      assert t[|x| + i + 4..|x| + i + 7] == s[i + 4..i + 7];
    }
  }

  /** The scan behind `MatchString`: tries every start position from `k` on. */
  function MatchYearsFrom(s: string, k: nat): (r: bool)
    requires k <= |s|
    ensures r <==> exists i :: k <= i && YearsPatternAt(s, i)
    decreases |s| - k
  {
    if k == |s| then false
    else YearsPatternAt(s, k) || MatchYearsFrom(s, k + 1)
  }

  /** `regexp.MustCompile("[3-9]\\+? [Yy]ear").MatchString(s)`. */
  function MatchYears(s: string): (r: bool)
    ensures r <==> MentionsYears(s)
  {
    MatchYearsFrom(s, 0)
  }
}
