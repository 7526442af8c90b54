/** String primitives used by the hand-written stand-ins for the extractors' regular expressions. */
module Text {

  predicate IsDigit(c: char) {
    '0' <= c <= '9'
  }

  predicate AllDigits(s: string) {
    forall i :: 0 <= i < |s| ==> IsDigit(s[i])
  }

  function DigitValue(c: char): (n: nat)
    requires IsDigit(c)
    ensures n < 10
  {
    c as int - '0' as int
  }

  /** The value of a run of decimal digits, as Python's `int` reads it (leading zeros allowed). */
  function DecimalValue(s: string): nat
    requires AllDigits(s)
    decreases |s|
  {
    if s == [] then 0 else DecimalValue(s[..|s| - 1]) * 10 + DigitValue(s[|s| - 1])
  }

  predicate IsPrefix(p: string, s: string) {
    |p| <= |s| && s[..|p|] == p
  }

  predicate EndsWith(s: string, suffix: string) {
    |suffix| <= |s| && s[|s| - |suffix|..] == suffix
  }

  /** Python's `s[:-n]` for a positive `n`: everything but the last `n` characters. */
  function DropLast(s: string, n: nat): (r: string)
    requires n > 0
    ensures |r| == if |s| <= n then 0 else |s| - n
    ensures IsPrefix(r, s)
  {
    if |s| <= n then "" else s[..|s| - n]
  }

  /** Python's `t in s` on strings, scanning the start positions from left to right. */
  predicate Contains(s: string, t: string)
    decreases |s|
  {
    IsPrefix(t, s) || (s != [] && Contains(s[1..], t))
  }

  /** `t` occurs in `s` starting at position `i`. */
  predicate OccursAt(s: string, t: string, i: int) {
    0 <= i <= |s| - |t| && s[i..i + |t|] == t
  }

  /** `Contains` is exactly "`t` occurs in `s` at some position". */
  lemma {:induction false} ContainsIff(s: string, t: string)
    ensures Contains(s, t) <==> exists i :: OccursAt(s, t, i)
    decreases |s|
  {
    if IsPrefix(t, s) {
      assert OccursAt(s, t, 0);
    } else if s == [] {
    } else {
      ContainsIff(s[1..], t);
      if Contains(s[1..], t) {
        var i :| OccursAt(s[1..], t, i);
        assert s[i + 1..i + 1 + |t|] == s[1..][i..i + |t|];
        assert OccursAt(s, t, i + 1);
      } else {
        forall i | 0 <= i <= |s| - |t|
          ensures !OccursAt(s, t, i)
        {
          NoOccurrenceAt(s, t, i);
        }
      }
    }
  }

  /** With no occurrence in the tail and none at the start, there is none at `i`. */
  lemma NoOccurrenceAt(s: string, t: string, i: int)
    requires s != [] && !IsPrefix(t, s) && !exists j :: OccursAt(s[1..], t, j)
    requires 0 <= i <= |s| - |t|
    ensures !OccursAt(s, t, i)
  {
    if i > 0 {
      TailSlice(s, i, |t|);
      assert !OccursAt(s[1..], t, i - 1);
    } else {
      assert s[..|t|] == s[0..0 + |t|];
    }
  }

  /** A slice of the tail, shifted by one, is the same slice of `s`. */
  lemma TailSlice(s: string, i: int, n: int)
    requires 0 < i && 0 <= n && i + n <= |s|
    ensures s[1..][i - 1..i - 1 + n] == s[i..i + n]
  {
  }

  /** The length of the longest run of digits that ends `s` (what a greedy `\d+` before a fixed tail takes). */
  function TrailingDigits(s: string): (k: nat)
    ensures k <= |s|
    ensures AllDigits(s[|s| - k..])
    ensures k < |s| ==> !IsDigit(s[|s| - k - 1])
    decreases |s|
  {
    if s != [] && IsDigit(s[|s| - 1]) then
      var k' := TrailingDigits(s[..|s| - 1]);
      assert s[..|s| - 1][|s| - 1 - k'..] + [s[|s| - 1]] == s[|s| - 1 - k'..];
      k' + 1
    else 0
  }

  /** A digit run that follows a non-digit is exactly the trailing run. */
  lemma {:induction false} TrailingDigitsAfter(p: string, c: char, a: string)
    requires !IsDigit(c) && AllDigits(a)
    ensures TrailingDigits(p + [c] + a) == |a|
    decreases |a|
  {
    var s := p + [c] + a;
    if a == [] {
      assert s[|s| - 1] == c;
    } else {
      var a' := a[..|a| - 1];
      assert s[..|s| - 1] == p + [c] + a';
      assert IsDigit(s[|s| - 1]);
      TrailingDigitsAfter(p, c, a');
    }
  }
}
