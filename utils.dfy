/**
 * Stand-ins for the two integer helpers of youtube-dl's utility module that the extractors call:
 * `int_or_none` on a captured string and `str_to_int` on a captured count.
 */
module Utils {
  import opened Wrappers
  import opened Text

  /** `int_or_none(s)` for a captured string: `None` for the empty string or anything that is not a decimal. */
  function IntOrNone(s: string): (r: Option<nat>)
    ensures r.Some? <==> s != "" && AllDigits(s)
    ensures r.Some? ==> r.value == DecimalValue(s)
  {
    if s != "" && AllDigits(s) then Some(DecimalValue(s)) else None
  }

  predicate IsSeparator(c: char) {
    c == ',' || c == '.'
  }

  /** `s` with every thousands separator (`,` or `.`) deleted. */
  function DeleteSeparators(s: string): (r: string)
    ensures |r| <= |s|
    ensures forall i :: 0 <= i < |r| ==> !IsSeparator(r[i])
    decreases |s|
  {
    if s == [] then ""
    else if IsSeparator(s[0]) then DeleteSeparators(s[1..])
    else [s[0]] + DeleteSeparators(s[1..])
  }

  /** Deleting separators works piece by piece, so a separator between two parts simply disappears. */
  lemma {:induction false} DeleteSeparatorsAppend(a: string, b: string)
    ensures DeleteSeparators(a + b) == DeleteSeparators(a) + DeleteSeparators(b)
    decreases |a|
  {
    if a != [] {
      assert (a + b)[1..] == a[1..] + b;
      DeleteSeparatorsAppend(a[1..], b);
    } else {
      assert a + b == b;
    }
  }

  /** `str_to_int` on an optional capture: separators deleted, then the remaining digits read as a decimal. */
  function StrToInt(s: Option<string>): (r: Option<nat>)
    ensures s.None? ==> r.None?
    ensures s.Some? ==> r == IntOrNone(DeleteSeparators(s.value))
  {
    match s
    case None => None
    case Some(t) => IntOrNone(DeleteSeparators(t))
  }

  /** A count written with a thousands separator reads as the number without it. */
  lemma StrToIntSeparated(a: string, b: string, sep: char)
    requires IsSeparator(sep)
    ensures StrToInt(Some(a + [sep] + b)) == StrToInt(Some(a + b))
  {
    DeleteSeparatorsAppend(a + [sep], b);
    DeleteSeparatorsAppend(a, [sep]);
    DeleteSeparatorsAppend(a, b);
    assert DeleteSeparators([sep]) == "" by {
      assert [sep][1..] == [];
    }
    assert DeleteSeparators(a + [sep] + b) == DeleteSeparators(a + b);
  }
}
