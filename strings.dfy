/**
 * The two .NET string operations the core relies on, with ordinal
 * (character by character) comparison: `string.Contains(string)` and
 * `string.Replace(string, string)`.
 */
module Strings {

  /** `s.Contains(p)`: p occurs in s at some position (the empty string occurs everywhere). */
  predicate Contains(s: string, p: string) {
    exists i :: 0 <= i <= |s| - |p| && OccursAt(s, p, i)
  }

  predicate OccursAt(s: string, p: string, i: int) {
    0 <= i && i + |p| <= |s| && s[i..i + |p|] == p
  }

  /**
   * `s.Replace(oldValue, newValue)`: scanning left to right, every occurrence of oldValue that
   * does not overlap an earlier replaced one becomes newValue; the text put in is
   * not scanned again. .NET throws on an empty oldValue, hence the precondition.
   */
  function Replace(s: string, oldValue: string, newValue: string): (r: string)
    requires oldValue != []
    decreases |s|
  {
    if |s| < |oldValue| then s
    else if s[..|oldValue|] == oldValue then newValue + Replace(s[|oldValue|..], oldValue, newValue)
    else [s[0]] + Replace(s[1..], oldValue, newValue)
  }

  lemma ContainsHead(s: string, p: string)
    requires |p| <= |s| && s[..|p|] == p
    ensures Contains(s, p)
  {
    assert OccursAt(s, p, 0);
  }

  lemma ContainsTail(s: string, p: string)
    requires s != [] && Contains(s[1..], p)
    ensures Contains(s, p)
  {
    var i :| 0 <= i <= |s[1..]| - |p| && OccursAt(s[1..], p, i);
    assert s[i + 1..i + 1 + |p|] == s[1..][i..i + |p|];
    assert OccursAt(s, p, i + 1);
  }

  /** A string that does not contain oldValue is left as it is. */
  lemma {:induction false} ReplaceAbsent(s: string, oldValue: string, newValue: string)
    requires oldValue != [] && !Contains(s, oldValue)
    ensures Replace(s, oldValue, newValue) == s
  {
    if |s| >= |oldValue| {
      if s[..|oldValue|] == oldValue {
        ContainsHead(s, oldValue);
      } else {
        if Contains(s[1..], oldValue) {
          ContainsTail(s, oldValue);
        }
        ReplaceAbsent(s[1..], oldValue, newValue);
        assert s == [s[0]] + s[1..];
      }
    }
  }

  /** Replacing oldValue by itself changes nothing. */
  lemma {:induction false} ReplaceSame(s: string, oldValue: string)
    requires oldValue != []
    ensures Replace(s, oldValue, oldValue) == s
  {
    if |s| >= |oldValue| {
      if s[..|oldValue|] == oldValue {
        ReplaceSame(s[|oldValue|..], oldValue);
        assert s == s[..|oldValue|] + s[|oldValue|..];
      } else {
        ReplaceSame(s[1..], oldValue);
        assert s == [s[0]] + s[1..];
      }
    }
  }

  /** oldValue itself becomes newValue. */
  lemma ReplaceWhole(oldValue: string, newValue: string)
    requires oldValue != []
    ensures Replace(oldValue, oldValue, newValue) == newValue
  {
    assert oldValue[..|oldValue|] == oldValue;
    assert Replace(oldValue[|oldValue|..], oldValue, newValue) == [];
    assert newValue + [] == newValue;
  }

  /**
   * No occurrence of oldValue can run from a into b: either no occurrence can
   * start inside a (oldValue starts with a character a lacks), or the first
   * character of b is not in oldValue at all.
   */
  predicate Seam(a: string, b: string, oldValue: string) {
    oldValue != [] && ((oldValue[0] !in a) || (b != [] && b[0] !in oldValue))
  }

  /** At a seam, Replace works on the two parts separately. */
  lemma {:induction false} ReplaceConcat(a: string, b: string, oldValue: string, newValue: string)
    requires Seam(a, b, oldValue)
    ensures Replace(a + b, oldValue, newValue) == Replace(a, oldValue, newValue) + Replace(b, oldValue, newValue)
    decreases |a|
  {
    if a == [] {
      assert a + b == b;
    } else if |a + b| < |oldValue| {
      assert Replace(a, oldValue, newValue) == a && Replace(b, oldValue, newValue) == b;
    } else if (a + b)[..|oldValue|] == oldValue {
      NoCrossing(a, b, oldValue);
      assert (a + b)[|oldValue|..] == a[|oldValue|..] + b;
      assert Seam(a[|oldValue|..], b, oldValue);
      ReplaceConcat(a[|oldValue|..], b, oldValue, newValue);
    } else {
      assert (a + b)[1..] == a[1..] + b;
      assert Seam(a[1..], b, oldValue);
      ReplaceConcat(a[1..], b, oldValue, newValue);
      if |a| < |oldValue| {
        ShortUnchanged(a[1..], oldValue, newValue);
      } else {
        assert a[..|oldValue|] == (a + b)[..|oldValue|];
      }
    }
  }

  lemma ShortUnchanged(s: string, oldValue: string, newValue: string)
    requires oldValue != [] && |s| < |oldValue|
    ensures Replace(s, oldValue, newValue) == s
  {
  }

  /** A match at the start of a + b lies inside a. */
  lemma NoCrossing(a: string, b: string, oldValue: string)
    requires Seam(a, b, oldValue) && a != [] && |oldValue| <= |a + b| && (a + b)[..|oldValue|] == oldValue
    ensures |oldValue| <= |a| && a[..|oldValue|] == oldValue
  {
    assert forall k :: 0 <= k < |oldValue| ==> oldValue[k] == (a + b)[k];
    assert oldValue[0] == a[0];
    assert b != [] ==> (a + b)[|a|] == b[0];
    assert |oldValue| <= |a|;
    assert a[..|oldValue|] == (a + b)[..|oldValue|];
  }
}
