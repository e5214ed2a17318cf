/** Java's `String.compareTo`, the order the sort comparator uses. */
module Strings {

  /** Lexicographic comparison: the difference of the first pair of characters that
      differ, or, when one string is a prefix of the other, the difference of the lengths. */
  function CompareTo(s: string, t: string): int
  {
    if s == [] || t == [] then |s| - |t|
    else if s[0] != t[0] then s[0] as int - t[0] as int
    else CompareTo(s[1..], t[1..])
  }

  /** The textbook definition of "s comes strictly before t": at the first position where
      they part, either s has ended and t has not, or s has the smaller character. */
  ghost predicate LexLess(s: string, t: string)
  {
    exists k :: 0 <= k <= |s| && k <= |t| && s[..k] == t[..k] &&
      ((k == |s| && k < |t|) || (k < |s| && k < |t| && s[k] < t[k]))
  }

  /** `compareTo` is negative exactly when s comes lexicographically before t. */
  lemma CompareToNegative(s: string, t: string)
    ensures CompareTo(s, t) < 0 <==> LexLess(s, t)
  {
    if CompareTo(s, t) < 0 {
      NegativeIsLexLess(s, t);
    }
    if LexLess(s, t) {
      var k :| 0 <= k <= |s| && k <= |t| && s[..k] == t[..k] &&
        ((k == |s| && k < |t|) || (k < |s| && k < |t| && s[k] < t[k]));
      LexLessIsNegative(s, t, k);
    }
  }

  lemma {:induction false} NegativeIsLexLess(s: string, t: string)
    requires CompareTo(s, t) < 0
    ensures LexLess(s, t)
  {
    if s == [] || t == [] || s[0] != t[0] {
      assert s[..0] == t[..0];
    } else {
      NegativeIsLexLess(s[1..], t[1..]);
      var k :| 0 <= k <= |s[1..]| && k <= |t[1..]| && s[1..][..k] == t[1..][..k] &&
        ((k == |s[1..]| && k < |t[1..]|) || (k < |s[1..]| && k < |t[1..]| && s[1..][k] < t[1..][k]));
      assert s[..k + 1] == [s[0]] + s[1..][..k];
      assert t[..k + 1] == [t[0]] + t[1..][..k];
    }
  }

  lemma {:induction false} LexLessIsNegative(s: string, t: string, k: nat)
    requires k <= |s| && k <= |t| && s[..k] == t[..k]
    requires (k == |s| && k < |t|) || (k < |s| && k < |t| && s[k] < t[k])
    ensures CompareTo(s, t) < 0
  {
    if k > 0 {
      assert s[0] == s[..k][0] && t[0] == t[..k][0];
      assert s[1..][..k - 1] == s[..k][1..];
      assert t[1..][..k - 1] == t[..k][1..];
      LexLessIsNegative(s[1..], t[1..], k - 1);
    }
  }

  lemma {:induction false} CompareToAntisymmetric(s: string, t: string)
    ensures CompareTo(s, t) == -CompareTo(t, s)
  {
    if s != [] && t != [] && s[0] == t[0] {
      CompareToAntisymmetric(s[1..], t[1..]);
    }
  }

  lemma {:induction false} CompareToZero(s: string, t: string)
    ensures CompareTo(s, t) == 0 <==> s == t
  {
    if s != [] && t != [] && s[0] == t[0] {
      CompareToZero(s[1..], t[1..]);
      if s[1..] == t[1..] {
        assert s == [s[0]] + s[1..] && t == [t[0]] + t[1..];
      }
    }
  }

  lemma {:induction false} CompareToTransitive(a: string, b: string, c: string)
    requires CompareTo(a, b) <= 0 && CompareTo(b, c) <= 0
    ensures CompareTo(a, c) <= 0
    ensures CompareTo(a, b) < 0 || CompareTo(b, c) < 0 ==> CompareTo(a, c) < 0
  {
    if a != [] && b != [] && c != [] && a[0] == b[0] && b[0] == c[0] {
      CompareToTransitive(a[1..], b[1..], c[1..]);
    }
  }
}
