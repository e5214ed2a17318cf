/** Sequence filtering, the shape of `Collection.removeIf` and of "the books with one key". */
module Seqs {

  /** The elements of s that satisfy keep, in their order in s. */
  function Filter<T>(keep: T -> bool, s: seq<T>): seq<T>
  {
    if s == [] then []
    else if keep(s[0]) then [s[0]] + Filter(keep, s[1..])
    else Filter(keep, s[1..])
  }

  /** Filtering works element by element, so it distributes over concatenation. */
  lemma {:induction false} FilterAppend<T>(keep: T -> bool, a: seq<T>, b: seq<T>)
    ensures Filter(keep, a + b) == Filter(keep, a) + Filter(keep, b)
  {
    if a == [] {
      assert a + b == b;
    } else {
      FilterAppend(keep, a[1..], b);
      assert (a + b)[0] == a[0] && (a + b)[1..] == a[1..] + b;
    }
  }

  /** Each kept element occurs as often as in s; no other element occurs. */
  lemma {:induction false} FilterCount<T>(keep: T -> bool, s: seq<T>, x: T)
    ensures multiset(Filter(keep, s))[x] == if keep(x) then multiset(s)[x] else 0
  {
    if s != [] {
      FilterCount(keep, s[1..], x);
      assert s == [s[0]] + s[1..];
    }
  }

  lemma {:induction false} FilterShorter<T>(keep: T -> bool, s: seq<T>)
    ensures |Filter(keep, s)| <= |s|
  {
    if s != [] {
      FilterShorter(keep, s[1..]);
    }
  }

  /** Filtering leaves s as it is exactly when every element is kept. */
  lemma {:induction false} FilterUnchanged<T>(keep: T -> bool, s: seq<T>)
    ensures Filter(keep, s) == s <==> forall i :: 0 <= i < |s| ==> keep(s[i])
  {
    if s != [] {
      FilterUnchanged(keep, s[1..]);
      if !keep(s[0]) {
        FilterShorter(keep, s[1..]);
      } else {
        assert s == [s[0]] + s[1..];
        if Filter(keep, s) == s {
          assert Filter(keep, s[1..]) == Filter(keep, s)[1..];
        }
        forall i | 0 < i < |s| && keep(s[1..][i - 1]) ensures keep(s[i]) {
        }
      }
    }
  }

  /** Every element of the filtered sequence is kept. */
  lemma {:induction false} FilterKept<T>(keep: T -> bool, s: seq<T>)
    ensures forall i :: 0 <= i < |Filter(keep, s)| ==> keep(Filter(keep, s)[i])
  {
    if s != [] {
      FilterKept(keep, s[1..]);
    }
  }
}
