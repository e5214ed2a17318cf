/** The sort of ordenarLibros: its comparator and the stable sort the catalog undergoes. */
module Sorting {
  import opened Books
  import opened Strings
  import opened Seqs

  /** The key a criterion selects: 1 the code, 2 the title, 3 the author; any other
      criterion gives every book the same key. */
  function SortKey(criterion: int, b: Book): string
  {
    if criterion == 1 then b.code
    else if criterion == 2 then b.title
    else if criterion == 3 then b.author
    else ""
  }

  /** The comparator passed to `List.sort`. Its result orders the books by the
      criterion's key, and is 0 for every pair when the criterion is not 1, 2 or 3.
      `SortKey` is the same case split seen as a key; `ComparatorByKey` relates the two. */
  function Comparator(criterion: int, b1: Book, b2: Book): int
  {
    match criterion
    case 1 => CompareTo(b1.code, b2.code)
    case 2 => CompareTo(b1.title, b2.title)
    case 3 => CompareTo(b1.author, b2.author)
    case _ => 0
  }

  /** The comparator orders the books by the criterion's key, and calls all books equal
      when the criterion is not 1, 2 or 3. */
  lemma ComparatorByKey(criterion: int, b1: Book, b2: Book)
    ensures Comparator(criterion, b1, b2) == CompareTo(SortKey(criterion, b1), SortKey(criterion, b2))
    ensures criterion !in {1, 2, 3} ==> Comparator(criterion, b1, b2) == 0
  {
  }

  /** The comparator calls two books equal exactly when they share the criterion's key. */
  lemma ComparatorZero(criterion: int, b1: Book, b2: Book)
    ensures Comparator(criterion, b1, b2) == 0 <==> SortKey(criterion, b1) == SortKey(criterion, b2)
  {
    ComparatorByKey(criterion, b1, b2);
    CompareToZero(SortKey(criterion, b1), SortKey(criterion, b2));
  }

  lemma ComparatorAntisymmetric(criterion: int, b1: Book, b2: Book)
    ensures Comparator(criterion, b1, b2) == -Comparator(criterion, b2, b1)
  {
    ComparatorByKey(criterion, b1, b2);
    CompareToAntisymmetric(SortKey(criterion, b1), SortKey(criterion, b2));
  }

  lemma ComparatorTransitive(criterion: int, b1: Book, b2: Book, b3: Book)
    requires Comparator(criterion, b1, b2) <= 0 && Comparator(criterion, b2, b3) <= 0
    ensures Comparator(criterion, b1, b3) <= 0
    ensures Comparator(criterion, b1, b2) < 0 || Comparator(criterion, b2, b3) < 0 ==>
      Comparator(criterion, b1, b3) < 0
  {
    ComparatorByKey(criterion, b1, b2);
    ComparatorByKey(criterion, b2, b3);
    ComparatorByKey(criterion, b1, b3);
    CompareToTransitive(SortKey(criterion, b1), SortKey(criterion, b2), SortKey(criterion, b3));
  }

  /** Non-decreasing under the comparator. */
  ghost predicate SortedBy(criterion: int, s: seq<Book>)
  {
    forall i, j :: 0 <= i < j < |s| ==> Comparator(criterion, s[i], s[j]) <= 0
  }

  function HasKey(criterion: int, k: string): Book -> bool
  {
    (b: Book) => SortKey(criterion, b) == k
  }

  /** The books of s whose key is k, in their order in s. */
  function WithKey(criterion: int, k: string, s: seq<Book>): seq<Book>
  {
    Filter(HasKey(criterion, k), s)
  }

  /** Stability: the books sharing any one key appear in `after` in the order they had in `before`. */
  ghost predicate StableFor(criterion: int, before: seq<Book>, after: seq<Book>)
  {
    forall k :: WithKey(criterion, k, after) == WithKey(criterion, k, before)
  }

  /** Inserts x into s after every book the comparator does not put after x. */
  function Insert(criterion: int, x: Book, s: seq<Book>): seq<Book>
  {
    if s == [] then [x]
    else if Comparator(criterion, x, s[0]) < 0 then [x] + s
    else [s[0]] + Insert(criterion, x, s[1..])
  }

  /** The stable sort of s by the criterion, as insertion of each book in turn. */
  function StableSorted(criterion: int, s: seq<Book>): seq<Book>
  {
    if s == [] then []
    else Insert(criterion, s[|s| - 1], StableSorted(criterion, s[..|s| - 1]))
  }

  lemma {:induction false} InsertPermutes(criterion: int, x: Book, s: seq<Book>)
    ensures multiset(Insert(criterion, x, s)) == multiset(s) + multiset{x}
  {
    if s != [] && Comparator(criterion, x, s[0]) >= 0 {
      InsertPermutes(criterion, x, s[1..]);
      assert s == [s[0]] + s[1..];
    }
  }

  lemma {:induction false} InsertSorted(criterion: int, x: Book, s: seq<Book>)
    requires SortedBy(criterion, s)
    ensures SortedBy(criterion, Insert(criterion, x, s))
  {
    if s == [] {
    } else if Comparator(criterion, x, s[0]) < 0 {
      forall j | 0 < j < |s| ensures Comparator(criterion, x, s[j]) <= 0 {
        ComparatorTransitive(criterion, x, s[0], s[j]);
      }
    } else {
      var rest := Insert(criterion, x, s[1..]);
      InsertSorted(criterion, x, s[1..]);
      InsertPermutes(criterion, x, s[1..]);
      ComparatorAntisymmetric(criterion, x, s[0]);
      forall j | 0 <= j < |rest| ensures Comparator(criterion, s[0], rest[j]) <= 0 {
        assert rest[j] in multiset(rest);
        if rest[j] != x {
          assert rest[j] in s[1..];
        }
      }
    }
  }

  lemma WithKeyAppend(criterion: int, k: string, a: seq<Book>, b: seq<Book>)
    ensures WithKey(criterion, k, a + b) == WithKey(criterion, k, a) + WithKey(criterion, k, b)
  {
    FilterAppend(HasKey(criterion, k), a, b);
  }

  lemma WithKeyFirst(criterion: int, k: string, s: seq<Book>)
    requires s != []
    ensures WithKey(criterion, k, s) ==
      (if SortKey(criterion, s[0]) == k then [s[0]] else []) + WithKey(criterion, k, s[1..])
  {
  }

  /** A book whose key sorts strictly before every key of a sorted s shares its key with no book of s. */
  lemma {:induction false} SmallerKeyAbsent(criterion: int, x: Book, s: seq<Book>)
    requires SortedBy(criterion, s)
    requires s != [] && Comparator(criterion, x, s[0]) < 0
    ensures WithKey(criterion, SortKey(criterion, x), s) == []
  {
    if |s| > 1 {
      ComparatorTransitive(criterion, x, s[0], s[1]);
      SmallerKeyAbsent(criterion, x, s[1..]);
    }
    ComparatorZero(criterion, x, s[0]);
    WithKeyFirst(criterion, SortKey(criterion, x), s);
  }

  lemma {:induction false} InsertStable(criterion: int, k: string, x: Book, s: seq<Book>)
    requires SortedBy(criterion, s)
    ensures WithKey(criterion, k, Insert(criterion, x, s)) ==
      WithKey(criterion, k, s) + (if SortKey(criterion, x) == k then [x] else [])
  {
    var tail := if SortKey(criterion, x) == k then [x] else [];
    if s == [] {
      assert Insert(criterion, x, s) == [x];
      WithKeyFirst(criterion, k, [x]);
    } else if Comparator(criterion, x, s[0]) < 0 {
      assert Insert(criterion, x, s) == [x] + s;
      assert WithKey(criterion, k, [x] + s) == tail + WithKey(criterion, k, s) by {
        assert ([x] + s)[0] == x && ([x] + s)[1..] == s;
        WithKeyFirst(criterion, k, [x] + s);
      }
      if SortKey(criterion, x) == k {
        SmallerKeyAbsent(criterion, x, s);
      }
    } else {
      var rest := Insert(criterion, x, s[1..]);
      var head := if SortKey(criterion, s[0]) == k then [s[0]] else [];
      assert Insert(criterion, x, s) == [s[0]] + rest;
      assert WithKey(criterion, k, rest) == WithKey(criterion, k, s[1..]) + tail by {
        SortedTail(criterion, s);
        InsertStable(criterion, k, x, s[1..]);
      }
      assert WithKey(criterion, k, [s[0]] + rest) == head + WithKey(criterion, k, rest) by {
        assert ([s[0]] + rest)[0] == s[0] && ([s[0]] + rest)[1..] == rest;
        WithKeyFirst(criterion, k, [s[0]] + rest);
      }
      assert WithKey(criterion, k, s) == head + WithKey(criterion, k, s[1..]) by {
        WithKeyFirst(criterion, k, s);
      }
      assert head + (WithKey(criterion, k, s[1..]) + tail) == (head + WithKey(criterion, k, s[1..])) + tail;
    }
  }

  /** The stable sort is ordered by the comparator, a permutation of its input, and stable. */
  lemma {:induction false} StableSortedCorrect(criterion: int, s: seq<Book>)
    ensures SortedBy(criterion, StableSorted(criterion, s))
    ensures multiset(StableSorted(criterion, s)) == multiset(s)
    ensures StableFor(criterion, s, StableSorted(criterion, s))
  {
    if s != [] {
      var init, x := s[..|s| - 1], s[|s| - 1];
      assert s == init + [x];
      StableSortedCorrect(criterion, init);
      InsertSorted(criterion, x, StableSorted(criterion, init));
      InsertPermutes(criterion, x, StableSorted(criterion, init));
      forall k ensures WithKey(criterion, k, StableSorted(criterion, s)) == WithKey(criterion, k, s) {
        InsertStable(criterion, k, x, StableSorted(criterion, init));
        WithKeyAppend(criterion, k, init, [x]);
        WithKeyFirst(criterion, k, [x]);
      }
    }
  }

  /** With a criterion other than 1, 2 or 3 the comparator never separates two books,
      so each one is inserted at the end and the order is left as it was. */
  lemma {:induction false} UnknownCriterionKeepsOrder(criterion: int, s: seq<Book>)
    requires criterion !in {1, 2, 3}
    ensures StableSorted(criterion, s) == s
  {
    if s != [] {
      UnknownCriterionKeepsOrder(criterion, s[..|s| - 1]);
      InsertAtEnd(criterion, s[|s| - 1], s[..|s| - 1]);
      assert s == s[..|s| - 1] + [s[|s| - 1]];
    }
  }

  lemma {:induction false} InsertAtEnd(criterion: int, x: Book, s: seq<Book>)
    requires criterion !in {1, 2, 3}
    ensures Insert(criterion, x, s) == s + [x]
  {
    if s != [] {
      InsertAtEnd(criterion, x, s[1..]);
      assert s == [s[0]] + s[1..];
    }
  }

  /** Where the insertion lands: after the first j books of a sorted s, when the
      comparator puts every later book after x and no earlier one. */
  lemma {:induction false} InsertAt(criterion: int, x: Book, s: seq<Book>, j: nat)
    requires SortedBy(criterion, s)
    requires j <= |s|
    requires forall m :: j <= m < |s| ==> Comparator(criterion, s[m], x) > 0
    requires j == 0 || Comparator(criterion, s[j - 1], x) <= 0
    ensures Insert(criterion, x, s) == s[..j] + [x] + s[j..]
  {
    if j == 0 {
      if s != [] {
        assert Comparator(criterion, x, s[0]) < 0 by {
          ComparatorAntisymmetric(criterion, s[0], x);
        }
      }
    } else {
      var t := s[1..];
      assert Comparator(criterion, x, s[0]) >= 0 by {
        if j > 1 {
          ComparatorTransitive(criterion, s[0], s[j - 1], x);
        }
        ComparatorAntisymmetric(criterion, s[0], x);
      }
      assert SortedBy(criterion, t) by {
        SortedTail(criterion, s);
      }
      assert forall m :: j - 1 <= m < |t| ==> Comparator(criterion, t[m], x) > 0 by {
        forall m | j - 1 <= m < |t| ensures Comparator(criterion, t[m], x) > 0 {
          assert t[m] == s[m + 1];
        }
      }
      assert j - 1 == 0 || Comparator(criterion, t[j - 2], x) <= 0 by {
        if j > 1 {
          assert t[j - 2] == s[j - 1];
        }
      }
      InsertAt(criterion, x, t, j - 1);
      SplitAfterHead(s, x, j);
    }
  }

  lemma SplitAfterHead<T>(s: seq<T>, x: T, j: nat)
    requires 0 < j <= |s|
    ensures [s[0]] + (s[1..][..j - 1] + [x] + s[1..][j - 1..]) == s[..j] + [x] + s[j..]
  {
    assert s[..j] == [s[0]] + s[1..][..j - 1];
    assert s[j..] == s[1..][j - 1..];
  }

  /** Two sorted sequences with the same books under every key, in the same order, are equal:
      sortedness and stability leave no freedom. */
  lemma {:induction false} SortedStableDetermined(criterion: int, r1: seq<Book>, r2: seq<Book>)
    requires SortedBy(criterion, r1) && SortedBy(criterion, r2)
    requires forall k :: WithKey(criterion, k, r1) == WithKey(criterion, k, r2)
    ensures r1 == r2
    decreases |r1| + |r2|
  {
    if r1 == [] && r2 == [] {
    } else if r1 == [] {
      WithOwnKey(criterion, r2);
      assert false;
    } else if r2 == [] {
      WithOwnKey(criterion, r1);
      assert false;
    } else {
      var k1, k2 := SortKey(criterion, r1[0]), SortKey(criterion, r2[0]);
      FirstKeyLeast(criterion, r1, k2, WithKey(criterion, k2, r2));
      FirstKeyLeast(criterion, r2, k1, WithKey(criterion, k1, r1));
      CompareToAntisymmetric(k1, k2);
      CompareToZero(k1, k2);
      assert r1[0] == r2[0] by {
        assert WithKey(criterion, k1, r1)[0] == r1[0];
        assert WithKey(criterion, k1, r2)[0] == r2[0];
      }
      forall k ensures WithKey(criterion, k, r1[1..]) == WithKey(criterion, k, r2[1..]) {
        var head := if SortKey(criterion, r1[0]) == k then [r1[0]] else [];
        assert WithKey(criterion, k, r1) == head + WithKey(criterion, k, r1[1..]);
        assert WithKey(criterion, k, r2) == head + WithKey(criterion, k, r2[1..]);
        assert WithKey(criterion, k, r1[1..]) == WithKey(criterion, k, r1)[|head|..];
        assert WithKey(criterion, k, r2[1..]) == WithKey(criterion, k, r2)[|head|..];
      }
      SortedTail(criterion, r1);
      SortedTail(criterion, r2);
      SortedStableDetermined(criterion, r1[1..], r2[1..]);
      assert r1 == [r1[0]] + r1[1..] && r2 == [r2[0]] + r2[1..];
    }
  }

  lemma WithOwnKey(criterion: int, s: seq<Book>)
    requires s != []
    ensures WithKey(criterion, SortKey(criterion, s[0]), s) != []
  {
  }

  lemma SortedTail(criterion: int, s: seq<Book>)
    requires SortedBy(criterion, s) && s != []
    ensures SortedBy(criterion, s[1..])
  {
    forall i, j | 0 <= i < j < |s| - 1 ensures Comparator(criterion, s[1..][i], s[1..][j]) <= 0 {
      assert s[1..][i] == s[i + 1] && s[1..][j] == s[j + 1];
    }
  }

  /** In a sorted s, a key k that some book of s carries is not below the first book's key. */
  lemma {:induction false} FirstKeyLeast(criterion: int, s: seq<Book>, k: string, w: seq<Book>)
    requires SortedBy(criterion, s) && s != []
    requires w == WithKey(criterion, k, s) && w != []
    ensures CompareTo(SortKey(criterion, s[0]), k) <= 0
  {
    if SortKey(criterion, s[0]) == k {
      CompareToZero(k, k);
    } else {
      assert w == WithKey(criterion, k, s[1..]);
      SortedTail(criterion, s);
      FirstKeyLeast(criterion, s[1..], k, w);
      assert Comparator(criterion, s[0], s[1]) <= 0;
      CompareToTransitive(SortKey(criterion, s[0]), SortKey(criterion, s[1]), k);
    }
  }

  /** Any stable arrangement of s ordered by the comparator is the stable sort of s. The
      library's sort algorithm therefore does not matter: every stable sort gives this result. */
  lemma StableSortUnique(criterion: int, s: seq<Book>, r: seq<Book>)
    requires SortedBy(criterion, r) && StableFor(criterion, s, r)
    ensures r == StableSorted(criterion, s)
  {
    StableSortedCorrect(criterion, s);
    SortedStableDetermined(criterion, r, StableSorted(criterion, s));
  }
}
