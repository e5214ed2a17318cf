/** Small worked cases of the catalog operations. */
module Scenarios {
  import opened Books
  import opened Strings
  import opened Sorting
  import opened Catalog

  /** Codes are compared as text, not as numbers: "100" sorts before "30", and "30"
      before "5". */
  lemma CodesSortAsText(b30: Book, b5: Book, b100: Book)
    requires b30.code == "30" && b5.code == "5" && b100.code == "100"
    ensures StableSorted(1, [b30, b5, b100]) == [b100, b30, b5]
  {
    assert CompareTo("5", "30") > 0;
    assert CompareTo("100", "30") < 0;
    assert CompareTo("100", "5") < 0;
    assert [b30, b5, b100][..2] == [b30, b5];
    assert [b30, b5][..1] == [b30];
    assert [b30][..0] == [];
    assert StableSorted(1, [b30]) == [b30];
    assert StableSorted(1, [b30, b5]) == Insert(1, b5, [b30]) == [b30, b5];
    assert Insert(1, b100, [b30, b5]) == [b100, b30, b5];
  }

  /** Books with equal titles keep the order they had before sorting by title. */
  lemma EqualTitlesKeepOrder(first: Book, second: Book)
    requires first.title == second.title
    ensures StableSorted(2, [first, second]) == [first, second]
  {
    CompareToZero(first.title, second.title);
    assert [first, second][..1] == [first];
    assert [first][..0] == [];
    assert StableSorted(2, [first]) == [first];
    assert Insert(2, second, [first]) == [first, second];
  }

  /** Deleting a code removes every book carrying it, not only the first. */
  lemma DeleteRemovesEveryCopy(a1: Book, b: Book, a2: Book)
    requires a1.code == "A" && a2.code == "A" && b.code == "B"
    ensures WithoutCode([a1, b, a2], "A") == [b]
  {
    WithoutCodeAppend([a1], [b, a2], "A");
    WithoutCodeAppend([b], [a2], "A");
    assert [a1, b, a2] == [a1] + ([b] + [a2]);
    assert [a1][1..] == [] && [b][1..] == [] && [a2][1..] == [];
    assert WithoutCode([a1], "A") == [] && WithoutCode([a2], "A") == [];
    assert WithoutCode([b], "A") == [b];
  }
}
