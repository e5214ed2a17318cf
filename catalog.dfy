/** The in-memory catalog of BibliotecaJSON (the static list `biblioteca`) and its operations. */
module Catalog {
  import opened Books
  import opened Sorting
  import opened Codec
  import opened Seqs

  /** The index of the first book with the given code, in catalog order. */
  function FirstWithCode(s: seq<Book>, code: string): (r: Option<nat>)
    ensures r.None? <==> forall j :: 0 <= j < |s| ==> s[j].code != code
    ensures r.Some? ==> r.value < |s| && s[r.value].code == code
    ensures r.Some? ==> forall j :: 0 <= j < r.value ==> s[j].code != code
  {
    if s == [] then None
    else if s[0].code == code then Some(0)
    else
      match FirstWithCode(s[1..], code)
      case None => None
      case Some(i) => Some(i + 1)
  }

  /** A book with the fields actualizarLibro overwrites replaced; the code stays. */
  function Revised(b: Book, title: string, author: string, subject: string, pages: Int32): Book
  {
    b.(title := title, author := author, subject := subject, pages := pages)
  }

  /** The catalog after actualizarLibro: the scan stops at the first book with the code. */
  function UpdateFirst(s: seq<Book>, code: string, title: string, author: string, subject: string,
                       pages: Int32): (r: seq<Book>)
    ensures |r| == |s|
    ensures forall j :: 0 <= j < |s| ==> r[j].code == s[j].code
  {
    if s == [] then []
    else if s[0].code == code then [Revised(s[0], title, author, subject, pages)] + s[1..]
    else [s[0]] + UpdateFirst(s[1..], code, title, author, subject, pages)
  }

  /** Only the first book with the code changes, and only in the four revised fields;
      with no such book nothing changes. */
  lemma {:induction false} UpdateFirstChangesFirstMatch(s: seq<Book>, code: string, title: string,
                                                       author: string, subject: string, pages: Int32)
    ensures UpdateFirst(s, code, title, author, subject, pages) ==
      match FirstWithCode(s, code)
      case None => s
      case Some(i) => s[i := Revised(s[i], title, author, subject, pages)]
  {
    if s != [] && s[0].code != code {
      UpdateFirstChangesFirstMatch(s[1..], code, title, author, subject, pages);
      assert s == [s[0]] + s[1..];
    }
  }

  /** The books that `removeIf(libro -> libro.codigo.equals(codigo))` keeps. */
  function OtherCode(code: string): Book -> bool
  {
    (b: Book) => b.code != code
  }

  /** The catalog after eliminarLibro. */
  function WithoutCode(s: seq<Book>, code: string): seq<Book>
  {
    Filter(OtherCode(code), s)
  }

  /** No book with the code survives. */
  lemma WithoutCodeNoneLeft(s: seq<Book>, code: string)
    ensures forall j :: 0 <= j < |WithoutCode(s, code)| ==> WithoutCode(s, code)[j].code != code
  {
    FilterKept(OtherCode(code), s);
  }

  /** Every book with another code survives, as many times as it occurred; none with the code does. */
  lemma WithoutCodeKeepsOthers(s: seq<Book>, code: string, b: Book)
    ensures multiset(WithoutCode(s, code))[b] == if b.code == code then 0 else multiset(s)[b]
  {
    FilterCount(OtherCode(code), s, b);
  }

  /** Removal works book by book, independently of position, so the survivors keep their order. */
  lemma WithoutCodeAppend(a: seq<Book>, b: seq<Book>, code: string)
    ensures WithoutCode(a + b, code) == WithoutCode(a, code) + WithoutCode(b, code)
  {
    FilterAppend(OtherCode(code), a, b);
  }

  /** The catalog is left as it was exactly when no book has the code. */
  lemma WithoutCodeUnchanged(s: seq<Book>, code: string)
    ensures WithoutCode(s, code) == s <==> forall j :: 0 <= j < |s| ==> s[j].code != code
  {
    FilterUnchanged(OtherCode(code), s);
  }

  /** What mostrarTodosLosLibros shows: the empty notice, or every book in catalog order. */
  datatype Listing = NoBooks | Entries(items: seq<Book>)

  class Library {
    /** The books, in catalog order. */
    var books: seq<Book>

    constructor ()
      ensures books == []
    {
      books := [];
    }

    /** registrarLibro: appends the book; a code already present is accepted. */
    method Register(code: string, title: string, author: string, subject: string, pages: Int32)
      modifies this
      ensures books == old(books) + [Book(code, title, author, subject, pages)]
    {
      books := books + [Book(code, title, author, subject, pages)];
    }

    /** actualizarLibro: revises the first book with the code; reports whether there was one. */
    method Update(code: string, title: string, author: string, subject: string, pages: Int32)
      returns (found: bool)
      modifies this
      ensures found <==> exists j :: 0 <= j < |old(books)| && old(books)[j].code == code
      ensures books == UpdateFirst(old(books), code, title, author, subject, pages)
    {
      UpdateFirstChangesFirstMatch(books, code, title, author, subject, pages);
      var i := 0;
      while i < |books|
        invariant 0 <= i <= |books|
        invariant books == old(books)
        invariant forall j :: 0 <= j < i ==> books[j].code != code
      {
        if books[i].code == code {
          assert FirstWithCode(books, code) == Some(i);
          books := books[i := Revised(books[i], title, author, subject, pages)];
          return true;
        }
        i := i + 1;
      }
      return false;
    }

    /** eliminarLibro: removes every book with the code; succeeds whether or not there was one. */
    method Delete(code: string)
      modifies this
      ensures books == WithoutCode(old(books), code)
    {
      books := WithoutCode(books, code);
    }

    /** buscarLibro: the first book with the code, in catalog order. */
    method Find(code: string) returns (r: Option<Book>)
      ensures r.None? <==> forall j :: 0 <= j < |books| ==> books[j].code != code
      ensures r.Some? ==> r.value.code == code
      ensures r.Some? ==> exists i :: 0 <= i < |books| && books[i] == r.value &&
                                    forall j :: 0 <= j < i ==> books[j].code != code
    {
      var i := 0;
      while i < |books|
        invariant 0 <= i <= |books|
        invariant forall j :: 0 <= j < i ==> books[j].code != code
      {
        if books[i].code == code {
          return Some(books[i]);
        }
        i := i + 1;
      }
      return None;
    }

    /** ordenarLibros: `List.sort` with the comparator, a stable sort done in place on the
        list's array. */
    method Sort(criterion: int)
      modifies this
      ensures books == StableSorted(criterion, old(books))
      ensures SortedBy(criterion, books) && multiset(books) == multiset(old(books))
      ensures StableFor(criterion, old(books), books)
    {
      var a := new Book[|books|](i requires 0 <= i < |books| reads this => books[i]);
      assert a[..] == books;
      InsertionSort(criterion, a);
      books := a[..];
      StableSortedCorrect(criterion, old(books));
    }

    /** mostrarTodosLosLibros. */
    method ShowAll() returns (out: Listing)
      ensures out == NoBooks <==> books == []
      ensures out.Entries? ==> out.items == books
    {
      if books == [] {
        return NoBooks;
      }
      var shown := [];
      for i := 0 to |books|
        invariant shown == books[..i]
      {
        shown := shown + [books[i]];
      }
      return Entries(shown);
    }

    /** guardarDatos: the array written to the file; it reads back as the catalog. */
    method Save() returns (doc: JVal)
      ensures doc == Encode(books)
      ensures Decode(doc) == Some(books)
    {
      var items := [];
      for i := 0 to |books|
        invariant |items| == i
        invariant forall j :: 0 <= j < i ==> items[j] == EncodeBook(books[j])
      {
        items := items + [EncodeBook(books[i])];
      }
      doc := JArr(items);
      RoundTrip(books);
    }

    /** cargarDatos: appends the books of the file, in array order, to the catalog. A missing
        file changes nothing; a malformed one stops the load at the first element that
        cannot be read, leaving the earlier ones appended. */
    method Load(file: StoredFile) returns (outcome: LoadOutcome)
      modifies this
      ensures file.Missing? ==> outcome == NoPriorData && books == old(books)
      ensures file.Malformed? ==> outcome == Aborted(Unparsable) && books == old(books)
      ensures file.Document? && !file.doc.JArr? ==> outcome == Aborted(NotAnArray) && books == old(books)
      ensures file.Document? && Decode(file.doc).Some? ==>
        outcome == Loaded && books == old(books) + Decode(file.doc).value
      ensures outcome == Loaded ==> file.Document? && Decode(file.doc).Some?
      ensures file.Document? && file.doc.JArr? && Decode(file.doc).None? ==>
        outcome.Aborted? && outcome.reason.BadRecord?
      ensures outcome.Aborted? && outcome.reason.BadRecord? ==>
        var k := outcome.reason.index;
        && file.Document? && file.doc.JArr? && k < |file.doc.items|
        && DecodeBook(file.doc.items[k]).None?
        && DecodeRecords(file.doc.items[..k]).Some?
        && books == old(books) + DecodeRecords(file.doc.items[..k]).value
    {
      match file
      case Missing =>
        return NoPriorData;
      case Malformed =>
        return Aborted(Unparsable);
      case Document(doc) =>
        if !doc.JArr? {
          return Aborted(NotAnArray);
        }
        var items := doc.items;
        var i := 0;
        while i < |items|
          invariant 0 <= i <= |items|
          invariant DecodeRecords(items[..i]).Some?
          invariant books == old(books) + DecodeRecords(items[..i]).value
        {
          var r := DecodeBook(items[i]);
          if r.None? {
            return Aborted(BadRecord(i));
          }
          assert items[..i + 1][..i] == items[..i];
          books := books + [r.value];
          i := i + 1;
        }
        assert items[..i] == items;
        return Loaded;
    }
  }

  /** Sorts the array in place, stably, by the comparator. */
  method InsertionSort(criterion: int, a: array<Book>)
    modifies a
    ensures a[..] == StableSorted(criterion, old(a[..]))
  {
    ghost var s := a[..];
    var i := 0;
    while i < a.Length
      invariant 0 <= i <= a.Length
      invariant a[..i] == StableSorted(criterion, s[..i])
      invariant forall m :: i <= m < a.Length ==> a[m] == s[m]
    {
      assert SortedBy(criterion, a[..i]) by {
        StableSortedCorrect(criterion, s[..i]);
      }
      InsertInPlace(criterion, a, i);
      assert StableSorted(criterion, s[..i + 1]) == Insert(criterion, s[i], StableSorted(criterion, s[..i])) by {
        assert s[..i + 1][..i] == s[..i];
      }
      i := i + 1;
    }
    assert s[..a.Length] == s;
  }

  /** One step of the insertion sort: moves a[i] left past the books of the sorted prefix
      a[..i] that the comparator puts after it. */
  method InsertInPlace(criterion: int, a: array<Book>, i: nat)
    requires i < a.Length
    modifies a
    ensures SortedBy(criterion, old(a[..i])) ==> a[..i + 1] == Insert(criterion, old(a[i]), old(a[..i]))
    ensures forall m :: i < m < a.Length ==> a[m] == old(a[m])
  {
    ghost var sorted := a[..i];
    var x := a[i];
    var j := FindSlot(criterion, a, i, x);
    ShiftRight(a, j, i);
    a[j] := x;
    if SortedBy(criterion, sorted) {
      ShiftedInsert(criterion, x, sorted, j, a[..]);
    }
  }

  /** Scans the prefix a[..i] leftwards from i while the comparator puts the book there after x. */
  method FindSlot(criterion: int, a: array<Book>, i: nat, x: Book) returns (j: nat)
    requires i <= a.Length
    ensures j <= i
    ensures forall m :: j <= m < i ==> Comparator(criterion, a[m], x) > 0
    ensures j == 0 || Comparator(criterion, a[j - 1], x) <= 0
  {
    j := i;
    while j > 0 && Comparator(criterion, a[j - 1], x) > 0
      invariant 0 <= j <= i
      invariant forall m :: j <= m < i ==> Comparator(criterion, a[m], x) > 0
    {
      j := j - 1;
    }
  }

  /** Moves a[j..i] one place to the right, over a[i]. */
  method ShiftRight(a: array<Book>, j: nat, i: nat)
    requires j <= i < a.Length
    modifies a
    ensures forall m :: 0 <= m <= j ==> a[m] == old(a[m])
    ensures forall m :: j < m <= i ==> a[m] == old(a[m - 1])
    ensures forall m :: i < m < a.Length ==> a[m] == old(a[m])
  {
    var k := i;
    while k > j
      invariant j <= k <= i
      invariant forall m :: 0 <= m <= k ==> a[m] == old(a[m])
      invariant forall m :: k < m <= i ==> a[m] == old(a[m - 1])
      invariant forall m :: i < m < a.Length ==> a[m] == old(a[m])
    {
      a[k] := a[k - 1];
      k := k - 1;
    }
  }

  /** The array after the shifting loop holds the insertion of x into the sorted prefix. */
  lemma ShiftedInsert(criterion: int, x: Book, sorted: seq<Book>, j: nat, arr: seq<Book>)
    requires SortedBy(criterion, sorted)
    requires j <= |sorted| < |arr| && arr[j] == x
    requires forall m :: 0 <= m < j ==> arr[m] == sorted[m]
    requires forall m :: j < m <= |sorted| ==> arr[m] == sorted[m - 1]
    requires forall m :: j <= m < |sorted| ==> Comparator(criterion, sorted[m], x) > 0
    requires j == 0 || Comparator(criterion, sorted[j - 1], x) <= 0
    ensures arr[..|sorted| + 1] == Insert(criterion, x, sorted)
  {
    InsertAt(criterion, x, sorted, j);
    ShiftedShape(x, sorted, j, arr);
  }

  lemma ShiftedShape<T>(x: T, s: seq<T>, j: nat, arr: seq<T>)
    requires j <= |s| < |arr| && arr[j] == x
    requires forall m :: 0 <= m < j ==> arr[m] == s[m]
    requires forall m :: j < m <= |s| ==> arr[m] == s[m - 1]
    ensures arr[..|s| + 1] == s[..j] + [x] + s[j..]
  {
    var i := |s|;
    assert arr[..j] == s[..j];
    assert arr[j + 1..i + 1] == s[j..] by {
      forall m | 0 <= m < i - j ensures arr[j + 1..i + 1][m] == s[j..][m] {
        assert arr[j + 1 + m] == s[j + m];
      }
    }
    assert arr[..i + 1] == arr[..j] + [x] + arr[j + 1..i + 1];
  }

  /** The array saved from the catalog, loaded into the empty catalog of a new run,
      reproduces it. */
  method SaveThenLoad(lib: Library) returns (next: Library)
    ensures next.books == lib.books
  {
    var doc := lib.Save();
    next := new Library();
    var outcome := next.Load(Document(doc));
  }
}
