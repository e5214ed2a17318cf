# BibliotecaJSON catalog, modelled in Dafny

BibliotecaJSON is a console program that keeps a catalog of books (`Libro`: code, title,
author, subject, page count) in a process-wide `ArrayList`. It loads the catalog from a
JSON file at start-up, and the user can register, update, delete, find, sort, list and
save books. This project models that catalog and the mapping between catalog records and
JSON objects. It proves what each operation does to the list.

Modules:

- `Books` (`books.dfy`): the `Book` record, Java's 32-bit `int` (`Int32`) and the
  narrowing `Wrap32`.
- `Strings` (`strings.dfy`): `String.compareTo` (`CompareTo`) with its order properties,
  proved to agree with a textbook definition of lexicographic order (`LexLess`, in
  `CompareToNegative`).
- `Seqs` (`seqs.dfy`): a generic `Filter` with its lemmas. It is used for `removeIf` and
  for the per-key views that state stability.
- `Sorting` (`sorting.dfy`): the comparator of `ordenarLibros`. It also holds a reference
  stable sort (`StableSorted`, insertion into a sorted list) and proofs that the reference
  sort is ordered, a permutation and stable. Any ordered, stable rearrangement is equal to
  it.
- `Codec` (`codec.dfy`): parsed JSON values (`JVal`), the object written for each book,
  the partial reading back that mirrors the exceptions of `getString`/`getInt`, and the
  round trip.
- `Catalog` (`catalog.dfy`): class `Library`, whose field `books` the methods update in
  place. It has one method per operation, and the sort is an in-place insertion sort on an
  array.
- `Scenarios` (`scenarios.dfy`): small worked cases.

Two behaviours of the program are easy to miss; the model follows the code:

- Loading appends the file's books to the catalog and does not replace it (line 92 calls
  `add`).
- A file that cannot be parsed, or a record with a missing or ill-typed field, is not
  recovered from. Only `IOException` is caught (line 95), so a `JSONException` ends the
  program. The books read before the bad record stay appended. `Library.Load` reports this
  as `Aborted`.

## Model

| member | source | states |
|---|---|---|
| Books.Wrap32 | BibliotecaJSON.java:90 | `getInt` narrows a number to `int` by keeping the low 32 bits: the result agrees with the number modulo 2^32 and equals it when it is already in range |
| Strings.CompareToNegative | BibliotecaJSON.java:204-206 | `compareTo` is negative exactly when the first string comes lexicographically before the second (a proper prefix, or a smaller character where they first part) |
| Strings.NegativeIsLexLess | BibliotecaJSON.java:204-206 | a negative `compareTo` implies the first string is lexicographically smaller |
| Strings.LexLessIsNegative | BibliotecaJSON.java:204-206 | a lexicographically smaller first string gives a negative `compareTo` |
| Strings.CompareToAntisymmetric | BibliotecaJSON.java:204-206 | swapping the arguments negates `compareTo` |
| Strings.CompareToZero | BibliotecaJSON.java:204-206 | `compareTo` is zero exactly when the strings are equal |
| Strings.CompareToTransitive | BibliotecaJSON.java:204-206 | `compareTo` order is transitive, and strict if either step is strict |
| Sorting.ComparatorZero | BibliotecaJSON.java:202-208 | the comparator returns 0 exactly when the two books have the same key under the criterion |
| Sorting.ComparatorAntisymmetric | BibliotecaJSON.java:202-208 | swapping the books negates the comparator |
| Sorting.ComparatorTransitive | BibliotecaJSON.java:202-208 | the comparator is a transitive order, as `List.sort` requires |
| Sorting.InsertPermutes | BibliotecaJSON.java:202 | inserting a book into a list adds exactly that book |
| Sorting.InsertSorted | BibliotecaJSON.java:202 | inserting a book into an ordered list keeps it ordered |
| Sorting.SmallerKeyAbsent | BibliotecaJSON.java:202 | an ordered list has no book with the key of a book ordered strictly before its head |
| Sorting.InsertStable | BibliotecaJSON.java:202 | inserting a book leaves the books of every other key in place, and puts it after those of its own key |
| Sorting.StableSortedCorrect | BibliotecaJSON.java:202-209 | the stable sort is ordered by the comparator, a permutation of its input, and keeps books of equal key in their original relative order |
| Sorting.UnknownCriterionKeepsOrder | BibliotecaJSON.java:207 | with a criterion other than 1, 2 or 3 sorting leaves the catalog order unchanged |
| Sorting.InsertAt | BibliotecaJSON.java:202 | insertion puts the book just before the first book the comparator orders strictly after it |
| Sorting.SortedStableDetermined | BibliotecaJSON.java:202-209 | two ordered lists with the same books of every key, in the same order, are equal |
| Sorting.StableSortUnique | BibliotecaJSON.java:202-209 | every ordered rearrangement that keeps the order of equal keys is the stable sort, so the sorting algorithm does not change the result |
| Seqs.FilterAppend | BibliotecaJSON.java:173 | removal decides book by book, so filtering a concatenation concatenates the filtered parts |
| Seqs.FilterCount | BibliotecaJSON.java:173 | a kept value keeps all its occurrences and a removed value keeps none |
| Seqs.FilterUnchanged | BibliotecaJSON.java:173 | filtering leaves the list as it was exactly when every element is kept |
| Seqs.FilterKept | BibliotecaJSON.java:173 | every element that survives satisfies the predicate |
| Codec.GetInt | BibliotecaJSON.java:90 | `getInt` succeeds exactly when the key is present and holds a number, and returns it narrowed to 32 bits |
| Codec.DecodeBook | BibliotecaJSON.java:84-91 | an array element is read into a book exactly when it is an object with the five keys holding values of the right types |
| Codec.DecodeRecords | BibliotecaJSON.java:83-93 | the array is read in order, one book per element, and reading fails exactly when some element cannot be read |
| Codec.DecodeEncodeBook | BibliotecaJSON.java:104-113 | the object written for a book reads back as the same book |
| Codec.EncodeDecodeBook | BibliotecaJSON.java:84-91 | a readable object is, on its five keys, the object that would be written for the book read from it (page count in range) |
| Codec.RoundTrip | BibliotecaJSON.java:83-113 | reading back the saved array reproduces the catalog, with the same books in the same order, the empty catalog included |
| Catalog.FirstWithCode | BibliotecaJSON.java:149-150 | the position of the first book with the code, or none exactly when no book has it |
| Catalog.UpdateFirst | BibliotecaJSON.java:149-164 | the revised catalog has the same length and the same codes at every position |
| Catalog.UpdateFirstChangesFirstMatch | BibliotecaJSON.java:149-164 | only the first book with the code changes, and only in title, author, subject and pages; with no such book nothing changes |
| Catalog.WithoutCodeNoneLeft | BibliotecaJSON.java:173 | after deleting a code no book has it |
| Catalog.WithoutCodeKeepsOthers | BibliotecaJSON.java:173 | every book with another code survives as many times as it occurred |
| Catalog.WithoutCodeAppend | BibliotecaJSON.java:173 | deletion works book by book, so the survivors keep their relative order |
| Catalog.WithoutCodeUnchanged | BibliotecaJSON.java:173-174 | deleting leaves the catalog unchanged exactly when no book has the code |
| Catalog.Library.constructor | BibliotecaJSON.java:16 | the catalog starts empty |
| Catalog.Library.Register | BibliotecaJSON.java:138-139 | the new book is appended at the end and nothing else changes; a code already present is accepted |
| Catalog.Library.Update | BibliotecaJSON.java:149-164 | reports whether some book has the code, and the new catalog is the one where only the first such book is revised |
| Catalog.Library.Delete | BibliotecaJSON.java:173 | the new catalog is the old one without the books that have the code |
| Catalog.Library.Find | BibliotecaJSON.java:183-189 | returns the first book with the code in catalog order, or none exactly when no book has it; the catalog is not changed |
| Catalog.Library.Sort | BibliotecaJSON.java:202-209 | the new catalog is the stable sort of the old one by the criterion: ordered, a permutation, and equal keys in their original order |
| Catalog.Library.ShowAll | BibliotecaJSON.java:218-224 | the empty notice exactly when the catalog is empty, otherwise every book in catalog order |
| Catalog.Library.Save | BibliotecaJSON.java:104-113 | the array written holds one object per book in catalog order, and it reads back as the catalog |
| Catalog.Library.Load | BibliotecaJSON.java:78-98 | a missing file changes nothing; an unparsable document or one that is not an array aborts with nothing added; otherwise books are appended in array order, and an unreadable element aborts the load with its index, leaving the books before it appended and nothing after |
| Catalog.InsertionSort | BibliotecaJSON.java:202 | the in-place sort leaves the array holding the stable sort of its old contents |
| Catalog.InsertInPlace | BibliotecaJSON.java:202 | one insertion step turns the ordered prefix plus the next book into their stable insertion |
| Catalog.FindSlot | BibliotecaJSON.java:202 | finds the slot after the last book of the prefix that the comparator does not order after the new book |
| Catalog.ShiftRight | BibliotecaJSON.java:202 | moves a block of the array one place to the right and leaves the rest alone |
| Catalog.ShiftedInsert | BibliotecaJSON.java:202 | the array after shifting and placing the book is the stable insertion |
| Catalog.SaveThenLoad | BibliotecaJSON.java:78-121 | the saved array, loaded into a new empty catalog, reproduces it |
| Scenarios.CodesSortAsText | BibliotecaJSON.java:204 | codes "30", "5", "100" sort as "100", "30", "5", because codes compare as text and not as numbers |
| Scenarios.EqualTitlesKeepOrder | BibliotecaJSON.java:205 | two books with the same title keep their order when sorted by title |
| Scenarios.DeleteRemovesEveryCopy | BibliotecaJSON.java:173 | deleting a code removes every book with it, not only the first |

## Left out

- The menu loop, the `Scanner` reads and every console message (lines 19-73 and the prompts inside each operation). The values read become method parameters, and the "found"/"not found" messages become results.
- JSON text: printing with `toString(4)` and parsing with `new JSONArray(String)` are done by org.json, which is not part of this model. The model works on parsed values (`JVal`), and a file whose text does not parse is the `Malformed` case.
- File access (`Files.readAllBytes`, `FileWriter`) and the `IOException` on writing. The file read at start-up is the `StoredFile` parameter of `Load`, and `Save` returns the document it would write.
- Codec.GetInt: org.json's `getInt` also accepts a string holding a number and non-integral numbers, which this model rejects; only integral numbers are modelled, narrowed to 32 bits.
- Codec.GetString: some org.json versions turn non-string values into text; this model accepts strings only, as current versions do.
- `Libro.toString` (lines 247-250): display formatting only.
- Strings.CompareTo: compares Dafny characters (Unicode scalar values), while Java compares UTF-16 code units. The two orders differ only when characters outside the Basic Multilingual Plane are compared with characters from U+E000 to U+FFFF.
- Catalog.Library.Sort: `List.sort` is a merge sort (TimSort) whose code is not part of this model; the model sorts by insertion instead. `Sorting.StableSortUnique` proves that every stable sort gives the same result.
- Catalog.Library.Delete: `removeIf` is modelled by its result (a filter), not by its internal loop.
- Catalog.Library.Update: Java changes the fields of the matching `Libro` object; the model replaces the record at that position. The two agree because each `Libro` is created for the list and referenced nowhere else.
- Catalog.Library.Load: the uncaught `JSONException` ends the program; the model returns `Aborted` and keeps the books appended before it.
- Catalog.SaveThenLoad: the text and file layer between saving and loading is taken to be lossless. The program writes with `FileWriter` (line 115) and reads with `new String(bytes)` (line 81), both in the platform's default character set; when that set is narrower than Unicode (windows-1252 on older Windows Java), a character it cannot hold is written as `?` and does not read back.
