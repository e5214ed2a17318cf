/** The mapping between the catalog and the JSON document of guardarDatos and cargarDatos,
    at the level of parsed JSON values (the text itself is produced and read by org.json). */
module Codec {
  import opened Books

  /** A parsed JSON value. Numbers are integral: the file only ever holds page counts. */
  datatype JVal =
    | JStr(str: string)
    | JInt(num: int)
    | JBool(b: bool)
    | JNull
    | JObj(fields: map<string, JVal>)
    | JArr(items: seq<JVal>)

  /** The fixed key names of the file format. */
  const CODIGO := "codigo"
  const NOMBRE := "nombre"
  const AUTOR := "autor"
  const MATERIA := "materia"
  const NUM_PAGINAS := "numPaginas"

  /** The object guardarDatos builds for one book: the five keys, each put once. */
  function EncodeBook(b: Book): JVal
  {
    JObj(map[CODIGO := JStr(b.code), NOMBRE := JStr(b.title), AUTOR := JStr(b.author),
             MATERIA := JStr(b.subject), NUM_PAGINAS := JInt(b.pages)])
  }

  /** The array guardarDatos builds: one object per book, in catalog order. */
  function Encode(books: seq<Book>): JVal
  {
    JArr(seq(|books|, i requires 0 <= i < |books| => EncodeBook(books[i])))
  }

  /** `getString(key)`: fails when the key is missing or does not hold a string. */
  function GetString(m: map<string, JVal>, key: string): (r: Option<string>)
    ensures r.Some? <==> key in m && m[key].JStr?
    ensures r.Some? ==> m[key] == JStr(r.value)
  {
    if key in m && m[key].JStr? then Some(m[key].str) else None
  }

  /** `getInt(key)`: fails when the key is missing or does not hold a number; a number
      outside the range of `int` is narrowed to its low 32 bits. */
  function GetInt(m: map<string, JVal>, key: string): (r: Option<Int32>)
    ensures r.Some? <==> key in m && m[key].JInt?
    ensures r.Some? ==> (r.value - m[key].num) % 0x1_0000_0000 == 0
  {
    if key in m && m[key].JInt? then Some(Wrap32(m[key].num)) else None
  }

  /** The object cargarDatos can read: the five keys are present with the right types. */
  ghost predicate Readable(v: JVal)
  {
    && v.JObj?
    && CODIGO in v.fields && v.fields[CODIGO].JStr?
    && NOMBRE in v.fields && v.fields[NOMBRE].JStr?
    && AUTOR in v.fields && v.fields[AUTOR].JStr?
    && MATERIA in v.fields && v.fields[MATERIA].JStr?
    && NUM_PAGINAS in v.fields && v.fields[NUM_PAGINAS].JInt?
  }

  /** One element of the array read back into a book (`getJSONObject(i)` and the five getters);
      None stands for the JSONException any of them throws. */
  function DecodeBook(v: JVal): (r: Option<Book>)
    ensures r.Some? <==> Readable(v)
  {
    match v
    case JObj(m) =>
      (match (GetString(m, CODIGO), GetString(m, NOMBRE), GetString(m, AUTOR), GetString(m, MATERIA), GetInt(m, NUM_PAGINAS))
       case (Some(code), Some(title), Some(author), Some(subject), Some(pages)) =>
         Some(Book(code, title, author, subject, pages))
       case _ => None)
    case _ => None
  }

  /** All elements read back in array order; None when any element cannot be read. */
  function DecodeRecords(items: seq<JVal>): (r: Option<seq<Book>>)
    ensures r.Some? <==> forall i :: 0 <= i < |items| ==> DecodeBook(items[i]).Some?
    ensures r.Some? ==> |r.value| == |items|
    ensures r.Some? ==> forall i :: 0 <= i < |items| ==> DecodeBook(items[i]) == Some(r.value[i])
  {
    if items == [] then Some([])
    else
      var last := |items| - 1;
      match DecodeRecords(items[..last])
      case None => None
      case Some(books) =>
        match DecodeBook(items[last])
        case None => None
        case Some(b) => Some(books + [b])
  }

  /** The whole document read back; `new JSONArray(...)` fails unless it is an array. */
  function Decode(doc: JVal): Option<seq<Book>>
  {
    if doc.JArr? then DecodeRecords(doc.items) else None
  }

  /** Reading back a saved book gives the same book. */
  lemma DecodeEncodeBook(b: Book)
    ensures DecodeBook(EncodeBook(b)) == Some(b)
  {
    var m := EncodeBook(b).fields;
    assert GetString(m, CODIGO) == Some(b.code);
    assert GetString(m, NOMBRE) == Some(b.title);
    assert GetString(m, AUTOR) == Some(b.author);
    assert GetString(m, MATERIA) == Some(b.subject);
    assert GetInt(m, NUM_PAGINAS) == Some(b.pages);
  }

  /** Conversely, a readable object is the saved form of the book read from it, up to keys
      other than the five (ignored on reading) and a page count outside the range of `int`. */
  lemma EncodeDecodeBook(v: JVal, b: Book)
    requires DecodeBook(v) == Some(b)
    requires -0x8000_0000 <= v.fields[NUM_PAGINAS].num < 0x8000_0000
    ensures EncodeBook(b).fields == map k | k in v.fields && k in {CODIGO, NOMBRE, AUTOR, MATERIA, NUM_PAGINAS} :: v.fields[k]
  {
    var m := v.fields;
    assert GetString(m, CODIGO) == Some(b.code);
    assert GetString(m, NOMBRE) == Some(b.title);
    assert GetString(m, AUTOR) == Some(b.author);
    assert GetString(m, MATERIA) == Some(b.subject);
    assert GetInt(m, NUM_PAGINAS) == Some(b.pages);
  }

  /** Saving then loading reproduces the catalog: same books, same order, the empty one included. */
  lemma RoundTrip(books: seq<Book>)
    ensures Decode(Encode(books)) == Some(books)
  {
    var items := Encode(books).items;
    forall i | 0 <= i < |items| ensures DecodeBook(items[i]) == Some(books[i]) {
      DecodeEncodeBook(books[i]);
    }
    var r := DecodeRecords(items).value;
    assert r == books by {
      forall i | 0 <= i < |books| ensures r[i] == books[i] {
        assert DecodeBook(items[i]) == Some(r[i]);
      }
    }
  }

  /** What the file read at start-up turned out to be. */
  datatype StoredFile =
    | Missing              // `Files.readAllBytes` threw an IOException
    | Malformed            // the bytes are not JSON text
    | Document(doc: JVal)  // the parsed JSON value

  datatype LoadError = Unparsable | NotAnArray | BadRecord(index: nat)

  /** NoPriorData is the IOException that cargarDatos catches; Aborted is a JSONException
      that nothing catches, so the program stops. */
  datatype LoadOutcome = Loaded | NoPriorData | Aborted(reason: LoadError)
}
