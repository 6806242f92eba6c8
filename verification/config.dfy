/**
  The configuration file after YAML parsing. The dynamic implementations
  (Ruby, PHP, JavaScript, Python) see the parsed document as it is: any value
  can stand in any position. The statically typed ones (Go, .NET, Java,
  Kotlin, Rust) decode it into a record whose index fields are optional
  integers; `DecodePages` and `LoadConfig` are that decoding.

  YAML parsing itself is not modelled: a run starts from a `Loaded` value.
 */
module ConfigDoc {
  import opened Base
  import opened Paths

  /** A scalar of the parsed document. */
  datatype Scalar = Null | Bool(b: bool) | Int(i: int) | Str(s: string)

  /** A key of a mapping: absent, or present with its value. */
  datatype Field = Missing | Present(value: Scalar)

  /** One element of the page list: a mapping with the three index keys, a scalar, or a nested list. */
  datatype Entry =
    | Mapping(pageIndex: Field, page: Field, pageNumber: Field)
    | ScalarEntry(item: Scalar)
    | NestedList

  /** The value of the `pages` (or `workouts`) key. */
  datatype PageList =
    | ListMissing
    | ListNull
    | List(entries: seq<Entry>)
    | ListText(text: string)                   // a string
    | ListAtom(truthy: bool)                   // a number or a boolean; `truthy` as JavaScript sees it
    | ListMapping(items: seq<(Scalar, Entry)>) // a mapping: its keys with their values, in order

  /** The one-character strings a string yields when it is iterated. */
  function CharEntry(c: char): Entry {
    ScalarEntry(Str([c]))
  }

  function Chars(t: string): (r: seq<Entry>)
    ensures |r| == |t| && forall k :: 0 <= k < |t| ==> r[k] == ScalarEntry(Str([t[k]]))
  {
    Map(CharEntry, t)
  }

  /** Iterating a mapping: Python yields its keys, PHP's `foreach` its values. */
  function ItemKey(kv: (Scalar, Entry)): Entry {
    ScalarEntry(kv.0)
  }

  function ItemValue(kv: (Scalar, Entry)): Entry {
    kv.1
  }

  /**
    The top-level mapping. The string-valued keys are `None` when absent or
    null; an empty string is `Some(Here)`.
   */
  datatype Document = Document(
    file: Option<Path>,
    output: Option<Path>,
    appendFirstPage: Option<Path>,
    pages: PageList,
    workouts: PageList)

  /** Reading and parsing a configuration file. */
  datatype Loaded =
    | FileMissing
    | SyntaxError
    | EmptyDocument     // parses to null
    | NotMapping(list: bool)  // a scalar, or with `list` a sequence, at the top level
    | Mapped(doc: Document)

  /** One page entry after typed decoding. `pageNumber` is decoded and never used. */
  datatype PageConfig = PageConfig(pageIndex: Option<int>, page: Option<int>, pageNumber: Option<int>)

  datatype Config = Config(
    file: Option<Path>,
    output: Option<Path>,
    appendFirstPage: Option<Path>,
    pages: seq<PageConfig>)

  datatype DecodeError = NotAnInteger | EntryNotMapping | PagesNotList | TopNotMapping | UnknownKey

  /** The outcome of Go's `LoadConfig`: a read error, a parse error, or a decode error. */
  datatype LoadError = ReadFailed | ParseFailed | DecodeFailed(e: DecodeError)

  /** A typed integer field: absent and null both decode to "no value". */
  function DecodeField(f: Field): (r: Result<Option<int>, DecodeError>)
    ensures r.Ok? <==> (f.Missing? || f.value.Null? || f.value.Int?)
    ensures r == Ok(None) <==> (f.Missing? || f.value.Null?)
    ensures r.Ok? && r.value.Some? ==> f == Present(Int(r.value.value))
  {
    match f
    case Missing => Ok(None)
    case Present(Null) => Ok(None)
    case Present(Int(i)) => Ok(Some(i))
    case Present(_) => Err(NotAnInteger)
  }

  function DecodeEntry(e: Entry): Result<PageConfig, DecodeError> {
    match e
    case ScalarEntry(_) => Err(EntryNotMapping)
    case NestedList => Err(EntryNotMapping)
    case Mapping(pi, p, pn) =>
      match (DecodeField(pi), DecodeField(p), DecodeField(pn))
      case (Ok(a), Ok(b), Ok(c)) => Ok(PageConfig(a, b, c))
      case (Err(x), _, _) => Err(x)
      case (_, Err(x), _) => Err(x)
      case (_, _, Err(x)) => Err(x)
  }

  /** Decodes the page list element by element; the first failure is the result. */
  function DecodeEntries(es: seq<Entry>): (r: Result<seq<PageConfig>, DecodeError>)
    ensures r.Ok? <==> forall i :: 0 <= i < |es| ==> DecodeEntry(es[i]).Ok?
    ensures r.Ok? ==>
      (|r.value| == |es| && forall i :: 0 <= i < |es| ==> DecodeEntry(es[i]) == Ok(r.value[i]))
  {
    if |es| == 0 then Ok([])
    else
      match (DecodeEntry(es[0]), DecodeEntries(es[1..]))
      case (Ok(pc), Ok(rest)) => Ok([pc] + rest)
      case (Err(x), _) => Err(x)
      case (_, Err(x)) => Err(x)
  }

  /** Absent and null lists decode to the empty list; a scalar or a mapping is not a list. */
  function DecodePages(l: PageList): Result<seq<PageConfig>, DecodeError> {
    match l
    case ListMissing => Ok([])
    case ListNull => Ok([])
    case List(es) => DecodeEntries(es)
    case _ => Err(PagesNotList)
  }

  /**
    Go's `LoadConfig`: an unreadable file and a syntax error are returned as
    errors, an empty document decodes to the zero configuration, and no
    partial configuration is ever returned with an error.
   */
  function LoadConfig(l: Loaded): (r: Result<Config, LoadError>)
    ensures l.FileMissing? ==> r == Err(ReadFailed)
    ensures l.SyntaxError? ==> r == Err(ParseFailed)
    ensures l.NotMapping? ==> r == Err(DecodeFailed(TopNotMapping))
    ensures l.EmptyDocument? ==> r == Ok(Config(None, None, None, []))
    ensures l.Mapped? ==> (r.Ok? <==> DecodePages(l.doc.pages).Ok?)
    ensures r.Ok? && l.Mapped? ==>
      r.value.file == l.doc.file && r.value.output == l.doc.output &&
      r.value.appendFirstPage == l.doc.appendFirstPage &&
      r.value.pages == DecodePages(l.doc.pages).value
  {
    match l
    case FileMissing => Err(ReadFailed)
    case SyntaxError => Err(ParseFailed)
    case EmptyDocument => Ok(Config(None, None, None, []))
    case NotMapping(_) => Err(DecodeFailed(TopNotMapping))
    case Mapped(d) =>
      match DecodePages(d.pages)
      case Ok(ps) => Ok(Config(d.file, d.output, d.appendFirstPage, ps))
      case Err(e) => Err(DecodeFailed(e))
  }

  /** Writes a typed entry back as a mapping: `None` becomes an absent key. */
  function EncodeField(v: Option<int>): Field {
    match v
    case None => Missing
    case Some(i) => Present(Int(i))
  }

  function EncodeEntry(pc: PageConfig): Entry {
    Mapping(EncodeField(pc.pageIndex), EncodeField(pc.page), EncodeField(pc.pageNumber))
  }

  function EncodeEntries(ps: seq<PageConfig>): (r: seq<Entry>)
    ensures |r| == |ps| && forall i :: 0 <= i < |ps| ==> r[i] == EncodeEntry(ps[i])
  {
    if |ps| == 0 then [] else [EncodeEntry(ps[0])] + EncodeEntries(ps[1..])
  }

  function Encode(c: Config): Document {
    Document(c.file, c.output, c.appendFirstPage, List(EncodeEntries(c.pages)), ListMissing)
  }

  /** Every typed configuration is written and read back unchanged. */
  lemma DecodeEncode(c: Config)
    ensures LoadConfig(Mapped(Encode(c))) == Ok(c)
  {
    var es := EncodeEntries(c.pages);
    forall i | 0 <= i < |es| ensures DecodeEntry(es[i]) == Ok(c.pages[i]) {
      var pc := c.pages[i];
      assert es[i] == EncodeEntry(pc);
    }
    var r := DecodeEntries(es);
    assert r.Ok?;
    assert r.value == c.pages;
  }
}
