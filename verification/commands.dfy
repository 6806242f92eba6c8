/**
  The pdftk command lines and the outcome of an external process.

  Every implementation calls pdftk twice at most, with the same two shapes:
  `<input> cat <p1> … <pn> output <tmp>` to extract pages and
  `<f1> … <fk> cat output <out>` to merge. Go, Java, Kotlin and Rust build the
  argument vector directly; Ruby, .NET and PHP splice the space-joined page
  list into one command string, and Rust splits that string again with
  `split_whitespace`. `StringArgv` is that second route; `StringArgvAgrees`
  shows both routes give pdftk the same arguments.

  Shell quoting of file names (`shellescape`, `escapeshellarg`, the quotes
  .NET writes) is not modelled: a file argument is a `FileArg`.
 */
module Commands {
  import opened Base
  import opened Numerals
  import opened Paths

  datatype Arg = Word(w: string) | FileArg(p: Path)

  /** What a spawned process reports: whether it started, its exit code, whether it wrote its output file. */
  datatype Proc = Proc(spawned: bool, exitCode: int, wroteOutput: bool)

  /** A process that started and exited with status 0 (`cmd.Run() == nil`, `success?`, `exitCode == 0`). */
  predicate ExitedZero(p: Proc) {
    p.spawned && p.exitCode == 0
  }

  /** `which pdftk` succeeded and printed something (Ruby `pdftk_available?`, PHP's check). */
  predicate PdftkAvailable(which: Proc, stdoutBlank: bool) {
    ExitedZero(which) && !stdoutBlank
  }

  function PageWord(i: int): Arg {
    Word(Decimal(i))
  }

  /** `<input> cat <pages in decimal> output <out>`. */
  function ExtractArgv(input: Path, pages: seq<int>, out: Path): (r: seq<Arg>)
    ensures |r| == |pages| + 4
  {
    [FileArg(input), Word("cat")] + Map(PageWord, pages) + [Word("output"), FileArg(out)]
  }

  /** `<files> cat output <out>`. */
  function MergeArgv(files: seq<Path>, out: Path): (r: seq<Arg>)
    ensures |r| == |files| + 3
  {
    Map(FileArgOf, files) + [Word("cat"), Word("output"), FileArg(out)]
  }

  function FileArgOf(p: Path): Arg {
    FileArg(p)
  }

  datatype ExtractCall = ExtractCall(input: Path, pages: seq<int>, out: Path)
  datatype MergeCall = MergeCall(files: seq<Path>, out: Path)

  /** Reads page numbers back from their decimal words; `None` if any argument is not one. */
  function ParsePages(args: seq<Arg>): (r: Option<seq<int>>)
    ensures r.Some? ==> |r.value| == |args|
  {
    if |args| == 0 then Some([])
    else if args[0].Word? && IsIntegerText(args[0].w) then
      match ParsePages(args[1..])
      case None => None
      case Some(rest) => Some([ParseInteger(args[0].w)] + rest)
    else None
  }

  /** How pdftk reads an extraction call. */
  function ParseExtractArgv(argv: seq<Arg>): Option<ExtractCall> {
    if |argv| >= 4 && argv[0].FileArg? && argv[1] == Word("cat")
       && argv[|argv| - 2] == Word("output") && argv[|argv| - 1].FileArg?
    then
      match ParsePages(argv[2..|argv| - 2])
      case None => None
      case Some(ps) => Some(ExtractCall(argv[0].p, ps, argv[|argv| - 1].p))
    else None
  }

  function ParseFiles(args: seq<Arg>): (r: Option<seq<Path>>)
    ensures r.Some? ==> |r.value| == |args|
  {
    if |args| == 0 then Some([])
    else if args[0].FileArg? then
      match ParseFiles(args[1..])
      case None => None
      case Some(rest) => Some([args[0].p] + rest)
    else None
  }

  /** How pdftk reads a merge call. */
  function ParseMergeArgv(argv: seq<Arg>): Option<MergeCall> {
    if |argv| >= 3 && argv[|argv| - 3] == Word("cat") && argv[|argv| - 2] == Word("output")
       && argv[|argv| - 1].FileArg?
    then
      match ParseFiles(argv[..|argv| - 3])
      case None => None
      case Some(fs) => Some(MergeCall(fs, argv[|argv| - 1].p))
    else None
  }

  lemma {:induction false} ParsePagesWords(pages: seq<int>)
    ensures ParsePages(Map(PageWord, pages)) == Some(pages)
    decreases |pages|
  {
    if |pages| > 0 {
      var ws := Map(PageWord, pages);
      assert ws[1..] == Map(PageWord, pages[1..]);
      ParsePagesWords(pages[1..]);
      DecimalRoundTrip(pages[0]);
      assert [pages[0]] + pages[1..] == pages;
    }
  }

  /** pdftk reads back exactly the input, the pages in their order, and the output of an extraction call. */
  lemma ExtractArgvRoundTrip(input: Path, pages: seq<int>, out: Path)
    ensures ParseExtractArgv(ExtractArgv(input, pages, out)) == Some(ExtractCall(input, pages, out))
  {
    var a := ExtractArgv(input, pages, out);
    assert a[2..|a| - 2] == Map(PageWord, pages);
    ParsePagesWords(pages);
  }

  lemma {:induction false} ParseFilesArgs(files: seq<Path>)
    ensures ParseFiles(Map(FileArgOf, files)) == Some(files)
    decreases |files|
  {
    if |files| > 0 {
      var fs := Map(FileArgOf, files);
      assert fs[1..] == Map(FileArgOf, files[1..]);
      ParseFilesArgs(files[1..]);
      assert [files[0]] + files[1..] == files;
    }
  }

  /** pdftk reads back exactly the files, in order, and the output of a merge call. */
  lemma MergeArgvRoundTrip(files: seq<Path>, out: Path)
    ensures ParseMergeArgv(MergeArgv(files, out)) == Some(MergeCall(files, out))
  {
    var a := MergeArgv(files, out);
    assert a[..|a| - 3] == Map(FileArgOf, files);
    ParseFilesArgs(files);
  }

  /**
    The two calls of one run cannot be mistaken for each other: an extraction
    with at least one page never reads as a merge, and a merge of at least two
    files never reads as an extraction.
   */
  lemma CallsDistinct(input: Path, pages: seq<int>, tmp: Path, files: seq<Path>, out: Path)
    ensures |pages| > 0 ==> ParseMergeArgv(ExtractArgv(input, pages, tmp)).None?
    ensures |files| >= 2 ==> ParseExtractArgv(MergeArgv(files, out)).None?
  {
    if |pages| > 0 {
      var a := ExtractArgv(input, pages, tmp);
      var pre := a[..|a| - 3];
      assert pre[1] == Word("cat");
      ParseFilesRejectsWord(pre, 1);
    }
    if |files| >= 2 {
      assert MergeArgv(files, out)[1] == FileArg(files[1]);
    }
  }

  lemma {:induction false} ParseFilesRejectsWord(args: seq<Arg>, k: nat)
    requires k < |args| && args[k].Word?
    ensures ParseFiles(args).None?
    decreases k
  {
    if k > 0 && args[0].FileArg? {
      ParseFilesRejectsWord(args[1..], k - 1);
    }
  }

  // ------------------------------------------------------------ one command string

  predicate IsSpace(c: char) {
    c == ' ' || c == '\t' || c == '\n' || c == '\r'
  }

  predicate IsToken(w: string) {
    |w| > 0 && forall k :: 0 <= k < |w| ==> !IsSpace(w[k])
  }

  /** `join(' ')`, `string.Join(" ", …)`, `implode(' ', …)`. */
  function JoinWords(ws: seq<string>): string {
    if |ws| == 0 then ""
    else if |ws| == 1 then ws[0]
    else ws[0] + " " + JoinWords(ws[1..])
  }

  /** The longest prefix without white space. */
  function TokenPrefix(s: string): (r: string)
    ensures |r| <= |s| && r == s[..|r|]
    ensures forall k :: 0 <= k < |r| ==> !IsSpace(r[k])
    ensures |r| < |s| ==> IsSpace(s[|r|])
  {
    if |s| == 0 || IsSpace(s[0]) then "" else [s[0]] + TokenPrefix(s[1..])
  }

  /** Rust `split_whitespace`, and a shell's word splitting of unquoted text: maximal runs without white space. */
  function SplitWhitespace(s: string): (r: seq<string>)
    ensures forall i :: 0 <= i < |r| ==> IsToken(r[i])
    decreases |s|
  {
    if |s| == 0 then []
    else if IsSpace(s[0]) then SplitWhitespace(s[1..])
    else
      var t := TokenPrefix(s);
      [t] + SplitWhitespace(s[|t|..])
  }

  lemma {:induction false} TokenPrefixOf(w: string, rest: string)
    requires forall k :: 0 <= k < |w| ==> !IsSpace(w[k])
    requires |rest| == 0 || IsSpace(rest[0])
    ensures TokenPrefix(w + rest) == w
    decreases |w|
  {
    if |w| == 0 {
      assert w + rest == rest;
    } else {
      assert (w + rest)[1..] == w[1..] + rest;
      TokenPrefixOf(w[1..], rest);
      assert [w[0]] + w[1..] == w;
    }
  }

  /** Splitting space-joined tokens gives the tokens back. */
  lemma {:induction false} SplitJoin(ws: seq<string>)
    requires forall i :: 0 <= i < |ws| ==> IsToken(ws[i])
    ensures SplitWhitespace(JoinWords(ws)) == ws
    decreases |ws|
  {
    if |ws| == 1 {
      var w := ws[0];
      TokenPrefixOf(w, "");
      assert w + "" == w;
      assert w[|w|..] == "";
    } else if |ws| > 1 {
      var w := ws[0];
      var rest := JoinWords(ws[1..]);
      var s := w + " " + rest;
      TokenPrefixOf(w, " " + rest);
      assert s == w + (" " + rest);
      assert s[|w|..] == " " + rest;
      assert (" " + rest)[1..] == rest;
      SplitJoin(ws[1..]);
      assert [w] + ws[1..] == ws;
    }
  }

  /** Decimal text is one token: digits and possibly a leading '-'. */
  lemma DecimalIsToken(i: int)
    ensures IsToken(Decimal(i))
  {
    DecimalHasNoBlank(i);
    var d := Decimal(i);
    forall k | 0 <= k < |d| ensures !IsSpace(d[k]) {
      DecimalChar(i, k);
    }
  }

  lemma DecimalChar(i: int, k: nat)
    requires k < |Decimal(i)|
    ensures IsDigit(Decimal(i)[k]) || Decimal(i)[k] == '-'
  {
    if i < 0 && k > 0 {
      assert Decimal(i)[k] == Digits(-i)[k - 1];
    }
  }

  /**
    The arguments pdftk receives when the page list is joined with spaces into
    one string and split again (Ruby's and PHP's command text, .NET's
    `Arguments`, Rust's `split_whitespace`).
   */
  function StringArgv(input: Path, pages: seq<int>, out: Path): seq<Arg> {
    [FileArg(input), Word("cat")] + Map(WordOf, SplitWhitespace(JoinWords(Map(Decimal, pages))))
      + [Word("output"), FileArg(out)]
  }

  function WordOf(s: string): Arg {
    Word(s)
  }

  /** Joining and splitting again loses nothing: both routes give pdftk the same arguments. */
  lemma StringArgvAgrees(input: Path, pages: seq<int>, out: Path)
    ensures StringArgv(input, pages, out) == ExtractArgv(input, pages, out)
  {
    var ds := Map(Decimal, pages);
    forall i | 0 <= i < |ds| ensures IsToken(ds[i]) {
      DecimalIsToken(pages[i]);
    }
    SplitJoin(ds);
    assert Map(WordOf, ds) == Map(PageWord, pages);
  }
}
