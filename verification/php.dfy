/**
  The PHP `PdfExtractor` (php/src/PdfExtractor/PdfExtractor.php). Like the
  Ruby extractor it keeps a list of temporary files and deletes it at the
  end, but its temporary names come from `tempnam`, which creates an empty
  file and returns its name; the code then appends ".pdf" or ".html" and
  works on that other name, so the file `tempnam` created is never deleted.
  A failed copy also ends the run without the cleanup the other failures do.

  Both defects are modelled as written (`AsWritten`) and next to a corrected
  version (`Fixed`) that deletes each `tempnam` file with the list and
  cleans up after a failed copy. Success is judged by the existence of the
  files the processes should have written, not by their exit status, except
  for the merge.
 */
module PhpExtractor {
  import opened Base
  import opened Paths
  import opened Commands
  import opened ConfigDoc
  import opened DynamicSelection
  import opened Temps
  import opened Render

  datatype Variant = AsWritten | Fixed

  datatype PhpError =
    | PdftkMissing
    | YamlUnparsable    // `Yaml::parseFile` throws: a missing file or a syntax error
    | NotArray          // the document is not an array
    | PagesNotArray
    | RenderFailed      // the Markdown PDF does not exist after the renderer ran
    | ExtractFailed     // the extracted file does not exist after pdftk ran
    | MergeFailed
    | CopyFailed
    | NoPages

  /** What the outside world does during one run. */
  datatype PhpWorld = PhpWorld(
    which: Proc, whichBlank: bool,   // `which pdftk` and whether it printed only white space
    node: Proc,                      // the renderer
    extract: Proc,                   // pdftk extracting pages
    merge: Proc,                     // pdftk merging
    copyOk: bool,                    // `copy` of an existing file succeeds
    outExisted: bool)                // the output file existed before the run

  /** The names `tempnam` returns, for the Markdown PDF, the HTML page and the extracted pages. */
  datatype PhpTemps = PhpTemps(mdStub: Path, htmlStub: Path, extractedStub: Path)

  function MdPdf(t: PhpTemps): Path {
    WithExt(t.mdStub, ".pdf")
  }

  function Html(t: PhpTemps): Path {
    WithExt(t.htmlStub, ".html")
  }

  function ExtractedPdf(t: PhpTemps): Path {
    WithExt(t.extractedStub, ".pdf")
  }

  /** A run in progress: the log, `$tempFiles`, `$filesToMerge`, and the first error. */
  datatype St = St(log: Log, temps: seq<Path>, files: seq<Path>, err: Option<PhpError>)

  datatype PhpRun = PhpRun(log: Log, result: Result<Path, PhpError>)

  /**
    The keys `extractPages` reads from the parsed array: a top-level YAML
    list is an array too, but it has no string keys, so every key reads as
    null.
   */
  function ArrayDocument(l: Loaded): (d: Document)
    ensures l.Mapped? ==> d == l.doc
    ensures !l.Mapped? ==> d.file.None? && d.output.None? && d.appendFirstPage.None? && d.pages.ListMissing?
  {
    if l.Mapped? then l.doc else Document(None, None, None, ListMissing, ListMissing)
  }

  /**
    The configuration checks of `extractPages`: the document must be an
    array; `pages` defaults to the empty list when missing or null and must
    otherwise be an array. A YAML mapping is an array too, and `foreach`
    walks its values; a top-level list has no `pages` key and selects
    nothing.
   */
  function LoadConfig(l: Loaded): (r: Result<seq<Entry>, PhpError>)
    ensures r.Ok? <==>
      (l.Mapped? && !l.doc.pages.ListText? && !l.doc.pages.ListAtom?) || (l.NotMapping? && l.list)
    ensures r.Ok? && l.Mapped? && l.doc.pages.List? ==> r.value == l.doc.pages.entries
    ensures r.Ok? && l.Mapped? && l.doc.pages.ListMapping? ==> r.value == Map(ItemValue, l.doc.pages.items)
    ensures r.Ok? && !(l.Mapped? && (l.doc.pages.List? || l.doc.pages.ListMapping?)) ==> r.value == []
    ensures l.FileMissing? || l.SyntaxError? ==> r == Err(YamlUnparsable)
    ensures l.EmptyDocument? || (l.NotMapping? && !l.list) ==> r == Err(NotArray)
    ensures l.Mapped? && (l.doc.pages.ListText? || l.doc.pages.ListAtom?) ==> r == Err(PagesNotArray)
  {
    match l
    case FileMissing => Err(YamlUnparsable)
    case SyntaxError => Err(YamlUnparsable)
    case EmptyDocument => Err(NotArray)
    case NotMapping(list) => if list then Ok([]) else Err(NotArray)
    case Mapped(d) =>
      match d.pages
      case List(es) => Ok(es)
      case ListMapping(items) => Ok(Map(ItemValue, items))
      case ListText(_) => Err(PagesNotArray)
      case ListAtom(_) => Err(PagesNotArray)
      case _ => Ok([])
  }

  /**
    The Markdown page: without a `$mdPath` argument a truthy
    `appendFirstPage` is appended to the configuration file's directory;
    the page is included only when the path is truthy and the file exists.
   */
  function ChosenMarkdown(mdArg: Option<Path>, yaml: Path, d: Document, present: set<Path>): (r: Option<Path>)
    ensures r.Some? ==> Given(r) && r.value in present
    ensures Given(mdArg) ==> r == (if mdArg.value in present then mdArg else None)
    ensures mdArg.None? && Given(d.appendFirstPage) ==>
      var j := Join(Dir(yaml), d.appendFirstPage.value);
      r == (if !IsEmpty(j) && j in present then Some(j) else None)
    ensures mdArg.None? && !Given(d.appendFirstPage) ==> r.None?
    ensures mdArg.Some? && !Given(mdArg) ==> r.None?
  {
    var md := if mdArg.None? && Given(d.appendFirstPage) then Some(Join(Dir(yaml), d.appendFirstPage.value)) else mdArg;
    if Given(md) && md.value in present then md else None
  }

  /**
    `markdownToPdf`: the HTML page goes to a `tempnam` name plus ".html",
    which is deleted after the renderer ran; the file `tempnam` created
    stays, unless corrected.
   */
  function MarkdownToPdf(v: Variant, l: Log, t: PhpTemps, w: PhpWorld): (r: Log)
    ensures r.live == (l.live + {t.htmlStub} + (if w.node.wroteOutput then {MdPdf(t)} else {})) - {Html(t)}
      - (if v == Fixed then {t.htmlStub} else {})
    ensures r.pdftk == l.pdftk && r.saves == l.saves && r.nodes == l.nodes + [(Html(t), MdPdf(t))]
  {
    var l1 := Emit(Emit(Emit(l, Create(t.htmlStub)), Create(Html(t))), Node(Html(t), MdPdf(t)));
    var l2 := Emit(if w.node.wroteOutput then Emit(l1, Create(MdPdf(t))) else l1, Remove(Html(t)));
    if v == Fixed then Emit(l2, Remove(t.htmlStub)) else l2
  }

  /**
    The Markdown page: a `tempnam` name plus ".pdf" receives it, and only
    the existence of that file afterwards decides. The corrected version
    lists the `tempnam` file for deletion too.
   */
  function MarkdownStep(v: Variant, s: St, md: Option<Path>, t: PhpTemps, w: PhpWorld): (r: St)
    requires s.err.None?
    ensures md.None? ==> r == s
    ensures r.err.None? <==> md.None? || w.node.wroteOutput
    ensures r.err.Some? ==> r.err == Some(RenderFailed)
    ensures r.files == s.files + (if md.Some? && r.err.None? then [MdPdf(t)] else [])
    ensures md.Some? ==> r.temps == s.temps + (if v == Fixed then [t.mdStub] else []) + (if r.err.None? then [MdPdf(t)] else [])
    ensures r.log.pdftk == s.log.pdftk && r.log.saves == s.log.saves
    ensures md.Some? ==>
      r.log.live == (s.log.live + {t.mdStub, t.htmlStub} + (if w.node.wroteOutput then {MdPdf(t)} else {})) - {Html(t)}
        - (if v == Fixed then {t.htmlStub} else {})
    ensures md.Some? ==> r.log.nodes == s.log.nodes + [(Html(t), MdPdf(t))]
  {
    if md.None? then s
    else
      var l := MarkdownToPdf(v, Emit(s.log, Create(t.mdStub)), t, w);
      var temps := s.temps + (if v == Fixed then [t.mdStub] else []);
      if w.node.wroteOutput then St(l, temps + [MdPdf(t)], s.files + [MdPdf(t)], None)
      else St(l, temps, s.files, Some(RenderFailed))
  }

  /**
    The extraction: a `tempnam` name plus ".pdf" receives the pages, in one
    command line with the space-joined page list; the run goes on when the
    file exists, whatever pdftk's status.
   */
  function ExtractStep(v: Variant, s: St, input: Path, pages: seq<int>, t: PhpTemps, w: PhpWorld): (r: St)
    requires s.err.None?
    ensures |pages| == 0 ==> r == s
    ensures r.err.None? <==> |pages| == 0 || w.extract.wroteOutput
    ensures r.err.Some? ==> r.err == Some(ExtractFailed)
    ensures r.files == s.files + (if |pages| > 0 && r.err.None? then [ExtractedPdf(t)] else [])
    ensures |pages| > 0 ==>
      r.temps == s.temps + (if v == Fixed then [t.extractedStub] else []) + (if r.err.None? then [ExtractedPdf(t)] else [])
    ensures r.log.pdftk == s.log.pdftk + (if |pages| > 0 then [StringArgv(input, pages, ExtractedPdf(t))] else [])
    ensures r.log.saves == s.log.saves
    ensures |pages| > 0 ==>
      r.log.live == s.log.live + {t.extractedStub} + (if w.extract.wroteOutput then {ExtractedPdf(t)} else {})
  {
    if |pages| == 0 then s
    else
      var l1 := Emit(Emit(s.log, Create(t.extractedStub)), Pdftk(StringArgv(input, pages, ExtractedPdf(t))));
      var temps := s.temps + (if v == Fixed then [t.extractedStub] else []);
      if w.extract.wroteOutput then St(Emit(l1, Create(ExtractedPdf(t))), temps + [ExtractedPdf(t)], s.files + [ExtractedPdf(t)], None)
      else St(l1, temps, s.files, Some(ExtractFailed))
  }

  /** The merge counts only with status 0 and an output file that exists afterwards; a copy counts when it works. */
  predicate CombineOk(n: nat, w: PhpWorld) {
    (n == 1 && w.copyOk) || (n > 1 && ExitedZero(w.merge) && (w.merge.wroteOutput || w.outExisted))
  }

  /**
    Several files are merged, one file is copied, and none is "No pages to
    extract".
   */
  function CombineStep(s: St, out: Path, w: PhpWorld): (r: St)
    requires s.err.None?
    ensures r.temps == s.temps && r.files == s.files
    ensures r.err.None? <==> CombineOk(|s.files|, w)
    ensures |s.files| == 0 ==> r.err == Some(NoPages)
    ensures |s.files| == 1 && !w.copyOk ==> r.err == Some(CopyFailed)
    ensures r.log.pdftk == s.log.pdftk + (if |s.files| > 1 then [MergeArgv(s.files, out)] else [])
    ensures r.log.saves == s.log.saves
    ensures s.log.live <= r.log.live <= s.log.live + {out}
  {
    if |s.files| == 0 then St(s.log, s.temps, s.files, Some(NoPages))
    else if |s.files| == 1 then
      if w.copyOk then St(Emit(s.log, Create(out)), s.temps, s.files, None)
      else St(s.log, s.temps, s.files, Some(CopyFailed))
    else
      var l1 := Emit(s.log, Pdftk(MergeArgv(s.files, out)));
      var l2 := if w.merge.wroteOutput then Emit(l1, Create(out)) else l1;
      if ExitedZero(w.merge) && (w.merge.wroteOutput || w.outExisted) then St(l2, s.temps, s.files, None)
      else St(l2, s.temps, s.files, Some(MergeFailed))
  }

  /**
    After a failure: the extraction and merge failures delete the listed
    files before they throw; a failed copy throws straight away unless
    corrected. A failed render or "No pages" happens while the list is
    still empty.
   */
  function Abort(v: Variant, s: St): (r: PhpRun)
    requires s.err.Some?
    ensures r.result == Err(s.err.value)
    ensures r.log.saves == s.log.saves && r.log.pdftk == s.log.pdftk
    ensures v == AsWritten && s.err == Some(CopyFailed) ==> r.log == s.log
    ensures v == Fixed || s.err != Some(CopyFailed) ==> r.log.live == s.log.live - Elems(s.temps)
  {
    if v == AsWritten && s.err == Some(CopyFailed) then PhpRun(s.log, Err(CopyFailed))
    else PhpRun(RemoveAll(s.log, s.temps), Err(s.err.value))
  }

  /** `extractPages`. */
  function ExtractPages(v: Variant, input: Path, out: Path, yaml: Path, mdArg: Option<Path>, loaded: Loaded,
                        present: set<Path>, t: PhpTemps, w: PhpWorld): (r: PhpRun)
    ensures !PdftkAvailable(w.which, w.whichBlank) ==> r == PhpRun(Start, Err(PdftkMissing))
    ensures PdftkAvailable(w.which, w.whichBlank) && LoadConfig(loaded).Err? ==>
      r == PhpRun(Start, Err(LoadConfig(loaded).error))
    ensures r.result.Ok? <==>
      PdftkAvailable(w.which, w.whichBlank) && LoadConfig(loaded).Ok? &&
      Succeeds(PhpSelect(LoadConfig(loaded).value), ChosenMarkdown(mdArg, yaml, ArrayDocument(loaded), present), w)
    ensures r.log.saves == (if r.result.Ok? then [out] else [])
    ensures v == Fixed ==> r.log.live <= {out}
  {
    if !PdftkAvailable(w.which, w.whichBlank) then PhpRun(Start, Err(PdftkMissing))
    else
      match LoadConfig(loaded)
      case Err(e) => PhpRun(Start, Err(e))
      case Ok(es) => Stages(v, input, out, PhpSelect(es), ChosenMarkdown(mdArg, yaml, ArrayDocument(loaded), present), t, w)
  }

  /** Reference statement of when a run succeeds; the same for both variants. */
  predicate Succeeds(pages: seq<int>, md: Option<Path>, w: PhpWorld) {
    var n := (if md.Some? then 1 else 0) + (if |pages| > 0 then 1 else 0);
    (md.None? || w.node.wroteOutput) &&
    (|pages| == 0 || w.extract.wroteOutput) &&
    (n == 1 ==> w.copyOk) &&
    (n == 2 ==> ExitedZero(w.merge) && (w.merge.wroteOutput || w.outExisted)) &&
    n > 0
  }

  /**
    The body of `extractPages` once pdftk is found and the configuration is
    read. It succeeds exactly when `Succeeds` holds and prints "Saved to"
    then and only then; the corrected version leaves nothing behind but
    the output file, whichever way it ends.
   */
  function Stages(v: Variant, input: Path, out: Path, pages: seq<int>, md: Option<Path>, t: PhpTemps, w: PhpWorld): (r: PhpRun)
    ensures r.result.Ok? <==> Succeeds(pages, md, w)
    ensures r.result.Ok? ==> r.result.value == out
    ensures r.log.saves == (if r.result.Ok? then [out] else [])
    ensures v == Fixed ==> r.log.live <= {out}
  {
    var s1 := MarkdownStep(v, St(Start, [], [], None), md, t, w);
    assert v == Fixed ==> s1.log.live <= Elems(s1.temps);
    if s1.err.Some? then Abort(v, s1) else AfterMarkdown(v, s1, input, out, pages, t, w)
  }

  /**
    From the extraction on: the run succeeds when the extraction (if any)
    and the combination of all files succeed. Whatever was live and not
    listed stays live, except the extraction's files; the corrected version
    deletes everything it lists.
   */
  function AfterMarkdown(v: Variant, s1: St, input: Path, out: Path, pages: seq<int>, t: PhpTemps, w: PhpWorld): (r: PhpRun)
    requires s1.err.None?
    ensures r.result.Ok? <==>
      (|pages| == 0 || w.extract.wroteOutput) && CombineOk(|s1.files| + (if |pages| > 0 then 1 else 0), w)
    ensures r.result.Ok? ==> r.result.value == out
    ensures r.log.saves == s1.log.saves + (if r.result.Ok? then [out] else [])
    ensures |pages| > 0 ==>
      (|r.log.pdftk| > |s1.log.pdftk| && r.log.pdftk[|s1.log.pdftk|] == StringArgv(input, pages, ExtractedPdf(t)))
    ensures s1.log.live - Elems(s1.temps) - {t.extractedStub, ExtractedPdf(t)} <= r.log.live
    ensures v == Fixed && s1.log.live <= Elems(s1.temps) ==> r.log.live <= {out}
  {
    var s2 := ExtractStep(v, s1, input, pages, t, w);
    ExtractTemps(v, s1, input, pages, t, w);
    if s2.err.Some? then Abort(v, s2) else Finish(v, s2, out, w)
  }

  /** The combination and the final cleanup. */
  function Finish(v: Variant, s2: St, out: Path, w: PhpWorld): (r: PhpRun)
    requires s2.err.None?
    ensures r.result.Ok? <==> CombineOk(|s2.files|, w)
    ensures r.result.Ok? ==> r.result.value == out
    ensures r.log.saves == s2.log.saves + (if r.result.Ok? then [out] else [])
    ensures r.log.pdftk == s2.log.pdftk + (if |s2.files| > 1 then [MergeArgv(s2.files, out)] else [])
    ensures s2.log.live - Elems(s2.temps) <= r.log.live
    ensures v == Fixed ==> r.log.live <= (s2.log.live - Elems(s2.temps)) + {out}
  {
    var s3 := CombineStep(s2, out, w);
    if s3.err.Some? then Abort(v, s3)
    else PhpRun(Emit(RemoveAll(s3.log, s3.temps), Saved(out)), Ok(out))
  }

  /**
    Extraction only adds its own two files to the temporary list, and in the
    fixed variant every file it creates is on that list.
   */
  lemma ExtractTemps(v: Variant, s: St, input: Path, pages: seq<int>, t: PhpTemps, w: PhpWorld)
    requires s.err.None?
    ensures var r := ExtractStep(v, s, input, pages, t, w);
      Elems(s.temps) <= Elems(r.temps) <= Elems(s.temps) + {t.extractedStub, ExtractedPdf(t)}
    ensures var r := ExtractStep(v, s, input, pages, t, w);
      v == Fixed && s.log.live <= Elems(s.temps) ==> r.log.live <= Elems(r.temps)
  {
    var r := ExtractStep(v, s, input, pages, t, w);
    if |pages| > 0 {
      var stub := if v == Fixed then [t.extractedStub] else [];
      var pdf := if r.err.None? then [ExtractedPdf(t)] else [];
      ElemsAppend(s.temps, stub);
      ElemsAppend(s.temps + stub, pdf);
    }
  }

  lemma ElemsAppend<T>(a: seq<T>, b: seq<T>)
    ensures Elems(a + b) == Elems(a) + Elems(b)
  {
  }

  /**
    As written, a run that renders Markdown leaves both `tempnam` files of
    the renderer behind, whatever happens afterwards; the names are assumed
    distinct from the files the run deletes.
   */
  lemma AsWrittenLeaksMarkdownStubs(input: Path, out: Path, pages: seq<int>, md: Path, t: PhpTemps, w: PhpWorld)
    requires t.mdStub !in {Html(t), ExtractedPdf(t), t.extractedStub}
    requires t.htmlStub !in {MdPdf(t), ExtractedPdf(t), t.extractedStub}
    ensures var live := Stages(AsWritten, input, out, pages, Some(md), t, w).log.live;
      t.mdStub in live && t.htmlStub in live
  {
    var s1 := MarkdownStep(AsWritten, St(Start, [], [], None), Some(md), t, w);
    MarkdownKeepsStubs(md, t, w);
    var r := Stages(AsWritten, input, out, pages, Some(md), t, w);
    if s1.err.Some? {
      assert r == Abort(AsWritten, s1);
    } else {
      assert r == AfterMarkdown(AsWritten, s1, input, out, pages, t, w);
    }
  }

  /** After the render step as written, both `tempnam` files are live and not listed for deletion. */
  lemma MarkdownKeepsStubs(md: Path, t: PhpTemps, w: PhpWorld)
    requires t.mdStub !in {Html(t), ExtractedPdf(t), t.extractedStub}
    requires t.htmlStub !in {MdPdf(t), ExtractedPdf(t), t.extractedStub}
    ensures var s1 := MarkdownStep(AsWritten, St(Start, [], [], None), Some(md), t, w);
      {t.mdStub, t.htmlStub} <= s1.log.live - Elems(s1.temps) - {t.extractedStub, ExtractedPdf(t)}
  {
    WithExtDiffers(t.mdStub, ".pdf");
    WithExtDiffers(t.htmlStub, ".html");
    var s1 := MarkdownStep(AsWritten, St(Start, [], [], None), Some(md), t, w);
    assert Elems(s1.temps) <= {MdPdf(t)};
    assert t.mdStub in s1.log.live && t.mdStub !in Elems(s1.temps);
    assert t.htmlStub in s1.log.live && t.htmlStub !in Elems(s1.temps);
  }

  /**
    As written, a run that extracts pages leaves the extraction's `tempnam`
    file behind; the corrected version leaves nothing but the output.
   */
  lemma AsWrittenLeaksExtractionStub(input: Path, out: Path, pages: seq<int>, t: PhpTemps, w: PhpWorld)
    requires |pages| > 0
    ensures t.extractedStub in Stages(AsWritten, input, out, pages, None, t, w).log.live
    ensures Stages(Fixed, input, out, pages, None, t, w).log.live <= {out}
  {
    WithExtDiffers(t.extractedStub, ".pdf");
    var s1 := St(Start, [], [], None);
    var s2 := ExtractStep(AsWritten, s1, input, pages, t, w);
    assert t.extractedStub in s2.log.live - Elems(s2.temps);
    var r := AfterMarkdown(AsWritten, s1, input, out, pages, t, w);
    if s2.err.Some? {
      assert r == Abort(AsWritten, s2);
    } else {
      assert r == Finish(AsWritten, s2, out, w);
    }
  }

  /**
    As written, a failed copy of the only artifact leaves that artifact
    behind; the corrected version deletes it.
   */
  lemma CopyFailureLeaks(input: Path, out: Path, md: Path, t: PhpTemps, w: PhpWorld)
    requires w.node.wroteOutput && !w.copyOk
    requires MdPdf(t) != Html(t) && MdPdf(t) != t.htmlStub
    ensures var r := Stages(AsWritten, input, out, [], Some(md), t, w);
      r.result == Err(CopyFailed) && MdPdf(t) in r.log.live
    ensures var r := Stages(Fixed, input, out, [], Some(md), t, w);
      r.result == Err(CopyFailed) && MdPdf(t) !in r.log.live
  {
    var s1 := MarkdownStep(AsWritten, St(Start, [], [], None), Some(md), t, w);
    assert MdPdf(t) in s1.log.live;
    var s3 := CombineStep(s1, out, w);
    assert AfterMarkdown(AsWritten, s1, input, out, [], t, w) == Abort(AsWritten, s3);
    var f1 := MarkdownStep(Fixed, St(Start, [], [], None), Some(md), t, w);
    var f3 := CombineStep(f1, out, w);
    assert AfterMarkdown(Fixed, f1, input, out, [], t, w) == Abort(Fixed, f3);
    assert MdPdf(t) in Elems(f3.temps);
  }

  /**
    Neither the renderer's nor the extraction's exit status is looked at:
    processes that fail but leave their file behind let the run succeed.
   */
  lemma StatusIgnored(v: Variant, input: Path, out: Path, md: Path, t: PhpTemps, w: PhpWorld)
    requires w.node == Proc(true, 1, true) && w.extract == Proc(true, 1, true)
    requires ExitedZero(w.merge) && w.merge.wroteOutput
    ensures Stages(v, input, out, [1], Some(md), t, w).result == Ok(out)
  {
  }

  /** The command line pdftk receives for the extraction is the argument vector the others build directly. */
  lemma StagesCommand(v: Variant, input: Path, out: Path, pages: seq<int>, md: Option<Path>, t: PhpTemps, w: PhpWorld)
    requires |pages| > 0
    requires md.None? || w.node.wroteOutput
    ensures var r := Stages(v, input, out, pages, md, t, w);
      |r.log.pdftk| > 0 && r.log.pdftk[0] == ExtractArgv(input, pages, ExtractedPdf(t))
  {
    var s1 := MarkdownStep(v, St(Start, [], [], None), md, t, w);
    assert s1.err.None? && s1.log.pdftk == [];
    assert Stages(v, input, out, pages, md, t, w) == AfterMarkdown(v, s1, input, out, pages, t, w);
    StringArgvAgrees(input, pages, ExtractedPdf(t));
  }

  /** With nothing selected and no Markdown page the run fails with "No pages to extract". */
  lemma NothingSelectedFails(v: Variant, input: Path, out: Path, yaml: Path, d: Document, present: set<Path>,
                             t: PhpTemps, w: PhpWorld)
    requires PdftkAvailable(w.which, w.whichBlank)
    requires (d.pages == List([]) || d.pages == ListMissing) && d.appendFirstPage.None?
    ensures ExtractPages(v, input, out, yaml, None, Mapped(d), present, t, w).result == Err(NoPages)
  {
    assert PhpSelect([]) == [];
  }
}
