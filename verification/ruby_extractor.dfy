/**
  The Ruby `Extractor` (ruby/lib/pdf_extractor/extractor.rb). Unlike the
  temporary-directory family it keeps a list of individual temporary files
  (`create_temp_file`), each made by `Tempfile.new` before anything writes
  to it, and deletes that list on success and in the `rescue` clause alike.
  It refuses to run without pdftk, validates the configuration, reports "No
  pages to extract" when there is nothing to write, and requires a merged
  output file to exist.

  The Markdown converter (markdown_converter.rb) is modelled to the extent
  the pipeline depends on it: it refuses a missing Markdown file, renders
  through a `Tempfile.create` block whose HTML file is always deleted, and
  fails on a non-zero renderer status.
 */
module RubyExtractor {
  import opened Base
  import opened Paths
  import opened Commands
  import opened ConfigDoc
  import opened DynamicSelection
  import opened Temps

  datatype RubyError =
    | PdftkMissing
    | ConfigNotFound
    | InvalidYaml
    | NotAHash
    | PagesNotArray
    | MarkdownNotFound
    | RenderFailed
    | ExtractFailed
    | NoPages
    | CopyFailed
    | MergeFailed

  /** What the outside world does during one run. */
  datatype RubyWorld = RubyWorld(
    which: Proc, whichBlank: bool,   // `which pdftk` and whether it printed nothing
    node: Proc,                      // the renderer
    extract: Proc,                   // pdftk extracting pages
    merge: Proc,                     // pdftk merging
    copyOk: bool,                    // `FileUtils.cp` of an existing file succeeds
    outExisted: bool)                // the output file existed before the run

  /** The names `Tempfile` hands out. */
  datatype RubyTemps = RubyTemps(markdown: Path, html: Path, extracted: Path)

  /** A run in progress: the log, the `@temp_files` list, the files to merge, and the first error. */
  datatype St = St(log: Log, temps: seq<Path>, files: seq<Path>, err: Option<RubyError>)

  datatype RubyRun = RubyRun(log: Log, result: Result<Path, RubyError>)

  /** `load_config` and `validate_config!`: the page entries of a usable configuration. */
  function LoadConfig(l: Loaded): (r: Result<seq<Entry>, RubyError>)
    ensures r.Ok? <==> l.Mapped? && l.doc.pages.List?
    ensures r.Ok? ==> r.value == l.doc.pages.entries
    ensures l.FileMissing? ==> r == Err(ConfigNotFound)
    ensures l.SyntaxError? ==> r == Err(InvalidYaml)
    ensures l.EmptyDocument? || l.NotMapping? ==> r == Err(NotAHash)
    ensures l.Mapped? && !l.doc.pages.List? ==> r == Err(PagesNotArray)
  {
    match l
    case FileMissing => Err(ConfigNotFound)
    case SyntaxError => Err(InvalidYaml)
    case EmptyDocument => Err(NotAHash)
    case NotMapping(_) => Err(NotAHash)
    case Mapped(d) => if d.pages.List? then Ok(d.pages.entries) else Err(PagesNotArray)
  }

  /**
    `should_include_markdown?` together with the path it leaves in
    `@markdown_path`: an existing `--markdown` file wins; without
    `appendFirstPage` there is no Markdown page; otherwise the file named by
    `appendFirstPage` next to the configuration is used when it exists, and
    else whatever `--markdown` said, existing or not.
   */
  function IncludeMarkdown(mdArg: Option<Path>, append: Option<Path>, config: Path, present: set<Path>): (r: Option<Path>)
    ensures mdArg.Some? && mdArg.value in present ==> r == mdArg
    ensures r.Some? && r.value !in present ==> r == mdArg && append.Some?
    ensures r.None? <==>
      (mdArg.None? || mdArg.value !in present) &&
      (append.None? || (Join(Dir(config), append.value) !in present && mdArg.None?))
    ensures r.Some? && r != mdArg ==> append.Some? && r.value == Join(Dir(config), append.value)
  {
    if mdArg.Some? && mdArg.value in present then mdArg
    else if append.None? then None
    else if Join(Dir(config), append.value) in present then Some(Join(Dir(config), append.value))
    else mdArg
  }

  /** `create_temp_file`: the file exists from now on and is remembered for cleanup. */
  function CreateTemp(s: St, p: Path): (r: St)
    ensures r.log.live == s.log.live + {p} && r.temps == s.temps + [p]
    ensures r.log.pdftk == s.log.pdftk && r.log.saves == s.log.saves && r.files == s.files && r.err == s.err
  {
    St(Emit(s.log, Create(p)), s.temps + [p], s.files, s.err)
  }

  /** `create_markdown_pdf`: a temporary PDF, then the converter writes the page into it. */
  function MarkdownStep(s: St, md: Option<Path>, present: set<Path>, t: RubyTemps, w: RubyWorld): (r: St)
    requires s.err.None?
    ensures md.None? ==> r == s
    ensures md.Some? ==> r.temps == s.temps + [t.markdown]
    ensures r.err.None? <==> md.None? || (md.value in present && ExitedZero(w.node))
    ensures md.Some? && md.value !in present ==> r.err == Some(MarkdownNotFound)
    ensures r.files == s.files + (if md.Some? && r.err.None? then [t.markdown] else [])
    ensures r.log.pdftk == s.log.pdftk && r.log.saves == s.log.saves
    ensures forall q :: q in r.log.live ==> q in s.log.live || q == t.markdown
    ensures md.Some? ==> t.markdown in r.log.live || t.markdown == t.html
  {
    if md.None? then s
    else
      var s1 := CreateTemp(s, t.markdown);
      if md.value !in present then St(s1.log, s1.temps, s1.files, Some(MarkdownNotFound))
      else
        var l1 := Emit(Emit(s1.log, Create(t.html)), Node(t.html, t.markdown));
        var l2 := if w.node.wroteOutput then Emit(l1, Create(t.markdown)) else l1;
        var l3 := Emit(l2, Remove(t.html));
        if ExitedZero(w.node) then St(l3, s1.temps, s1.files + [t.markdown], None)
        else St(l3, s1.temps, s1.files, Some(RenderFailed))
  }

  /**
    `extract_pdf_pages`: pdftk receives the page list joined by spaces inside
    one command line; its exit status decides. The existence check that
    follows cannot fail, since `Tempfile` created the file beforehand.
   */
  function ExtractStep(s: St, input: Path, pages: seq<int>, t: RubyTemps, w: RubyWorld): (r: St)
    requires s.err.None?
    ensures |pages| == 0 ==> r == s
    ensures |pages| > 0 ==> r.temps == s.temps + [t.extracted]
    ensures r.err.None? <==> |pages| == 0 || ExitedZero(w.extract)
    ensures r.files == s.files + (if |pages| > 0 && r.err.None? then [t.extracted] else [])
    ensures r.log.pdftk == s.log.pdftk + (if |pages| > 0 then [StringArgv(input, pages, t.extracted)] else [])
    ensures r.log.saves == s.log.saves
    ensures r.log.live == s.log.live + (if |pages| > 0 then {t.extracted} else {})
  {
    if |pages| == 0 then s
    else
      var s1 := CreateTemp(s, t.extracted);
      var l1 := Emit(s1.log, Pdftk(StringArgv(input, pages, t.extracted)));
      var l2 := if w.extract.wroteOutput then Emit(l1, Create(t.extracted)) else l1;
      if ExitedZero(w.extract) then St(l2, s1.temps, s1.files + [t.extracted], None)
      else St(l2, s1.temps, s1.files, Some(ExtractFailed))
  }

  /**
    `merge_or_copy_files`: nothing is an error, one file is copied, several
    are merged, and a merge counts only with status 0 and an output file
    that exists afterwards.
   */
  function CombineStep(s: St, out: Path, w: RubyWorld): (r: St)
    requires s.err.None?
    ensures r.temps == s.temps && r.files == s.files
    ensures r.err.None? <==>
      (|s.files| == 1 && w.copyOk) ||
      (|s.files| > 1 && ExitedZero(w.merge) && (w.merge.wroteOutput || w.outExisted))
    ensures |s.files| == 0 ==> r.err == Some(NoPages)
    ensures r.log.pdftk == s.log.pdftk + (if |s.files| > 1 then [MergeArgv(s.files, out)] else [])
    ensures r.log.saves == s.log.saves
    ensures forall q :: q in r.log.live ==> q in s.log.live || q == out
  {
    if |s.files| == 0 then St(s.log, s.temps, s.files, Some(NoPages))
    else if |s.files| == 1 then
      if w.copyOk then St(Emit(s.log, Create(out)), s.temps, s.files, None)
      else St(s.log, s.temps, s.files, Some(CopyFailed))
    else
      var l1 := Emit(s.log, Pdftk(MergeArgv(s.files, out)));
      var l2 := if w.merge.wroteOutput then Emit(l1, Create(out)) else l1;
      if ExitedZero(w.merge) && (w.merge.wroteOutput || w.outExisted) then St(l2, s.temps, s.files, None)
      else St(l2, s.temps, s.files, Some(MergeFailed))
  }

  /** `cleanup_temp_files` on a run: the remembered files are deleted and the list is emptied. */
  function CleanupTemps(s: St): (r: St)
    ensures r.temps == [] && r.files == s.files && r.err == s.err
    ensures r.log.live == s.log.live - Elems(s.temps)
    ensures r.log.pdftk == s.log.pdftk && r.log.saves == s.log.saves
  {
    St(RemoveAll(s.log, s.temps), [], s.files, s.err)
  }

  /** Because the list is emptied, a second cleanup does nothing at all. */
  lemma CleanupTwice(s: St)
    ensures CleanupTemps(CleanupTemps(s)) == CleanupTemps(s)
  {
  }

  /** After a failure: clean up and re-raise. */
  function Abort(s: St): (r: RubyRun)
    requires s.err.Some?
    ensures r.result == Err(s.err.value)
    ensures r.log.live == s.log.live - Elems(s.temps)
    ensures r.log.pdftk == s.log.pdftk && r.log.saves == s.log.saves
  {
    RubyRun(CleanupTemps(s).log, Err(s.err.value))
  }

  /** `extract_pages`. */
  function ExtractPages(input: Path, out: Path, config: Path, mdArg: Option<Path>, loaded: Loaded,
                        present: set<Path>, t: RubyTemps, w: RubyWorld): RubyRun
  {
    if !PdftkAvailable(w.which, w.whichBlank) then RubyRun(Start, Err(PdftkMissing))
    else
      match LoadConfig(loaded)
      case Err(e) => RubyRun(Start, Err(e))
      case Ok(es) =>
        Stages(input, out, RubySelect(es), ChosenMarkdown(config, mdArg, loaded, present), present, t, w)
  }

  /** The body of `extract_pages` once pdftk is found and the configuration is read. */
  function Stages(input: Path, out: Path, pages: seq<int>, md: Option<Path>,
                  present: set<Path>, t: RubyTemps, w: RubyWorld): RubyRun
  {
    var s1 := MarkdownStep(St(Start, [], [], None), md, present, t, w);
    if s1.err.Some? then Abort(s1) else AfterMarkdown(s1, input, out, pages, t, w)
  }

  /** `merge_or_copy_files` succeeds on this many files. */
  predicate CombineOk(n: nat, w: RubyWorld) {
    (n == 1 && w.copyOk) || (n > 1 && ExitedZero(w.merge) && (w.merge.wroteOutput || w.outExisted))
  }

  /**
    From the extraction on: the run succeeds when the extraction (if any)
    and the combination of all files succeed, and prints "Saved to" then.
    When everything live so far is on the cleanup list, nothing but the
    output is live at the end.
   */
  function AfterMarkdown(s1: St, input: Path, out: Path, pages: seq<int>, t: RubyTemps, w: RubyWorld): (r: RubyRun)
    requires s1.err.None?
    ensures r.result.Ok? <==>
      (|pages| == 0 || ExitedZero(w.extract)) && CombineOk(|s1.files| + (if |pages| > 0 then 1 else 0), w)
    ensures r.result.Ok? ==> r.result.value == out
    ensures r.log.saves == s1.log.saves + (if r.result.Ok? then [out] else [])
    ensures |pages| > 0 ==>
      (|r.log.pdftk| > |s1.log.pdftk| && r.log.pdftk[|s1.log.pdftk|] == StringArgv(input, pages, t.extracted))
    ensures s1.log.live <= Elems(s1.temps) ==> r.log.live <= {out}
  {
    var s2 := ExtractStep(s1, input, pages, t, w);
    assert Elems(s2.temps) == Elems(s1.temps) + (if |pages| > 0 then {t.extracted} else {});
    if s2.err.Some? then Abort(s2) else Finish(s2, out, w)
  }

  /** The combination, then the cleanup and "Saved to". */
  function Finish(s2: St, out: Path, w: RubyWorld): (r: RubyRun)
    requires s2.err.None?
    ensures r.result.Ok? <==> CombineOk(|s2.files|, w)
    ensures r.result.Ok? ==> r.result.value == out
    ensures r.log.saves == s2.log.saves + (if r.result.Ok? then [out] else [])
    ensures r.log.pdftk == s2.log.pdftk + (if |s2.files| > 1 then [MergeArgv(s2.files, out)] else [])
    ensures r.log.live <= (s2.log.live - Elems(s2.temps)) + {out}
  {
    var s3 := CombineStep(s2, out, w);
    if s3.err.Some? then Abort(s3) else RubyRun(Emit(CleanupTemps(s3).log, Saved(out)), Ok(out))
  }

  /** The Markdown file the run uses, as a function of the inputs alone. */
  function ChosenMarkdown(config: Path, mdArg: Option<Path>, loaded: Loaded, present: set<Path>): Option<Path>
    requires loaded.Mapped?
  {
    IncludeMarkdown(mdArg, loaded.doc.appendFirstPage, config, present)
  }

  /** Reference statement of when a run succeeds. */
  predicate Succeeds(pages: seq<int>, md: Option<Path>, present: set<Path>, w: RubyWorld) {
    var n := (if md.Some? then 1 else 0) + (if |pages| > 0 then 1 else 0);
    (md.None? || (md.value in present && ExitedZero(w.node))) &&
    (|pages| == 0 || ExitedZero(w.extract)) &&
    (n == 1 ==> w.copyOk) &&
    (n == 2 ==> ExitedZero(w.merge) && (w.merge.wroteOutput || w.outExisted)) &&
    n > 0
  }

  /** The stages succeed exactly when `Succeeds` holds, and print "Saved to" then and only then. */
  lemma StagesOutcome(input: Path, out: Path, pages: seq<int>, md: Option<Path>,
                      present: set<Path>, t: RubyTemps, w: RubyWorld)
    ensures var r := Stages(input, out, pages, md, present, t, w);
      (r.result.Ok? <==> Succeeds(pages, md, present, w)) &&
      r.log.saves == (if r.result.Ok? then [out] else [])
  {
    var s1 := MarkdownStep(St(Start, [], [], None), md, present, t, w);
    if s1.err.None? {
      AfterMarkdownOutcome(s1, input, out, pages, md, present, t, w);
    }
  }

  /** The outcome from the extraction on, after a Markdown step that succeeded. */
  lemma AfterMarkdownOutcome(s1: St, input: Path, out: Path, pages: seq<int>, md: Option<Path>,
                             present: set<Path>, t: RubyTemps, w: RubyWorld)
    requires s1.err.None? && s1.log.saves == [] && |s1.files| == (if md.Some? then 1 else 0)
    requires md.None? || (md.value in present && ExitedZero(w.node))
    ensures var r := AfterMarkdown(s1, input, out, pages, t, w);
      (r.result.Ok? <==> Succeeds(pages, md, present, w)) &&
      r.log.saves == (if r.result.Ok? then [out] else [])
  {
  }

  /** Whichever way the stages end, every temporary file is gone. */
  lemma StagesCleansUp(input: Path, out: Path, pages: seq<int>, md: Option<Path>,
                       present: set<Path>, t: RubyTemps, w: RubyWorld)
    ensures Stages(input, out, pages, md, present, t, w).log.live <= {out}
  {
    var s1 := MarkdownStep(St(Start, [], [], None), md, present, t, w);
    assert s1.log.live <= Elems(s1.temps);
  }

  /**
    A run succeeds exactly when pdftk is installed, the configuration is
    usable and `Succeeds` holds; it then prints "Saved to" once, and
    otherwise not at all.
   */
  lemma ExtractPagesOutcome(input: Path, out: Path, config: Path, mdArg: Option<Path>, loaded: Loaded,
                            present: set<Path>, t: RubyTemps, w: RubyWorld)
    ensures var r := ExtractPages(input, out, config, mdArg, loaded, present, t, w);
      (r.result.Ok? <==>
        PdftkAvailable(w.which, w.whichBlank) && LoadConfig(loaded).Ok? &&
        Succeeds(RubySelect(loaded.doc.pages.entries), ChosenMarkdown(config, mdArg, loaded, present), present, w)) &&
      r.log.saves == (if r.result.Ok? then [out] else [])
  {
    if PdftkAvailable(w.which, w.whichBlank) && LoadConfig(loaded).Ok? {
      StagesOutcome(input, out, RubySelect(loaded.doc.pages.entries),
                    ChosenMarkdown(config, mdArg, loaded, present), present, t, w);
    }
  }

  /** Every temporary file is gone when the run ends, whichever way it ends. */
  lemma ExtractPagesCleansUp(input: Path, out: Path, config: Path, mdArg: Option<Path>, loaded: Loaded,
                             present: set<Path>, t: RubyTemps, w: RubyWorld)
    ensures ExtractPages(input, out, config, mdArg, loaded, present, t, w).log.live <= {out}
  {
    if PdftkAvailable(w.which, w.whichBlank) && LoadConfig(loaded).Ok? {
      StagesCleansUp(input, out, RubySelect(loaded.doc.pages.entries),
                     ChosenMarkdown(config, mdArg, loaded, present), present, t, w);
    }
  }

  /**
    The command line pdftk receives for the extraction is the argument vector
    the other implementations build directly.
   */
  lemma StagesCommand(input: Path, out: Path, pages: seq<int>, md: Option<Path>,
                      present: set<Path>, t: RubyTemps, w: RubyWorld)
    requires |pages| > 0
    requires md.None? || (md.value in present && ExitedZero(w.node))
    ensures var r := Stages(input, out, pages, md, present, t, w);
      |r.log.pdftk| > 0 && r.log.pdftk[0] == ExtractArgv(input, pages, t.extracted)
  {
    StringArgvAgrees(input, pages, t.extracted);
    var s1 := MarkdownStep(St(Start, [], [], None), md, present, t, w);
    assert s1.err.None? && s1.log.pdftk == [];
  }

  /**
    With nothing selected and no Markdown page the run fails with "No pages
    to extract" (the temporary-directory implementations report success).
   */
  lemma NothingSelectedFails(input: Path, out: Path, config: Path, d: Document, present: set<Path>,
                             t: RubyTemps, w: RubyWorld)
    requires PdftkAvailable(w.which, w.whichBlank)
    requires d.pages == List([]) && d.appendFirstPage.None?
    ensures ExtractPages(input, out, config, None, Mapped(d), present, t, w).result == Err(NoPages)
  {
    assert RubySelect([]) == [];
  }

  /**
    The check after extraction never fires: pdftk exiting with status 0
    without writing anything still counts as a successful extraction.
   */
  lemma ExtractCheckVacuous(s: St, input: Path, pages: seq<int>, t: RubyTemps, w: RubyWorld)
    requires s.err.None? && |pages| > 0
    requires ExitedZero(w.extract) && !w.extract.wroteOutput
    ensures ExtractStep(s, input, pages, t, w).err.None?
    ensures t.extracted in ExtractStep(s, input, pages, t, w).files
  {
  }
}
