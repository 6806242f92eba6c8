/**
  Whole runs of the programs that build their output in a temporary
  directory: Go (`internal/cli/cmd.go` and `main.go`), .NET, Java, Kotlin
  and Rust. A run follows its entry-point plan; when the plan proceeds,
  `extractPages` collects the page numbers from the configuration it reads
  (the same file the plan read) and hands exactly that selection to the
  assembly in the temporary directory.

  .NET, Java and Kotlin deserialise an empty document to `null`, and .NET
  and Java keep an explicit `pages: null`; iterating either dereferences
  null after the input was found, and the run ends with status 1.
 */
module Runs {
  import opened Base
  import opened Paths
  import opened ConfigDoc
  import opened Selection
  import opened Commands
  import opened Render
  import opened Assembly
  import opened Entry

  /** How a run ends. */
  datatype Execution =
    | Stopped(plan: Plan)              // before extraction: the plan aborted or reported a missing input
    | ConfigThrew                      // reading the page list for extraction failed
    | Ran(pages: seq<int>, run: Run)   // the selection and the assembly it was handed to

  /** The exit status: the plan's, 1 for an exception, 0 after "Saved to" and 1 after a failed step. */
  function Status(e: Execution): (s: int)
    ensures e.Stopped? && !e.plan.Proceed? ==> s == e.plan.status
    ensures e.ConfigThrew? ==> s == 1
    ensures e.Ran? ==> (s == 0 <==> e.run.outcome.Done?)
  {
    match e
    case Stopped(p) => if p.Proceed? then 0 else p.status
    case ConfigThrew => 1
    case Ran(_, r) => if r.outcome.Done? then 0 else 1
  }

  /** .NET, Java and Kotlin read the page list of a configuration that may be null. */
  predicate NullConfigThrows(impl: Impl) {
    impl != GoImpl && impl != RustImpl
  }

  /** .NET and Java store an explicit `pages: null` and then iterate it. */
  predicate NullPagesThrow(impl: Impl) {
    impl == DotNetImpl || impl == DotNetFixedImpl || impl == JavaImpl
  }

  /**
    The loop of `extractPages` over the configuration's entries: the
    effective index of each (`pageIndex`, else `page`), first occurrences
    only, in order; None when the configuration cannot be decoded or the
    language dereferences a null configuration or page list.
   */
  function SelectedPages(impl: Impl, loaded: Loaded): (r: Option<seq<int>>)
    ensures r.None? <==>
      LoadConfig(loaded).Err? ||
      (NullConfigThrows(impl) && loaded.EmptyDocument?) ||
      (NullPagesThrow(impl) && loaded.Mapped? && loaded.doc.pages.ListNull?)
    ensures r.Some? ==> r.value == Selected(LoadConfig(loaded).value.pages)
  {
    if NullConfigThrows(impl) && loaded.EmptyDocument? then None
    else if NullPagesThrow(impl) && loaded.Mapped? && loaded.doc.pages.ListNull? then None
    else
      match LoadConfig(loaded)
      case Err(_) => None
      case Ok(cfg) => Some(Selected(cfg.pages))
  }

  /** .NET tests the Markdown path with `IsNullOrEmpty`; the others only for null. */
  function WithMarkdown(impl: Impl, md: Option<Path>): bool {
    if impl == DotNetImpl || impl == DotNetFixedImpl then Given(md) else md.Some?
  }

  /** A plan carried out: the plan's input, Markdown file and output, and the configuration's selection. */
  function Execute(impl: Impl, plan: Plan, loaded: Loaded, work: Path, t: TempNames, w: World): (r: Execution)
    ensures !plan.Proceed? ==> r == Stopped(plan)
    ensures plan.Proceed? ==> !r.Stopped?
    ensures plan.Proceed? ==> (r.ConfigThrew? <==> SelectedPages(impl, loaded).None?)
    ensures r.Ran? ==> r.pages == Selected(LoadConfig(loaded).value.pages)
    ensures r.Ran? ==>
      var mdOk := !WithMarkdown(impl, plan.markdown) || (w.mdReadable && RenderSucceeds(RendererOf(impl), w.node));
      var ex := if mdOk && |r.pages| > 0 then [ExtractArgv(plan.input, r.pages, Extracted(work))] else [];
      |ex| <= |r.run.log.pdftk| && r.run.log.pdftk[..|ex|] == ex
  {
    if !plan.Proceed? then Stopped(plan)
    else
      match SelectedPages(impl, loaded)
      case None => ConfigThrew
      case Some(pages) =>
        var md := WithMarkdown(impl, plan.markdown);
        var out := plan.output.GetOr(Here);
        AssembleCalls(impl, plan.input, pages, md, out, work, t, w);
        Ran(pages, Assemble(impl, plan.input, pages, md, out, work, t, w))
  }

  /**
    The selected pages reach pdftk unchanged: once the Markdown step has
    not failed, the first pdftk call extracts exactly the configuration's
    selection, in order, from the plan's input; nothing selected means no
    extraction call at all.
   */
  lemma SelectionReachesPdftk(impl: Impl, plan: Plan, loaded: Loaded, work: Path, t: TempNames, w: World)
    requires plan.Proceed? && SelectedPages(impl, loaded).Some?
    requires !WithMarkdown(impl, plan.markdown) || (w.mdReadable && RenderSucceeds(RendererOf(impl), w.node))
    ensures var r := Execute(impl, plan, loaded, work, t, w);
      var pages := Selected(LoadConfig(loaded).value.pages);
      r.Ran? &&
      (pages != [] ==>
        |r.run.log.pdftk| > 0 &&
        ParseExtractArgv(r.run.log.pdftk[0]) == Some(ExtractCall(plan.input, pages, Extracted(work)))) &&
      (pages == [] ==> r.run.log.pdftk == [])
  {
    var pages := Selected(LoadConfig(loaded).value.pages);
    var md := WithMarkdown(impl, plan.markdown);
    AssembleCalls(impl, plan.input, pages, md, plan.output.GetOr(Here), work, t, w);
    ExtractArgvRoundTrip(plan.input, pages, Extracted(work));
  }

  // ------------------------------------------------------------------ one run per program

  /** golang/internal/cli/cmd.go: `cfg.ExtractPageIndices()` of the loaded configuration goes to the processor. */
  function GoCmdRun(f: Flags, loaded: Loaded, present: set<Path>, work: Path, t: TempNames, w: World): (r: Execution)
    ensures r.Stopped? <==> !GoCmdPlan(f, loaded, present).Proceed?
    ensures !r.ConfigThrew?
    ensures r.Ran? ==> r.pages == Selected(LoadConfig(loaded).value.pages)
  {
    Execute(GoImpl, GoCmdPlan(f, loaded, present), loaded, work, t, w)
  }

  /** golang/main.go: `extractPages` reads the `--yaml` file again and selects from it. */
  function GoMainRun(f: Flags, loaded: Loaded, present: set<Path>, work: Path, t: TempNames, w: World): (r: Execution)
    ensures r.Stopped? <==> !GoMainPlan(f, loaded, present).Proceed?
    ensures !r.ConfigThrew?
    ensures r.Ran? ==> r.pages == Selected(LoadConfig(loaded).value.pages)
  {
    Execute(GoImpl, GoMainPlan(f, loaded, present), loaded, work, t, w)
  }

  /** dotnet/Program.cs: `ExtractPages` deserialises the file again and iterates `config.Pages`. */
  function DotNetRun(f: Flags, loaded: Loaded, present: set<Path>, work: Path, t: TempNames, w: World): (r: Execution)
    ensures r.Stopped? <==> !DotNetPlan(f, loaded, present).Proceed?
    ensures r.ConfigThrew? <==>
      DotNetPlan(f, loaded, present).Proceed? &&
      (loaded.EmptyDocument? || (loaded.Mapped? && loaded.doc.pages.ListNull?))
    ensures r.Ran? ==> r.pages == Selected(LoadConfig(loaded).value.pages)
  {
    Execute(DotNetImpl, DotNetPlan(f, loaded, present), loaded, work, t, w)
  }

  /** java/…/PdfExtractor.java: the loop over `config.pages` after the existence check. */
  function JavaRun(f: Flags, loaded: Loaded, present: set<Path>, work: Path, t: TempNames, w: World): (r: Execution)
    ensures r.Stopped? <==> !JavaPlan(f, loaded, present).Proceed?
    ensures r.ConfigThrew? <==>
      JavaPlan(f, loaded, present).Proceed? &&
      (loaded.EmptyDocument? || (loaded.Mapped? && loaded.doc.pages.ListNull?))
    ensures r.Ran? ==> r.pages == Selected(LoadConfig(loaded).value.pages)
  {
    Execute(JavaImpl, JavaPlan(f, loaded, present), loaded, work, t, w)
  }

  /**
    kotlin/…/Main.kt: `config.pages.mapNotNull { it.pageIndex ?: it.page }.distinct()`;
    an explicit `pages: null` never gets this far, since loading refuses it.
   */
  function KotlinRun(f: Flags, loaded: Loaded, present: set<Path>, work: Path, t: TempNames, w: World): (r: Execution)
    ensures r.Stopped? <==> !KotlinPlan(f, loaded, present).Proceed?
    ensures KotlinRefusesNull(loaded) ==> r == Stopped(Abort(1))
    ensures r.ConfigThrew? <==> KotlinPlan(f, loaded, present).Proceed? && loaded.EmptyDocument?
    ensures r.Ran? ==> r.pages == Selected(LoadConfig(loaded).value.pages)
  {
    Execute(KotlinImpl, KotlinPlan(f, loaded, present), loaded, work, t, w)
  }

  /** rust/src/main.rs: `extract_pages` deserialises the file again; `pages` is a required list. */
  function RustRun(f: Flags, loaded: Loaded, present: set<Path>, work: Path, t: TempNames, w: World): (r: Execution)
    ensures r.Stopped? <==> !RustPlan(f, loaded, present).Proceed?
    ensures !r.ConfigThrew?
    ensures r.Ran? ==> r.pages == Selected(RustConfig(loaded).value.pages)
  {
    Execute(RustImpl, RustPlan(f, loaded, present), loaded, work, t, w)
  }

  /**
    `pages: null`: Go reads no pages and goes on, .NET and Java dereference
    null after finding the input, and Kotlin refuses the null while loading;
    all three of those exit with status 1.
   */
  lemma NullPagesDiffer(f: Flags, d: Document, present: set<Path>, work: Path, t: TempNames, w: World)
    requires d.pages.ListNull?
    requires GoMainPlan(f, Mapped(d), present).Proceed? && DotNetPlan(f, Mapped(d), present).Proceed?
    requires JavaPlan(f, Mapped(d), present).Proceed?
    ensures GoMainRun(f, Mapped(d), present, work, t, w).Ran?
    ensures GoMainRun(f, Mapped(d), present, work, t, w).pages == []
    ensures KotlinRun(f, Mapped(d), present, work, t, w) == Stopped(Abort(1))
    ensures Status(KotlinRun(f, Mapped(d), present, work, t, w)) == 1
    ensures DotNetRun(f, Mapped(d), present, work, t, w) == ConfigThrew
    ensures JavaRun(f, Mapped(d), present, work, t, w) == ConfigThrew
    ensures Status(JavaRun(f, Mapped(d), present, work, t, w)) == 1
  {
  }

  /**
    An empty document with every path on the command line: Go selects
    nothing and goes on; .NET, Java and Kotlin dereference the null
    configuration once the input is found.
   */
  lemma EmptyDocumentRuns(f: Flags, present: set<Path>, work: Path, t: TempNames, w: World)
    requires GoCmdPlan(f, EmptyDocument, present).Proceed?
    requires DotNetPlan(f, EmptyDocument, present).Proceed? && KotlinPlan(f, EmptyDocument, present).Proceed?
    ensures GoCmdRun(f, EmptyDocument, present, work, t, w).Ran?
    ensures GoCmdRun(f, EmptyDocument, present, work, t, w).pages == []
    ensures DotNetRun(f, EmptyDocument, present, work, t, w) == ConfigThrew
    ensures KotlinRun(f, EmptyDocument, present, work, t, w) == ConfigThrew
  {
  }
}
