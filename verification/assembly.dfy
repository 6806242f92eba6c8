/**
  Producing the output PDF in a private temporary directory: Go (both
  `internal/pdf/processor.go` and the single-file `main.go`), .NET, Java,
  Kotlin and Rust. The run creates the directory, renders the Markdown page
  into `markdown.pdf` when there is one, extracts the selected pages into
  `extracted.pdf` when there are any, then copies the only artifact or
  merges both into the output, prints "Saved to", and removes the directory
  on every path out.

  The implementations differ only in what they count as failure of a
  process (Rust looks only at whether pdftk started) and in their Markdown
  renderer. I/O failures other than a missing copy source are left out.
 */
module Assembly {
  import opened Base
  import opened Paths
  import opened Commands
  import opened Temps
  import opened Render

  datatype Impl =
    | GoImpl
    | DotNetImpl        // as written: the renderer's placeholder files stay behind
    | DotNetFixedImpl
    | JavaImpl
    | KotlinImpl
    | RustImpl

  function RendererOf(impl: Impl): Renderer {
    match impl
    case GoImpl => GoRenderer
    case DotNetImpl => DotNetRenderer
    case DotNetFixedImpl => DotNetRendererFixed
    case JavaImpl => JavaRenderer
    case KotlinImpl => KotlinRenderer
    case RustImpl => RustRenderer
  }

  /** Rust's `.status()?` fails only when pdftk cannot start; the others also on a non-zero status. */
  predicate PdftkSucceeds(impl: Impl, p: Proc) {
    if impl == RustImpl then p.spawned else ExitedZero(p)
  }

  /** What the outside world does during one run. */
  datatype World = World(
    mdReadable: bool,   // the Markdown file can be read
    node: Proc,         // the renderer
    extract: Proc,      // pdftk extracting pages
    merge: Proc,        // pdftk merging
    copyOk: bool)       // copying a file that exists succeeds

  datatype Failure = RenderFailed | ExtractFailed | CopyFailed | MergeFailed

  datatype Outcome = Done | Failed(reason: Failure)

  datatype Run = Run(log: Log, outcome: Outcome)

  datatype Stage = Stage(log: Log, ok: bool, files: seq<Path>)

  function MdPdf(work: Path): Path {
    Child(work, "markdown.pdf")
  }

  function Extracted(work: Path): Path {
    Child(work, "extracted.pdf")
  }

  /** Everything the run has made lies in its directory, except possibly the output. */
  predicate Contained(live: set<Path>, work: Path, out: Path) {
    forall q :: q in live ==> q == out || Under(work, q)
  }

  /** The Markdown page, rendered and written into the run directory as the first artifact. */
  function MarkdownStage(impl: Impl, l: Log, withMarkdown: bool, work: Path, t: TempNames, w: World): (s: Stage)
    ensures s.ok <==> !withMarkdown || (w.mdReadable && RenderSucceeds(RendererOf(impl), w.node))
    ensures s.files == (if withMarkdown && s.ok then [MdPdf(work)] else [])
    ensures s.log.pdftk == l.pdftk && s.log.saves == l.saves
    ensures withMarkdown && s.ok ==> MdPdf(work) in s.log.live
    ensures impl != DotNetImpl ==> forall q :: q in s.log.live ==> q in l.live || q == MdPdf(work)
    ensures impl == DotNetImpl ==>
      forall q :: q in s.log.live ==> q in l.live || q == MdPdf(work) || q == t.first || q == t.second
  {
    if !withMarkdown then Stage(l, true, [])
    else
      var rr := RenderMarkdown(RendererOf(impl), l, t, w.mdReadable, w.node);
      if rr.ok then Stage(Emit(rr.log, Create(MdPdf(work))), true, [MdPdf(work)])
      else Stage(rr.log, false, [])
  }

  /** pdftk writes the selected pages, in selection order, to `extracted.pdf`; skipped when nothing is selected. */
  function ExtractStage(impl: Impl, l: Log, input: Path, pages: seq<int>, work: Path, w: World, files: seq<Path>): (s: Stage)
    ensures s.ok <==> |pages| == 0 || PdftkSucceeds(impl, w.extract)
    ensures s.files == files + (if |pages| > 0 && s.ok then [Extracted(work)] else [])
    ensures s.log.pdftk == l.pdftk + (if |pages| > 0 then [ExtractArgv(input, pages, Extracted(work))] else [])
    ensures s.log.saves == l.saves
    ensures s.log.live == l.live + (if |pages| > 0 && w.extract.wroteOutput then {Extracted(work)} else {})
  {
    if |pages| == 0 then Stage(l, true, files)
    else
      var l1 := Emit(l, Pdftk(ExtractArgv(input, pages, Extracted(work))));
      var l2 := if w.extract.wroteOutput then Emit(l1, Create(Extracted(work))) else l1;
      if PdftkSucceeds(impl, w.extract) then Stage(l2, true, files + [Extracted(work)])
      else Stage(l2, false, files)
  }

  /**
    One artifact is copied to the output, which fails when it does not
    exist; two are merged by pdftk; none leaves the output untouched.
   */
  function CombineStage(impl: Impl, l: Log, files: seq<Path>, out: Path, w: World): (s: Stage)
    ensures s.ok <==>
      (|files| == 1 ==> files[0] in l.live && w.copyOk) && (|files| > 1 ==> PdftkSucceeds(impl, w.merge))
    ensures s.log.pdftk == l.pdftk + (if |files| > 1 then [MergeArgv(files, out)] else [])
    ensures s.log.saves == l.saves
    ensures s.log.live == l.live +
      (if (|files| == 1 && s.ok) || (|files| > 1 && w.merge.wroteOutput) then {out} else {})
    ensures s.files == files
  {
    if |files| == 1 then
      if files[0] in l.live && w.copyOk then Stage(Emit(l, Create(out)), true, files)
      else Stage(l, false, files)
    else if |files| > 1 then
      var l1 := Emit(l, Pdftk(MergeArgv(files, out)));
      var l2 := if w.merge.wroteOutput then Emit(l1, Create(out)) else l1;
      Stage(l2, PdftkSucceeds(impl, w.merge), files)
    else Stage(l, true, files)
  }

  /** Reference statement of when a run succeeds, in terms of the world alone. */
  predicate Succeeds(impl: Impl, hasPages: bool, withMarkdown: bool, w: World) {
    (!withMarkdown || (w.mdReadable && RenderSucceeds(RendererOf(impl), w.node))) &&
    (!hasPages || PdftkSucceeds(impl, w.extract)) &&
    (withMarkdown && !hasPages ==> w.copyOk) &&
    (!withMarkdown && hasPages ==> w.extract.wroteOutput && w.copyOk) &&
    (withMarkdown && hasPages ==> PdftkSucceeds(impl, w.merge))
  }

  /** The whole run. */
  function Assemble(impl: Impl, input: Path, pages: seq<int>, withMarkdown: bool, out: Path,
                    work: Path, t: TempNames, w: World): Run
  {
    var m := MarkdownStage(impl, Emit(Start, Create(work)), withMarkdown, work, t, w);
    if !m.ok then Run(Emit(m.log, RemoveTree(work)), Failed(RenderFailed))
    else AfterMarkdown(impl, m, input, pages, out, work, w)
  }

  /** On every path out, the last thing a run does is remove its directory. */
  lemma AssembleRemovesDirectoryLast(impl: Impl, input: Path, pages: seq<int>, withMarkdown: bool, out: Path,
                                     work: Path, t: TempNames, w: World)
    ensures var r := Assemble(impl, input, pages, withMarkdown, out, work, t, w);
      |r.log.trace| > 0 && r.log.trace[|r.log.trace| - 1] == RemoveTree(work)
  {
  }

  /** What the Markdown step hands on: at most `markdown.pdf`, which then exists; no pdftk call, no message. */
  lemma MarkdownHandsOn(impl: Impl, withMarkdown: bool, out: Path, work: Path, t: TempNames, w: World)
    ensures var m := MarkdownStage(impl, Emit(Start, Create(work)), withMarkdown, work, t, w);
      (m.ok ==> (m.files != [] <==> withMarkdown)) &&
      (m.files == [] || (m.files == [MdPdf(work)] && MdPdf(work) in m.log.live)) &&
      m.log.pdftk == [] && m.log.saves == []
    ensures var m := MarkdownStage(impl, Emit(Start, Create(work)), withMarkdown, work, t, w);
      impl != DotNetImpl ==> Contained(m.log.live, work, out)
  {
    assert Emit(Start, Create(work)).live == {work};
    UnderChild(work, "markdown.pdf");
  }

  /**
    A run succeeds exactly under `Succeeds`, and it then prints "Saved to"
    once; a failed run prints nothing.
   */
  lemma AssembleOutcome(impl: Impl, input: Path, pages: seq<int>, withMarkdown: bool, out: Path,
                        work: Path, t: TempNames, w: World)
    requires impl == DotNetImpl && withMarkdown ==> !Under(work, t.first) && !Under(work, t.second)
    ensures var r := Assemble(impl, input, pages, withMarkdown, out, work, t, w);
      (r.outcome.Done? <==> Succeeds(impl, |pages| > 0, withMarkdown, w)) &&
      r.log.saves == (if r.outcome.Done? then [out] else [])
  {
    MarkdownHandsOn(impl, withMarkdown, out, work, t, w);
    ExtractedIsNew(impl, Emit(Start, Create(work)), withMarkdown, work, t, w);
    var m := MarkdownStage(impl, Emit(Start, Create(work)), withMarkdown, work, t, w);
    if m.ok {
      AfterMarkdownOutcome(impl, m, input, pages, withMarkdown, out, work, w);
      var r := AfterMarkdown(impl, m, input, pages, out, work, w);
      assert Assemble(impl, input, pages, withMarkdown, out, work, t, w).outcome == r.outcome;
      assert Assemble(impl, input, pages, withMarkdown, out, work, t, w).log.saves == r.log.saves;
    }
  }

  /**
    The failure a run reports names the first step that failed: the render
    exactly when it failed, the extraction only when pdftk failed on it, the
    copy only when there was exactly one artifact.
   */
  lemma AssembleFailure(impl: Impl, input: Path, pages: seq<int>, withMarkdown: bool, out: Path,
                        work: Path, t: TempNames, w: World)
    ensures var r := Assemble(impl, input, pages, withMarkdown, out, work, t, w);
      (r.outcome == Failed(RenderFailed) <==>
        withMarkdown && !(w.mdReadable && RenderSucceeds(RendererOf(impl), w.node))) &&
      (r.outcome == Failed(ExtractFailed) ==> |pages| > 0 && !PdftkSucceeds(impl, w.extract)) &&
      (r.outcome == Failed(CopyFailed) ==> withMarkdown != (|pages| > 0))
  {
    MarkdownHandsOn(impl, withMarkdown, out, work, t, w);
  }

  /** The outcome after a Markdown step that succeeded and handed on at most an existing `markdown.pdf`. */
  lemma AfterMarkdownOutcome(impl: Impl, m: Stage, input: Path, pages: seq<int>, withMarkdown: bool, out: Path,
                             work: Path, w: World)
    requires m.ok && (m.files == [] || (m.files == [MdPdf(work)] && MdPdf(work) in m.log.live))
    requires Extracted(work) !in m.log.live && m.log.saves == []
    requires m.files != [] <==> withMarkdown
    requires !withMarkdown || (w.mdReadable && RenderSucceeds(RendererOf(impl), w.node))
    ensures var r := AfterMarkdown(impl, m, input, pages, out, work, w);
      (r.outcome.Done? <==> Succeeds(impl, |pages| > 0, withMarkdown, w)) &&
      r.log.saves == (if r.outcome.Done? then [out] else [])
  {
  }

  /**
    The pdftk calls of a run: the extraction when pages are selected and the
    Markdown step did not fail, then the merge of `markdown.pdf` and
    `extracted.pdf` in that order when both exist.
   */
  lemma AssembleCalls(impl: Impl, input: Path, pages: seq<int>, withMarkdown: bool, out: Path,
                      work: Path, t: TempNames, w: World)
    ensures var r := Assemble(impl, input, pages, withMarkdown, out, work, t, w);
      var mdOk := !withMarkdown || (w.mdReadable && RenderSucceeds(RendererOf(impl), w.node));
      r.log.pdftk ==
        (if mdOk && |pages| > 0 then [ExtractArgv(input, pages, Extracted(work))] else []) +
        (if mdOk && |pages| > 0 && PdftkSucceeds(impl, w.extract) && withMarkdown
         then [MergeArgv([MdPdf(work), Extracted(work)], out)] else [])
  {
    MarkdownHandsOn(impl, withMarkdown, out, work, t, w);
    var m := MarkdownStage(impl, Emit(Start, Create(work)), withMarkdown, work, t, w);
    if m.ok {
      AfterMarkdownCalls(impl, m, input, pages, out, work, w);
    }
  }

  /** The pdftk calls after a Markdown step that made no call of its own. */
  lemma AfterMarkdownCalls(impl: Impl, m: Stage, input: Path, pages: seq<int>, out: Path, work: Path, w: World)
    requires m.ok && (m.files == [] || m.files == [MdPdf(work)]) && m.log.pdftk == []
    ensures AfterMarkdown(impl, m, input, pages, out, work, w).log.pdftk ==
      (if |pages| > 0 then [ExtractArgv(input, pages, Extracted(work))] else []) +
      (if |pages| > 0 && PdftkSucceeds(impl, w.extract) && m.files != []
       then [MergeArgv([MdPdf(work), Extracted(work)], out)] else [])
  {
    assert m.files != [] ==> m.files + [Extracted(work)] == [MdPdf(work), Extracted(work)];
  }

  /**
    Every implementation but .NET as written leaves nothing behind but the
    output file, on success and on every failure.
   */
  lemma AssembleCleansUp(impl: Impl, input: Path, pages: seq<int>, withMarkdown: bool, out: Path,
                         work: Path, t: TempNames, w: World)
    requires impl != DotNetImpl
    ensures Assemble(impl, input, pages, withMarkdown, out, work, t, w).log.live <= {out}
  {
    MarkdownHandsOn(impl, withMarkdown, out, work, t, w);
    var m := MarkdownStage(impl, Emit(Start, Create(work)), withMarkdown, work, t, w);
    ContainedThenRemoved(m.log.live, work, out);
  }

  /** A path outside the run directory that is live after the Markdown step is still live at the end. */
  lemma OutsideSurvives(impl: Impl, input: Path, pages: seq<int>, withMarkdown: bool, out: Path,
                        work: Path, t: TempNames, w: World, q: Path)
    requires q in MarkdownStage(impl, Emit(Start, Create(work)), withMarkdown, work, t, w).log.live
    requires !Under(work, q)
    ensures q in Assemble(impl, input, pages, withMarkdown, out, work, t, w).log.live
  {
    MarkdownHandsOn(impl, withMarkdown, out, work, t, w);
    var m := MarkdownStage(impl, Emit(Start, Create(work)), withMarkdown, work, t, w);
    ContainedThenRemoved(m.log.live, work, out);
  }

  /**
    The run after a successful Markdown step, which handed on at most one
    artifact: extraction, combination and removal of the directory.
   */
  function AfterMarkdown(impl: Impl, m: Stage, input: Path, pages: seq<int>, out: Path, work: Path, w: World): (r: Run)
    requires m.ok && |m.files| <= 1
    ensures |r.log.trace| > 0 && r.log.trace[|r.log.trace| - 1] == RemoveTree(work)
    ensures var hasMd := |m.files| == 1; var hasPages := |pages| > 0;
      (r.outcome.Done? <==>
        (!hasPages || PdftkSucceeds(impl, w.extract)) &&
        (hasMd && !hasPages ==> m.files[0] in m.log.live && w.copyOk) &&
        (!hasMd && hasPages ==> (w.extract.wroteOutput || Extracted(work) in m.log.live) && w.copyOk) &&
        (hasMd && hasPages ==> PdftkSucceeds(impl, w.merge)))
    ensures r.outcome != Failed(RenderFailed)
    ensures r.outcome == Failed(ExtractFailed) ==> |pages| > 0 && !PdftkSucceeds(impl, w.extract)
    ensures r.outcome == Failed(CopyFailed) ==> |m.files| + (if |pages| > 0 then 1 else 0) == 1
    ensures r.log.saves == m.log.saves + (if r.outcome.Done? then [out] else [])
    ensures r.log.pdftk == m.log.pdftk +
      (if |pages| > 0 then [ExtractArgv(input, pages, Extracted(work))] else []) +
      (if |pages| > 0 && PdftkSucceeds(impl, w.extract) && |m.files| == 1
       then [MergeArgv(m.files + [Extracted(work)], out)] else [])
    ensures Contained(m.log.live, work, out) ==> r.log.live <= {out}
    ensures forall q :: q in m.log.live && !Under(work, q) ==> q in r.log.live
  {
    var x := ExtractStage(impl, m.log, input, pages, work, w, m.files);
    UnderChild(work, "extracted.pdf");
    assert Contained(m.log.live, work, out) ==> Contained(x.log.live, work, out);
    if !x.ok then ContainedThenRemoved(x.log.live, work, out); Run(Emit(x.log, RemoveTree(work)), Failed(ExtractFailed))
    else
      assert |x.files| == 1 && |pages| > 0 ==> x.files[0] == Extracted(work);
      Finish(impl, x, out, work, w)
  }

  /** Copying or merging the artifacts into the output, then removing the directory. */
  function Finish(impl: Impl, x: Stage, out: Path, work: Path, w: World): (r: Run)
    ensures |r.log.trace| > 0 && r.log.trace[|r.log.trace| - 1] == RemoveTree(work)
    ensures r.outcome.Done? <==>
      (|x.files| == 1 ==> x.files[0] in x.log.live && w.copyOk) && (|x.files| > 1 ==> PdftkSucceeds(impl, w.merge))
    ensures r.outcome.Failed? ==> r.outcome.reason == (if |x.files| == 1 then CopyFailed else MergeFailed)
    ensures r.log.saves == x.log.saves + (if r.outcome.Done? then [out] else [])
    ensures r.log.pdftk == x.log.pdftk + (if |x.files| > 1 then [MergeArgv(x.files, out)] else [])
    ensures Contained(x.log.live, work, out) ==> r.log.live <= {out}
    ensures forall q :: q in x.log.live && !Under(work, q) ==> q in r.log.live
  {
    var c := CombineStage(impl, x.log, x.files, out, w);
    assert Contained(x.log.live, work, out) ==> Contained(c.log.live, work, out);
    ContainedThenRemoved(c.log.live, work, out);
    if !c.ok then Run(Emit(c.log, RemoveTree(work)), Failed(if |x.files| == 1 then CopyFailed else MergeFailed))
    else Run(Emit(Emit(c.log, Saved(out)), RemoveTree(work)), Done)
  }

  /** Before extraction runs, `extracted.pdf` does not exist. */
  lemma ExtractedIsNew(impl: Impl, l0: Log, withMarkdown: bool, work: Path, t: TempNames, w: World)
    requires l0 == Emit(Start, Create(work))
    requires impl == DotNetImpl && withMarkdown ==> !Under(work, t.first) && !Under(work, t.second)
    ensures Extracted(work) !in MarkdownStage(impl, l0, withMarkdown, work, t, w).log.live
  {
    assert l0.live == {work};
    var m := MarkdownStage(impl, l0, withMarkdown, work, t, w);
    assert Extracted(work) != work by {
      assert |Extracted(work).segments| > |work.segments|;
    }
    assert Extracted(work) != MdPdf(work) by {
      assert Extracted(work).segments[|work.segments|] != MdPdf(work).segments[|work.segments|];
    }
    if impl == DotNetImpl {
      UnderChild(work, "extracted.pdf");
    }
  }

  lemma ContainedThenRemoved(live: set<Path>, work: Path, out: Path)
    ensures Contained(live, work, out) ==> Apply(live, RemoveTree(work)) <= {out}
    ensures forall q :: q in live && !Under(work, q) ==> q in Apply(live, RemoveTree(work))
  {
  }

  /**
    .NET as written: a run that renders Markdown leaves the renderer's two
    placeholder files behind, whatever happens afterwards.
   */
  lemma DotNetRunLeaks(input: Path, pages: seq<int>, out: Path, work: Path, t: TempNames, w: World)
    requires w.mdReadable
    requires !Under(work, t.first) && !Under(work, t.second)
    requires t.first != WithExt(t.second, ".pdf") && t.second != WithExt(t.first, ".html")
    ensures var live := Assemble(DotNetImpl, input, pages, true, out, work, t, w).log.live;
      t.first in live && t.second in live
  {
    var l0 := Emit(Start, Create(work));
    DotNetPlaceholdersLeak(l0, t, w.node);
    var rr := RenderMarkdown(DotNetRenderer, l0, t, true, w.node);
    assert t.first in rr.log.live && t.second in rr.log.live;
    var m := MarkdownStage(DotNetImpl, l0, true, work, t, w);
    assert m.log.live >= rr.log.live;
    OutsideSurvives(DotNetImpl, input, pages, true, out, work, t, w, t.first);
    OutsideSurvives(DotNetImpl, input, pages, true, out, work, t, w, t.second);
  }

  /**
    With neither Markdown nor selected pages the run still reports "Saved
    to", although no output file was written and pdftk never ran.
   */
  lemma NothingSelectedStillSaved(impl: Impl, input: Path, out: Path, work: Path, t: TempNames, w: World)
    ensures var r := Assemble(impl, input, [], false, out, work, t, w);
      r.outcome == Done && r.log.saves == [out] && r.log.pdftk == [] && out !in r.log.live
  {
    var l0 := Emit(Start, Create(work));
    assert l0.live == {work};
    var r := Assemble(impl, input, [], false, out, work, t, w);
    assert r.log.live == Apply(l0.live, RemoveTree(work));
    UnderChild(work, "");
  }

  /** Rust reports "Saved to" after a merge whose pdftk exited with a failure status. */
  lemma RustIgnoresMergeStatus(input: Path, pages: seq<int>, out: Path, work: Path, t: TempNames, w: World)
    requires |pages| > 0
    requires w.mdReadable && w.node.spawned && w.extract.spawned && w.merge.spawned
    ensures Assemble(RustImpl, input, pages, true, out, work, t, w).outcome == Done
  {
    AssembleOutcome(RustImpl, input, pages, true, out, work, t, w);
  }

  /** Go, given the same world with a merge that exits with a failure status, reports the merge as failed. */
  lemma GoChecksMergeStatus(input: Path, pages: seq<int>, out: Path, work: Path, t: TempNames, w: World)
    requires |pages| > 0
    requires w.mdReadable && ExitedZero(w.node) && ExitedZero(w.extract)
    requires w.merge.spawned && !ExitedZero(w.merge)
    ensures Assemble(GoImpl, input, pages, true, out, work, t, w).outcome == Failed(MergeFailed)
  {
    AssembleOutcome(GoImpl, input, pages, true, out, work, t, w);
    AssembleFailure(GoImpl, input, pages, true, out, work, t, w);
  }
}
