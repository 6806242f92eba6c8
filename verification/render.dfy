/**
  Markdown to PDF: every implementation writes the HTML page to a temporary
  file, runs `node ../puppeteer_render.js <html> <pdf>`, reads the PDF back
  and deletes both files. They differ in which files exist before the
  renderer runs, in the order of the deletions, in what counts as failure,
  and in whether anything else is left behind.

  The Markdown-to-HTML conversion and the renderer itself are left out: the
  renderer is a `Proc` oracle (did it start, its exit status, did it write
  the PDF), and reading the Markdown file is a boolean.
 */
module Render {
  import opened Base
  import opened Paths
  import opened Commands
  import opened Temps

  datatype Renderer =
    | GoRenderer        // golang/main.go and golang/internal/markdown/converter.go
    | JavaRenderer
    | KotlinRenderer
    | RustRenderer
    | PythonRenderer    // both Python programs
    | NodeRenderer
    | DotNetRenderer    // as written: the placeholders of GetTempFileName stay behind
    | DotNetRendererFixed

  /**
    The two names the run obtains from the system: the HTML and PDF temporary
    files, or for .NET the two placeholder files that `Path.GetTempFileName`
    creates and whose names, extended by ".html" and ".pdf", are used instead.
   */
  datatype TempNames = TempNames(first: Path, second: Path)

  datatype Rendered = Rendered(log: Log, ok: bool)

  /** `name + ext` as string concatenation on the last segment. */
  function WithExt(p: Path, ext: string): Path {
    Child(Dir(p), FileName(p) + ext)
  }

  predicate IsDotNet(r: Renderer) {
    r == DotNetRenderer || r == DotNetRendererFixed
  }

  function HtmlFile(r: Renderer, t: TempNames): Path {
    if IsDotNet(r) then WithExt(t.first, ".html") else t.first
  }

  function PdfFile(r: Renderer, t: TempNames): Path {
    if IsDotNet(r) then WithExt(t.second, ".pdf") else t.second
  }

  /**
    When the PDF bytes come back. Go, Java, Kotlin and Python fail on a
    renderer that cannot start or exits non-zero; Rust only on one that
    cannot start (`status()?` does not look at the status); Node and .NET
    also fail when the PDF was never written, because only they do not
    create it beforehand.
   */
  predicate RenderSucceeds(r: Renderer, node: Proc) {
    match r
    case RustRenderer => node.spawned
    case NodeRenderer => ExitedZero(node) && node.wroteOutput
    case DotNetRenderer => ExitedZero(node) && node.wroteOutput
    case DotNetRendererFixed => ExitedZero(node) && node.wroteOutput
    case _ => ExitedZero(node)
  }

  /** The PDF file exists before the renderer runs (created by the temp-file call). */
  predicate PdfPreCreated(r: Renderer) {
    r != NodeRenderer && !IsDotNet(r)
  }

  /** Deferred removals (Go) and drops (Rust) run in reverse order of creation: PDF first. */
  predicate PdfRemovedFirst(r: Renderer) {
    r == GoRenderer || r == RustRenderer
  }

  /**
    The HTML and PDF files around one renderer call: whatever the outcome,
    both are gone afterwards, and nothing else changed.
   */
  function TempPair(l: Log, html: Path, pdf: Path, preCreate: bool, pdfFirst: bool, node: Proc): (r: Log)
    ensures r.live == l.live - {html, pdf}
    ensures r.pdftk == l.pdftk && r.saves == l.saves
    ensures r.nodes == l.nodes + [(html, pdf)]
  {
    var l1 := Emit(l, Create(html));
    var l2 := if preCreate then Emit(l1, Create(pdf)) else l1;
    var l3 := Emit(l2, Node(html, pdf));
    var l4 := if node.wroteOutput then Emit(l3, Create(pdf)) else l3;
    if pdfFirst then Emit(Emit(l4, Remove(pdf)), Remove(html))
    else Emit(Emit(l4, Remove(html)), Remove(pdf))
  }

  /**
    One conversion. An unreadable Markdown file fails before any temporary
    file exists. Otherwise the renderer runs once on the HTML and PDF files,
    and every renderer except .NET as written leaves the live set as it was
    minus those two names.
   */
  function RenderMarkdown(r: Renderer, l: Log, t: TempNames, mdReadable: bool, node: Proc): (res: Rendered)
    ensures res.ok <==> mdReadable && RenderSucceeds(r, node)
    ensures res.log.pdftk == l.pdftk && res.log.saves == l.saves
    ensures res.log.nodes == l.nodes + (if mdReadable then [(HtmlFile(r, t), PdfFile(r, t))] else [])
    ensures !mdReadable ==> res.log == l
    ensures mdReadable && !IsDotNet(r) ==> res.log.live == l.live - {HtmlFile(r, t), PdfFile(r, t)}
    ensures mdReadable && r == DotNetRendererFixed ==>
      res.log.live == l.live - {HtmlFile(r, t), PdfFile(r, t), t.first, t.second}
    ensures mdReadable && r == DotNetRenderer ==>
      res.log.live == (l.live + {t.first, t.second}) - {HtmlFile(r, t), PdfFile(r, t)}
  {
    if !mdReadable then Rendered(l, false)
    else if IsDotNet(r) then
      var l1 := Emit(Emit(l, Create(t.first)), Create(t.second));
      var l2 := TempPair(l1, HtmlFile(r, t), PdfFile(r, t), false, false, node);
      var l3 := if r == DotNetRendererFixed then Emit(Emit(l2, Remove(t.first)), Remove(t.second)) else l2;
      Rendered(l3, RenderSucceeds(r, node))
    else
      Rendered(TempPair(l, HtmlFile(r, t), PdfFile(r, t), PdfPreCreated(r), PdfRemovedFirst(r), node),
               RenderSucceeds(r, node))
  }

  /** Every renderer but .NET as written leaves no file behind: the live set can only shrink. */
  lemma RenderLeavesNothing(r: Renderer, l: Log, t: TempNames, mdReadable: bool, node: Proc)
    requires r != DotNetRenderer
    ensures RenderMarkdown(r, l, t, mdReadable, node).log.live <= l.live
  {
  }

  /** A name extended by a suffix is a different path. */
  lemma WithExtDiffers(p: Path, ext: string)
    requires |ext| > 0
    ensures WithExt(p, ext) != p
  {
    DirChild(Dir(p), FileName(p) + ext);
    assert |FileName(WithExt(p, ext))| > |FileName(p)|;
  }

  /**
    .NET as written: the two placeholder files `GetTempFileName` creates are
    never deleted, on success and on failure alike, while the corrected
    renderer leaves nothing.
   */
  lemma DotNetPlaceholdersLeak(l: Log, t: TempNames, node: Proc)
    requires t.first != WithExt(t.second, ".pdf") && t.second != WithExt(t.first, ".html")
    ensures t.first in RenderMarkdown(DotNetRenderer, l, t, true, node).log.live
    ensures t.second in RenderMarkdown(DotNetRenderer, l, t, true, node).log.live
    ensures RenderMarkdown(DotNetRendererFixed, l, t, true, node).log.live <= l.live
  {
    WithExtDiffers(t.first, ".html");
    WithExtDiffers(t.second, ".pdf");
  }

  /** Rust hands back a PDF even when the renderer exited with a failure status. */
  lemma RustIgnoresRendererStatus(l: Log, t: TempNames)
    ensures RenderMarkdown(RustRenderer, l, t, true, Proc(true, 1, false)).ok
    ensures !RenderMarkdown(GoRenderer, l, t, true, Proc(true, 1, false)).ok
  {
  }
}
