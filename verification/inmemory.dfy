/**
  The implementations that assemble the output document in memory with a
  PDF library instead of pdftk: the two Node programs (pdf-lib) and the two
  Python programs (PyPDF2). The output is a sequence of pages: the pages of
  the rendered Markdown first, then pages of the input picked by the
  selected 0-based offsets. The input's page count and the number of pages
  the renderer produces are parameters; the PDF content is not modelled.
 */
module InMemory {
  import opened Base
  import opened Paths
  import opened ConfigDoc
  import opened DynamicSelection
  import opened Commands
  import opened Temps
  import opened Render
  import opened Resolution
  import NodePaths

  /** A page of the output: page `k` of the rendered Markdown, or page `i` of the input. */
  datatype Page = MdPage(k: nat) | InputPage(i: int)

  datatype Failure =
    | JsConfigError               // reading, parsing or iterating the configuration threw
    | PyConfigError(e: PyError)
    | MarkdownFailed              // Python: reading or rendering the Markdown file raised
    | PageIndexError              // Python: an offset below minus the page count
    | InputUnreadable             // Python: the input PDF cannot be opened
    | OutputUnwritable            // the output path is missing or empty

  /** The trace of one run, what it produced, and whether a warning was printed. */
  datatype MemRun = MemRun(log: Log, result: Result<seq<Page>, Failure>, warned: bool)

  function MdPages(n: nat): (r: seq<Page>)
    ensures |r| == n && forall k :: 0 <= k < n ==> r[k] == MdPage(k)
  {
    if n == 0 then [] else MdPages(n - 1) + [MdPage(n - 1)]
  }

  function ToInputPage(i: int): Page {
    InputPage(i)
  }

  function AsNum(n: int): JsNum {
    Num(n)
  }

  // ------------------------------------------------------------------ JavaScript

  /**
    `selectedPages.filter(pageNum => pageNum < count)`: offsets below the
    page count, in their order; NaN compares false and is dropped. A
    number with a fraction or an infinity is dropped as well: what pdf-lib
    does with such an offset is not part of this model.
   */
  function BelowCount(sel: seq<JsNum>, count: nat): (r: seq<int>)
    ensures |r| <= |sel|
    ensures forall k :: 0 <= k < |r| ==> r[k] < count
  {
    if |sel| == 0 then []
    else
      BelowCount(sel[..|sel| - 1], count) +
      (if sel[|sel| - 1].Num? && sel[|sel| - 1].n < count then [sel[|sel| - 1].n] else [])
  }

  /** Filtering a concatenation filters the parts: the kept offsets stay in selection order. */
  lemma {:induction false} BelowCountAppend(a: seq<JsNum>, b: seq<JsNum>, count: nat)
    ensures BelowCount(a + b, count) == BelowCount(a, count) + BelowCount(b, count)
    decreases |b|
  {
    if |b| == 0 {
      assert a + b == a;
    } else {
      var b0 := b[..|b| - 1];
      assert (a + b)[..|a + b| - 1] == a + b0;
      BelowCountAppend(a, b0, count);
    }
  }

  /** An offset is copied exactly when it was selected as a number below the page count. */
  lemma {:induction false} BelowCountMembers(sel: seq<JsNum>, count: nat)
    ensures forall n :: n in BelowCount(sel, count) <==> Num(n) in sel && n < count
    decreases |sel|
  {
    if |sel| > 0 {
      var s0 := sel[..|sel| - 1];
      BelowCountMembers(s0, count);
      LastSplit(sel);
    }
  }

  /** When every selected offset is a number below the count, all of them are copied, in order. */
  lemma {:induction false} BelowCountKeepsAll(sel: seq<int>, count: nat)
    requires forall k :: 0 <= k < |sel| ==> sel[k] < count
    ensures BelowCount(Map(AsNum, sel), count) == sel
    decreases |sel|
  {
    if |sel| > 0 {
      var s0 := sel[..|sel| - 1];
      var m := Map(AsNum, sel);
      BelowCountKeepsAll(s0, count);
      MapPrefix(AsNum, sel, |sel| - 1);
      assert m[|m| - 1] == Num(sel[|sel| - 1]);
      assert BelowCount(m, count) == s0 + [sel[|sel| - 1]];
      LastSplit(sel);
    }
  }

  datatype Added = Added(log: Log, doc: seq<Page>, warned: bool)

  /**
    `addMarkdownPages` (both pdf-processor files, and inline in
    nodejs/src/main.js): nothing for a falsy path; otherwise the file must
    be accessible and render, and then its pages are appended. Any failure is
    only warned about.
   */
  function AddMarkdownPages(l: Log, doc: seq<Page>, md: NodePaths.JsPath, mdPages: nat,
                            present: set<Path>, t: TempNames, node: Proc): (r: Added)
    ensures !NodePaths.Truthy(md) ==> r == Added(l, doc, false)
    ensures r.warned <==> NodePaths.Truthy(md) && !(md.p in present && RenderSucceeds(NodeRenderer, node))
    ensures r.doc == doc + (if NodePaths.Truthy(md) && !r.warned then MdPages(mdPages) else [])
    ensures r.log.live <= l.live
    ensures r.log.pdftk == l.pdftk && r.log.saves == l.saves
  {
    if !NodePaths.Truthy(md) then Added(l, doc, false)
    else
      var rr := RenderMarkdown(NodeRenderer, l, t, md.p in present, node);
      RenderLeavesNothing(NodeRenderer, l, t, md.p in present, node);
      if rr.ok then Added(rr.log, doc + MdPages(mdPages), false) else Added(rr.log, doc, true)
  }

  /** `addSelectedPages`: the kept offsets' pages after what is already there. */
  function AddSelectedPages(doc: seq<Page>, sel: seq<JsNum>, count: nat): (r: seq<Page>)
    ensures |r| == |doc| + |BelowCount(sel, count)| && r[..|doc|] == doc
    ensures forall k :: |doc| <= k < |r| ==> r[k] == InputPage(BelowCount(sel, count)[k - |doc|])
  {
    doc + Map(ToInputPage, BelowCount(sel, count))
  }

  /**
    The page offsets of nodejs/src/main.js's configuration: an unreadable or
    unparsable file throws, and so does an empty document or a `pages` value
    that cannot be iterated; a top level that is not a mapping has no pages.
   */
  function NodeSelection(loaded: Loaded): (r: Option<seq<JsNum>>)
    ensures r.None? <==>
      loaded.FileMissing? || loaded.SyntaxError? || loaded.EmptyDocument? ||
      (loaded.Mapped? && JsExtractPageIndices(loaded.doc.pages).None?)
    ensures loaded.NotMapping? ==> r == Some([])
  {
    match loaded
    case Mapped(d) => JsExtractPageIndices(d.pages)
    case NotMapping(_) => Some([])
    case _ => None
  }

  /** The Markdown file of a Node run: the argument, or for `null` a truthy `appendFirstPage` beside the configuration. */
  function NodeMarkdown(md: NodePaths.JsPath, yaml: Path, loaded: Loaded): (r: NodePaths.JsPath)
    ensures md != NodePaths.Null ==> r == md
    ensures md == NodePaths.Null ==>
      (r.Str? <==> loaded.Mapped? && loaded.doc.appendFirstPage.Some? && !IsEmpty(loaded.doc.appendFirstPage.value))
  {
    NodePaths.JsResolveMarkdown(md, yaml, if loaded.Mapped? then JsValueOf(loaded.doc.appendFirstPage) else NodePaths.Undefined)
  }

  function JsValueOf(o: Option<Path>): (r: NodePaths.JsPath)
    ensures NodePaths.Truthy(r) <==> o.Some? && !IsEmpty(o.value)
  {
    if o.Some? then NodePaths.Str(o.value) else NodePaths.Undefined
  }

  /**
    `PdfExtractor.extractPages` of nodejs/src/main.js: the configuration's
    offsets, the Markdown pages when they render, the kept input pages, and
    the output written with "Saved to". A falsy output path makes only the
    final write throw: the input is read and the Markdown rendered, with its
    warning, before that.
   */
  function NodeExtract(output: NodePaths.JsPath, yaml: Path, md: NodePaths.JsPath, loaded: Loaded,
                       count: nat, mdPages: nat, present: set<Path>, t: TempNames, node: Proc): (r: MemRun)
    ensures r.result.Err? <==> NodeSelection(loaded).None? || !NodePaths.Truthy(output)
    ensures r.result == Err(JsConfigError) <==> NodeSelection(loaded).None?
    ensures NodeSelection(loaded).None? ==> r.log == Start && !r.warned
    ensures NodeSelection(loaded).Some? && !NodePaths.Truthy(output) ==> r.result == Err(OutputUnwritable)
    ensures NodeSelection(loaded).Some? ==>
      var m := NodeMarkdown(md, yaml, loaded);
      (r.warned <==> NodePaths.Truthy(m) && !(m.p in present && RenderSucceeds(NodeRenderer, node)))
    ensures r.result.Err? ==> r.log.saves == []
    ensures r.result.Ok? ==> r.log.saves == [output.p]
    ensures r.log.live <= (if NodePaths.Truthy(output) then {output.p} else {})
    ensures r.log.pdftk == []
  {
    var sel := NodeSelection(loaded);
    if sel.None? then MemRun(Start, Err(JsConfigError), false)
    else
      var a := AddMarkdownPages(Start, [], NodeMarkdown(md, yaml, loaded), mdPages, present, t, node);
      if !NodePaths.Truthy(output) then MemRun(a.log, Err(OutputUnwritable), a.warned)
      else MemRun(Emit(Emit(a.log, Create(output.p)), Saved(output.p)), Ok(AddSelectedPages(a.doc, sel.value, count)), a.warned)
  }

  /**
    Without an output path the run still renders a named Markdown file and
    warns when it is missing; only the final write fails.
   */
  lemma NodeFalsyOutputStillWarns(yaml: Path, md: Path, loaded: Loaded, count: nat, mdPages: nat,
                                  present: set<Path>, t: TempNames, node: Proc)
    requires NodeSelection(loaded).Some? && !IsEmpty(md) && md !in present
    ensures var r := NodeExtract(NodePaths.Undefined, yaml, NodePaths.Str(md), loaded, count, mdPages, present, t, node);
      r.result == Err(OutputUnwritable) && r.warned
  {
  }

  /**
    A Markdown failure never stops the Node run: whether the Markdown file
    exists and whether the renderer works change neither the outcome nor
    what is saved.
   */
  lemma NodeMarkdownOnlyWarns(output: NodePaths.JsPath, yaml: Path, md: NodePaths.JsPath, loaded: Loaded, count: nat,
                              mdPages: nat, t: TempNames, present1: set<Path>, node1: Proc, present2: set<Path>, node2: Proc)
    ensures var r1 := NodeExtract(output, yaml, md, loaded, count, mdPages, present1, t, node1);
      var r2 := NodeExtract(output, yaml, md, loaded, count, mdPages, present2, t, node2);
      r1.result.Ok? == r2.result.Ok? && r1.log.saves == r2.log.saves
  {
  }

  /**
    The Node document: the Markdown pages when a Markdown file was named and
    rendered, then one input page for every offset below the page count, in
    selection order.
   */
  lemma NodeDocument(output: NodePaths.JsPath, yaml: Path, md: NodePaths.JsPath, loaded: Loaded,
                     count: nat, mdPages: nat, present: set<Path>, t: TempNames, node: Proc)
    requires NodeSelection(loaded).Some? && NodePaths.Truthy(output)
    ensures var r := NodeExtract(output, yaml, md, loaded, count, mdPages, present, t, node);
      var head := if r.warned || !NodePaths.Truthy(NodeMarkdown(md, yaml, loaded)) then [] else MdPages(mdPages);
      r.result == Ok(head + Map(ToInputPage, BelowCount(NodeSelection(loaded).value, count)))
  {
    var sel := NodeSelection(loaded).value;
    var a := AddMarkdownPages(Start, [], NodeMarkdown(md, yaml, loaded), mdPages, present, t, node);
    var head: seq<Page> := if a.warned || !NodePaths.Truthy(NodeMarkdown(md, yaml, loaded)) then [] else MdPages(mdPages);
    assert a.doc == [] + head;
    assert [] + head == head;
    var r := NodeExtract(output, yaml, md, loaded, count, mdPages, present, t, node);
    assert r.result == Ok(AddSelectedPages(a.doc, sel, count)) && r.warned == a.warned;
  }

  // ------------------------------------------------------------------ Python

  /**
    `for page_num in selected: if page_num < len(pages): add(pages[page_num])`:
    offsets at or past the count are skipped, a negative one counts from the
    end, and one below minus the count raises IndexError.
   */
  function PyPick(sel: seq<int>, count: nat): (r: Option<seq<int>>)
    ensures r.Some? <==> forall k :: 0 <= k < |sel| ==> sel[k] + count >= 0
    ensures r.Some? ==> |r.value| <= |sel| && forall k :: 0 <= k < |r.value| ==> 0 <= r.value[k] < count
  {
    if |sel| == 0 then Some([])
    else
      var n := sel[|sel| - 1];
      match PyPick(sel[..|sel| - 1], count)
      case None => None
      case Some(front) =>
        if n >= count then Some(front)
        else if n >= 0 then Some(front + [n])
        else if n + count >= 0 then Some(front + [count + n])
        else None
  }

  /** Python and Node copy the same pages for non-negative offsets. */
  lemma {:induction false} PyPickAgreesWithNode(sel: seq<int>, count: nat)
    requires forall k :: 0 <= k < |sel| ==> sel[k] >= 0
    ensures PyPick(sel, count) == Some(BelowCount(Map(AsNum, sel), count))
    decreases |sel|
  {
    if |sel| > 0 {
      var s0 := sel[..|sel| - 1];
      PyPickAgreesWithNode(s0, count);
      var n := sel[|sel| - 1];
      var m := Map(AsNum, sel);
      assert m[..|m| - 1] == Map(AsNum, s0);
      assert m[|m| - 1] == Num(n);
      var front := BelowCount(Map(AsNum, s0), count);
      assert PyPick(s0, count) == Some(front);
      if n >= count {
        assert front + [] == front;
        assert BelowCount(m, count) == front;
      } else {
        assert BelowCount(m, count) == front + [n];
      }
    }
  }

  /** Page 0 in the configuration is offset -1, which Python reads as the last page. */
  lemma PyPageZeroIsLast(count: nat)
    requires count > 0
    ensures PyPick([-1], count) == Some([count - 1])
    ensures BelowCount([Num(-1)], count) == [-1]
  {
    assert [-1][..0] == [];
    assert PyPick([], count) == Some([]);
    var none: seq<int> := [];
    assert none + [count + -1] == [count - 1];
    assert [Num(-1)][..0] == [];
  }

  /**
    `markdown_to_pdf_bytes` in both Python programs: an unreadable file
    raises before any temporary file exists; otherwise the renderer runs with
    `check=True` and both temporary files are removed in `finally`.
   */
  function PyRender(l: Log, md: Path, present: set<Path>, t: TempNames, node: Proc): (r: Rendered)
    ensures r.ok <==> md in present && ExitedZero(node)
    ensures r.log.live <= l.live
    ensures r.log.pdftk == l.pdftk && r.log.saves == l.saves
    ensures md in present ==> r.log.nodes == l.nodes + [(t.first, t.second)]
  {
    RenderLeavesNothing(PythonRenderer, l, t, md in present, node);
    RenderMarkdown(PythonRenderer, l, t, md in present, node)
  }

  /**
    The Markdown file of a Python run: the argument, or for the extractor
    (not the workout exporter) when none is given, a truthy
    `appendFirstPage` joined to the configuration file's directory.
   */
  function PyMarkdown(workouts: bool, md: Option<Path>, yaml: Path, loaded: Loaded): (r: Option<Path>)
    ensures md.Some? || workouts ==> r == md
    ensures md.None? && !workouts ==>
      (r.Some? <==> loaded.Mapped? && loaded.doc.appendFirstPage.Some? && !IsEmpty(loaded.doc.appendFirstPage.value))
    ensures r.Some? && r != md ==> r.value == Resolve(ConfigDir(yaml), loaded.doc.appendFirstPage.value)
  {
    if md.None? && !workouts && loaded.Mapped? && loaded.doc.appendFirstPage.Some? && !IsEmpty(loaded.doc.appendFirstPage.value)
    then Some(Resolve(ConfigDir(yaml), loaded.doc.appendFirstPage.value))
    else md
  }

  /**
    `extract_pages` of pdf_extractor/__main__.py (`workouts` false) and
    `extract_workout_pages` of workout_exporter/__main__.py (`workouts`
    true), in the order the source fails: the configuration, the input
    file, the Markdown file, an offset out of range, the output file. A
    Markdown failure ends the run after its temporary files are gone; a
    renderer that exits 0 without writing leaves empty bytes, which the PDF
    reader rejects.
   */
  function PyExtract(workouts: bool, input: Path, output: Option<Path>, yaml: Path, md: Option<Path>, loaded: Loaded,
                     count: nat, mdPages: nat, present: set<Path>, t: TempNames, node: Proc): (r: MemRun)
    ensures PyExtractPageIndices(loaded, workouts).Err? ==>
      r.result == Err(PyConfigError(PyExtractPageIndices(loaded, workouts).error))
    ensures r.result.Ok? <==>
      PyExtractPageIndices(loaded, workouts).Ok? && input in present &&
      (Given(PyMarkdown(workouts, md, yaml, loaded)) ==> PyMarkdown(workouts, md, yaml, loaded).value in present && ExitedZero(node) && node.wroteOutput) &&
      PyPick(PyExtractPageIndices(loaded, workouts).value, count).Some? && Given(output)
    ensures r.result.Ok? ==> r.log.saves == [output.value]
    ensures r.result.Err? ==> r.log.saves == []
    ensures r.log.live <= (if output.Some? then {output.value} else {})
    ensures !r.warned && r.log.pdftk == []
  {
    match PyExtractPageIndices(loaded, workouts)
    case Err(e) => MemRun(Start, Err(PyConfigError(e)), false)
    case Ok(sel) =>
      if input !in present then MemRun(Start, Err(InputUnreadable), false)
      else
        var mdPath := PyMarkdown(workouts, md, yaml, loaded);
        var rr := if Given(mdPath) then PyRender(Start, mdPath.value, present, t, node) else Rendered(Start, true);
        if !rr.ok || (Given(mdPath) && !node.wroteOutput) then MemRun(rr.log, Err(MarkdownFailed), false)
        else
          match PyPick(sel, count)
          case None => MemRun(rr.log, Err(PageIndexError), false)
          case Some(picked) =>
            if !Given(output) then MemRun(rr.log, Err(OutputUnwritable), false)
            else
              var doc := (if Given(mdPath) then MdPages(mdPages) else []) + Map(ToInputPage, picked);
              MemRun(Emit(Emit(rr.log, Create(output.value)), Saved(output.value)), Ok(doc), false)
  }

  /**
    The Python document: the Markdown pages when a Markdown file was named,
    then one input page for every picked offset, in selection order.
   */
  lemma PyDocument(workouts: bool, input: Path, output: Option<Path>, yaml: Path, md: Option<Path>, loaded: Loaded,
                   count: nat, mdPages: nat, present: set<Path>, t: TempNames, node: Proc)
    requires PyExtract(workouts, input, output, yaml, md, loaded, count, mdPages, present, t, node).result.Ok?
    ensures var r := PyExtract(workouts, input, output, yaml, md, loaded, count, mdPages, present, t, node);
      var picked := PyPick(PyExtractPageIndices(loaded, workouts).value, count).value;
      r.result.value == (if Given(PyMarkdown(workouts, md, yaml, loaded)) then MdPages(mdPages) else []) + Map(ToInputPage, picked)
  {
  }

  /**
    The workout exporter never looks at `appendFirstPage`: without a
    Markdown path its document is exactly the picked input pages.
   */
  lemma WorkoutIgnoresAppendFirstPage(input: Path, output: Path, yaml: Path, d: Document,
                                      count: nat, mdPages: nat, present: set<Path>, t: TempNames, node: Proc)
    requires PyExtractPageIndices(Mapped(d), true).Ok? && !IsEmpty(output) && input in present
    requires PyPick(PyExtractPageIndices(Mapped(d), true).value, count).Some?
    ensures PyExtract(true, input, Some(output), yaml, None, Mapped(d), count, mdPages, present, t, node).result ==
      Ok(Map(ToInputPage, PyPick(PyExtractPageIndices(Mapped(d), true).value, count).value))
  {
    var m := Map(ToInputPage, PyPick(PyExtractPageIndices(Mapped(d), true).value, count).value);
    PyDocument(true, input, Some(output), yaml, None, Mapped(d), count, mdPages, present, t, node);
    assert [] + m == m;
  }
}
