/**
  Temporary files and the trace of a run.

  A run is recorded as the sequence of its observable effects: files and
  directories coming into existence, removals, whole-tree removals, calls to
  pdftk and to the Node renderer, and the final "Saved to" message. `Live`
  is the set of paths that the run has created and not removed; a run that
  leaves nothing behind ends with `Live` holding at most its output file.

  A `Log` carries the trace together with the live set computed so far, so
  that a pipeline can test "does this file exist?" on what it has done; its
  invariant `Valid` says the two agree, and `Emit` preserves it.
 */
module Temps {
  import opened Base
  import opened Paths
  import opened Commands

  datatype Event =
    | Create(p: Path)            // a temporary file or directory is made, or a process writes a file
    | Remove(p: Path)            // one file is deleted (a missing file is no error)
    | RemoveTree(dir: Path)      // a directory is deleted with everything under it
    | Pdftk(argv: seq<Arg>)
    | Node(html: Path, pdf: Path)
    | Saved(out: Path)

  /** `p` is `dir` or lies below it. */
  predicate Under(dir: Path, p: Path) {
    p.absolute == dir.absolute && |dir.segments| <= |p.segments| &&
    p.segments[..|dir.segments|] == dir.segments
  }

  lemma UnderChild(dir: Path, name: string)
    ensures Under(dir, dir)
    ensures Under(dir, Child(dir, name))
  {
    assert (dir.segments + [name])[..|dir.segments|] == dir.segments;
  }

  /** The effect of one event on the set of live paths. */
  function Apply(live: set<Path>, e: Event): set<Path> {
    match e
    case Create(p) => live + {p}
    case Remove(p) => live - {p}
    case RemoveTree(d) => set q | q in live && !Under(d, q)
    case _ => live
  }

  /** The paths a trace leaves behind. */
  function Live(trace: seq<Event>): set<Path> {
    if |trace| == 0 then {} else Apply(Live(trace[..|trace| - 1]), trace[|trace| - 1])
  }

  function PdftkOf(e: Event): seq<seq<Arg>> {
    if e.Pdftk? then [e.argv] else []
  }

  function NodeOf(e: Event): seq<(Path, Path)> {
    if e.Node? then [(e.html, e.pdf)] else []
  }

  function SavedOf(e: Event): seq<Path> {
    if e.Saved? then [e.out] else []
  }

  /** The pdftk argument vectors of a trace, in order. */
  function PdftkCalls(trace: seq<Event>): seq<seq<Arg>> {
    if |trace| == 0 then [] else PdftkCalls(trace[..|trace| - 1]) + PdftkOf(trace[|trace| - 1])
  }

  /** The renderer calls of a trace, in order. */
  function NodeCalls(trace: seq<Event>): seq<(Path, Path)> {
    if |trace| == 0 then [] else NodeCalls(trace[..|trace| - 1]) + NodeOf(trace[|trace| - 1])
  }

  /** The "Saved to" messages of a trace, in order. */
  function Saves(trace: seq<Event>): seq<Path> {
    if |trace| == 0 then [] else Saves(trace[..|trace| - 1]) + SavedOf(trace[|trace| - 1])
  }

  /**
    A run in progress: its trace, and what has been read off the trace so far
    (the live paths, the pdftk calls, the renderer calls, the messages).
   */
  datatype Log = Log(
    trace: seq<Event>,
    live: set<Path>,
    pdftk: seq<seq<Arg>>,
    nodes: seq<(Path, Path)>,
    saves: seq<Path>)

  /** Every summary agrees with the trace. */
  predicate Valid(l: Log) {
    l.live == Live(l.trace) && l.pdftk == PdftkCalls(l.trace) &&
    l.nodes == NodeCalls(l.trace) && l.saves == Saves(l.trace)
  }

  const Start := Log([], {}, [], [], [])

  /** Records one event: the trace grows by it and every summary follows it. */
  function Emit(l: Log, e: Event): (r: Log)
    ensures r.trace == l.trace + [e]
    ensures r.live == Apply(l.live, e)
    ensures r.pdftk == l.pdftk + PdftkOf(e) && r.nodes == l.nodes + NodeOf(e) && r.saves == l.saves + SavedOf(e)
  {
    Log(l.trace + [e], Apply(l.live, e), l.pdftk + PdftkOf(e), l.nodes + NodeOf(e), l.saves + SavedOf(e))
  }

  /** The empty run is consistent, and recording an event keeps the summaries consistent with the trace. */
  lemma EmitValid(l: Log, e: Event)
    ensures Valid(Start)
    ensures Valid(l) ==> Valid(Emit(l, e))
  {
    assert (l.trace + [e])[..|l.trace|] == l.trace;
  }

  /** After removing a tree nothing below it is live, and nothing new became live. */
  lemma RemoveTreeClears(live: set<Path>, d: Path)
    ensures Apply(live, RemoveTree(d)) <= live
    ensures forall q :: q in Apply(live, RemoveTree(d)) ==> !Under(d, q)
    ensures forall q :: q in live && !Under(d, q) ==> q in Apply(live, RemoveTree(d))
  {
  }

  /** The live set of a trace is a fold: splitting the trace splits the fold. */
  lemma {:induction false} LiveAppend(a: seq<Event>, b: seq<Event>)
    ensures Live(a + b) == LiveFrom(Live(a), b)
    decreases |b|
  {
    if |b| == 0 {
      assert a + b == a;
    } else {
      var b0 := b[..|b| - 1];
      assert (a + b)[..|a + b| - 1] == a + b0;
      LiveAppend(a, b0);
      LiveFromSnoc(Live(a), b0, b[|b| - 1]);
      assert b0 + [b[|b| - 1]] == b;
    }
  }

  /** Applies the events of `es` in order to `live`. */
  function LiveFrom(live: set<Path>, es: seq<Event>): set<Path>
    decreases |es|
  {
    if |es| == 0 then live else LiveFrom(Apply(live, es[0]), es[1..])
  }

  lemma {:induction false} LiveFromSnoc(live: set<Path>, es: seq<Event>, e: Event)
    ensures LiveFrom(live, es + [e]) == Apply(LiveFrom(live, es), e)
    decreases |es|
  {
    if |es| == 0 {
      assert es + [e] == [e];
    } else {
      assert (es + [e])[1..] == es[1..] + [e];
      LiveFromSnoc(Apply(live, es[0]), es[1..], e);
    }
  }

  /** Deletes each file of `ps` in turn (a missing one is no error): none of them is live afterwards. */
  function RemoveAll(l: Log, ps: seq<Path>): (r: Log)
    ensures r.live == l.live - Elems(ps)
    ensures r.pdftk == l.pdftk && r.nodes == l.nodes && r.saves == l.saves
    decreases |ps|
  {
    if |ps| == 0 then l
    else
      var r := RemoveAll(Emit(l, Remove(ps[0])), ps[1..]);
      assert Elems(ps) == {ps[0]} + Elems(ps[1..]);
      r
  }
}
