/**
  Page selection as the statically typed implementations write it (Go
  `ExtractPageIndices` and its copy in `main.go`, .NET, Java, Kotlin, Rust):
  each entry's effective index is `pageIndex` when set, otherwise `page`;
  entries with neither contribute nothing; later duplicates are dropped; the
  values are passed on unchanged (1-based, as pdftk expects them).
 */
module Selection {
  import opened Base
  import opened Dedup
  import opened ConfigDoc

  /** `pageIndex` whenever it is set, 0 included; otherwise `page`. `pageNumber` is never read. */
  function EffectiveIndex(pc: PageConfig): Option<int> {
    if pc.pageIndex.Some? then pc.pageIndex else pc.page
  }

  function OptionSeq<T>(o: Option<T>): seq<T> {
    if o.Some? then [o.value] else []
  }

  /** The effective indices in entry order, entries without one left out. */
  function Candidates(ps: seq<PageConfig>): (r: seq<int>)
    ensures |r| <= |ps|
  {
    if |ps| == 0 then [] else Candidates(ps[..|ps| - 1]) + OptionSeq(EffectiveIndex(ps[|ps| - 1]))
  }

  /**
    Reference definition of the selection: the distinct effective indices in
    order of first occurrence (Kotlin writes exactly this, as
    `mapNotNull { pageIndex ?: page }.distinct()`).
   */
  function Selected(ps: seq<PageConfig>): seq<int> {
    KeepFirst(Candidates(ps))
  }

  lemma CandidatesSnoc(ps: seq<PageConfig>, pc: PageConfig)
    ensures Candidates(ps + [pc]) == Candidates(ps) + OptionSeq(EffectiveIndex(pc))
  {
    assert (ps + [pc])[..|ps|] == ps;
  }

  /** A value is a candidate exactly when it is the effective index of some entry. */
  lemma {:induction false} CandidatesMembers(ps: seq<PageConfig>)
    ensures forall v :: v in Candidates(ps) <==>
      exists i :: 0 <= i < |ps| && EffectiveIndex(ps[i]) == Some(v)
    decreases |ps|
  {
    if |ps| > 0 {
      var init := ps[..|ps| - 1];
      CandidatesMembers(init);
      forall v
        ensures v in Candidates(ps) <==> exists i :: 0 <= i < |ps| && EffectiveIndex(ps[i]) == Some(v)
      {
        if v in Candidates(ps) {
          if v in Candidates(init) {
            var i :| 0 <= i < |init| && EffectiveIndex(init[i]) == Some(v);
            assert ps[i] == init[i];
          } else {
            assert EffectiveIndex(ps[|ps| - 1]) == Some(v);
          }
        }
        if exists i :: 0 <= i < |ps| && EffectiveIndex(ps[i]) == Some(v) {
          var i :| 0 <= i < |ps| && EffectiveIndex(ps[i]) == Some(v);
          if i < |ps| - 1 {
            assert init[i] == ps[i];
          }
        }
      }
    }
  }

  /** One step of the loop: what the selection and the seen-set become after one more entry. */
  lemma SelectStep(prefix: seq<PageConfig>, pc: PageConfig)
    ensures var idx := EffectiveIndex(pc);
      Selected(prefix + [pc]) ==
        Selected(prefix) + (if idx.Some? && idx.value !in Elems(Candidates(prefix)) then [idx.value] else [])
    ensures var idx := EffectiveIndex(pc);
      Elems(Candidates(prefix + [pc])) == Elems(Candidates(prefix)) + (if idx.Some? then {idx.value} else {})
  {
    var idx := EffectiveIndex(pc);
    CandidatesSnoc(prefix, pc);
    if idx.Some? {
      KeepFirstSnoc(Candidates(prefix), idx.value);
    } else {
      assert Candidates(prefix + [pc]) == Candidates(prefix);
    }
  }

  /**
    The loop every typed implementation writes: a seen-set and a result list,
    walked once over the entries.
   */
  method ExtractPageIndices(ps: seq<PageConfig>) returns (selected: seq<int>)
    ensures selected == Selected(ps)
    ensures NoDup(selected)
    ensures |selected| <= |ps|
    ensures forall v :: v in selected <==> exists i :: 0 <= i < |ps| && EffectiveIndex(ps[i]) == Some(v)
  {
    selected := [];
    var seen: set<int> := {};
    var i := 0;
    while i < |ps|
      invariant 0 <= i <= |ps|
      invariant selected == Selected(ps[..i])
      invariant seen == Elems(Candidates(ps[..i]))
    {
      var pc := ps[i];
      var idx: Option<int> := None;
      if pc.pageIndex.Some? {
        idx := pc.pageIndex;
      } else if pc.page.Some? {
        idx := pc.page;
      }
      LoopStep(ps, i, selected, seen);
      if idx.Some? && idx.value !in seen {
        selected := selected + [idx.value];
        seen := seen + {idx.value};
      }
      i := i + 1;
    }
    assert ps[..|ps|] == ps;
    SelectedProperties(ps);
  }

  /** One pass of the loop keeps the result list and the seen-set equal to the selection so far and its values. */
  lemma LoopStep(ps: seq<PageConfig>, i: int, selected: seq<int>, seen: set<int>)
    requires 0 <= i < |ps|
    requires selected == Selected(ps[..i]) && seen == Elems(Candidates(ps[..i]))
    ensures var idx := EffectiveIndex(ps[i]);
      var isNew := idx.Some? && idx.value !in seen;
      (if isNew then selected + [idx.value] else selected) == Selected(ps[..i + 1]) &&
      (if isNew then seen + {idx.value} else seen) == Elems(Candidates(ps[..i + 1]))
  {
    var idx := EffectiveIndex(ps[i]);
    assert ps[..i + 1] == ps[..i] + [ps[i]];
    SelectStep(ps[..i], ps[i]);
    if idx.Some? && idx.value in seen {
      assert seen + {idx.value} == seen;
    }
  }

  /** The selection holds exactly the effective indices, each once, and is no longer than the list. */
  lemma SelectedProperties(ps: seq<PageConfig>)
    ensures NoDup(Selected(ps))
    ensures |Selected(ps)| <= |ps|
    ensures forall v :: v in Selected(ps) <==> exists i :: 0 <= i < |ps| && EffectiveIndex(ps[i]) == Some(v)
  {
    KeepFirstNoDup(Candidates(ps));
    KeepFirstShorter(Candidates(ps));
    KeepFirstElems(Candidates(ps));
    CandidatesMembers(ps);
    assert forall v :: v in Selected(ps) <==> v in Elems(Selected(ps));
  }

  /** Values come out in the order in which they first occur among the effective indices. */
  lemma SelectedOrder(ps: seq<PageConfig>, i: int, j: int)
    requires 0 <= i < j < |Selected(ps)|
    ensures Selected(ps)[i] in Candidates(ps) && Selected(ps)[j] in Candidates(ps)
    ensures FirstIndex(Candidates(ps), Selected(ps)[i]) < FirstIndex(Candidates(ps), Selected(ps)[j])
  {
    KeepFirstOrder(Candidates(ps), i, j);
  }

  /** A later entry whose index already occurred leaves the selection unchanged. */
  lemma LaterDuplicateDropped(ps: seq<PageConfig>, pc: PageConfig)
    requires EffectiveIndex(pc).Some? && EffectiveIndex(pc).value in Selected(ps)
    ensures Selected(ps + [pc]) == Selected(ps)
  {
    CandidatesSnoc(ps, pc);
    KeepFirstElems(Candidates(ps));
    assert EffectiveIndex(pc).value in Elems(Selected(ps));
    KeepFirstSnoc(Candidates(ps), EffectiveIndex(pc).value);
  }

  /** A new index is appended at the end. */
  lemma NewIndexAppended(ps: seq<PageConfig>, pc: PageConfig)
    requires EffectiveIndex(pc).Some? && EffectiveIndex(pc).value !in Selected(ps)
    ensures Selected(ps + [pc]) == Selected(ps) + [EffectiveIndex(pc).value]
  {
    CandidatesSnoc(ps, pc);
    KeepFirstElems(Candidates(ps));
    assert EffectiveIndex(pc).value !in Elems(Selected(ps));
    KeepFirstSnoc(Candidates(ps), EffectiveIndex(pc).value);
  }

  /** An entry with neither `pageIndex` nor `page` contributes nothing. */
  lemma NoIndexNoEffect(ps: seq<PageConfig>, pageNumber: Option<int>)
    ensures Selected(ps + [PageConfig(None, None, pageNumber)]) == Selected(ps)
  {
    CandidatesSnoc(ps, PageConfig(None, None, pageNumber));
    assert Candidates(ps) + [] == Candidates(ps);
  }

  /** Two lists that agree on `pageIndex` and `page` select the same pages, whatever `pageNumber` says. */
  lemma {:induction false} PageNumberIgnored(ps: seq<PageConfig>, qs: seq<PageConfig>)
    requires |ps| == |qs|
    requires forall i :: 0 <= i < |ps| ==> ps[i].pageIndex == qs[i].pageIndex && ps[i].page == qs[i].page
    ensures Selected(ps) == Selected(qs)
  {
    CandidatesAgree(ps, qs);
  }

  lemma {:induction false} CandidatesAgree(ps: seq<PageConfig>, qs: seq<PageConfig>)
    requires |ps| == |qs|
    requires forall i :: 0 <= i < |ps| ==> ps[i].pageIndex == qs[i].pageIndex && ps[i].page == qs[i].page
    ensures Candidates(ps) == Candidates(qs)
    decreases |ps|
  {
    if |ps| > 0 {
      CandidatesAgree(ps[..|ps| - 1], qs[..|qs| - 1]);
      assert EffectiveIndex(ps[|ps| - 1]) == EffectiveIndex(qs[|qs| - 1]);
    }
  }

  /**
    The worked example: `pageIndex: 3`, then `page: 3` (a repeat), then
    `pageIndex: 7` select [3, 7]; `pageIndex: 0` beats `page: 5`.
   */
  lemma SelectionExamples()
    ensures Selected([PageConfig(Some(3), None, None), PageConfig(None, Some(3), Some(9)),
                      PageConfig(Some(7), None, None)]) == [3, 7]
    ensures Selected([PageConfig(Some(0), Some(5), None)]) == [0]
  {
    RepeatExample(PageConfig(Some(3), None, None), PageConfig(None, Some(3), Some(9)), PageConfig(Some(7), None, None));
    var d := PageConfig(Some(0), Some(5), None);
    SelectStep([], d);
    assert [] + [d] == [d];
  }

  /** Any three entries shaped like the worked example select [3, 7]. */
  lemma RepeatExample(a: PageConfig, b: PageConfig, c: PageConfig)
    requires a.pageIndex == Some(3)
    requires b.pageIndex.None? && b.page == Some(3)
    requires c.pageIndex == Some(7)
    ensures Selected([a, b, c]) == [3, 7]
  {
    FirstEntry(a);
    RepeatDropped(a, b);
    assert [a, b] + [c] == [a, b, c];
    NewIndexAppended([a, b], c);
  }

  lemma FirstEntry(a: PageConfig)
    requires a.pageIndex == Some(3)
    ensures Selected([a]) == [3]
  {
    assert Selected([]) == [];
    assert [] + [a] == [a];
    NewIndexAppended([], a);
  }

  lemma RepeatDropped(a: PageConfig, b: PageConfig)
    requires Selected([a]) == [3]
    requires b.pageIndex.None? && b.page == Some(3)
    ensures Selected([a, b]) == [3]
  {
    assert [a] + [b] == [a, b];
    LaterDuplicateDropped([a], b);
  }

}
