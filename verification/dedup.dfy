/**
  First-occurrence de-duplication, the fold every implementation writes with a
  "seen" set: walk the list in order, emit a value the first time it appears,
  drop it afterwards.

  `DedupFold` is that fold as written (front to back, carrying the seen set);
  `KeepFirst` is an independent reference definition (a value is kept exactly
  when it does not occur earlier). The lemmas relate the two and state what
  the result promises: no duplicates, the same set of values, first-occurrence
  order, and idempotence.
 */
module Dedup {
  import opened Base

  /** The seen-set fold: `seen` holds the values already emitted. */
  function DedupFold<T(==)>(xs: seq<T>, seen: set<T>): seq<T>
  {
    if |xs| == 0 then []
    else if xs[0] in seen then DedupFold(xs[1..], seen)
    else [xs[0]] + DedupFold(xs[1..], seen + {xs[0]})
  }

  /** Reference definition: the last element is kept iff it does not occur before it. */
  function KeepFirst<T(==)>(xs: seq<T>): seq<T>
  {
    if |xs| == 0 then []
    else
      var init := xs[..|xs| - 1];
      KeepFirst(init) + (if xs[|xs| - 1] in init then [] else [xs[|xs| - 1]])
  }

  /** Position of the first occurrence of `x` in `xs`. */
  function FirstIndex<T(==)>(xs: seq<T>, x: T): (k: nat)
    requires x in xs
    ensures k < |xs| && xs[k] == x
    ensures forall j :: 0 <= j < k ==> xs[j] != x
  {
    if xs[0] == x then 0 else 1 + FirstIndex(xs[1..], x)
  }

  lemma KeepFirstSnoc<T>(xs: seq<T>, x: T)
    ensures KeepFirst(xs + [x]) == KeepFirst(xs) + (if x in xs then [] else [x])
  {
    assert (xs + [x])[..|xs|] == xs;
  }

  /** The fold started with the values of a prefix continues the reference definition. */
  lemma {:induction false} FoldExtends<T>(prefix: seq<T>, xs: seq<T>)
    ensures KeepFirst(prefix + xs) == KeepFirst(prefix) + DedupFold(xs, Elems(prefix))
    decreases |xs|
  {
    if |xs| == 0 {
      assert prefix + xs == prefix;
    } else {
      var x := xs[0];
      var p' := prefix + [x];
      assert prefix + xs == p' + xs[1..];
      FoldExtends(p', xs[1..]);
      KeepFirstSnoc(prefix, x);
      assert Elems(p') == Elems(prefix) + {x};
      if x in prefix {
        assert Elems(p') == Elems(prefix);
      }
    }
  }

  /** The seen-set fold computes exactly the reference definition. */
  lemma FoldIsKeepFirst<T>(xs: seq<T>)
    ensures DedupFold(xs, {}) == KeepFirst(xs)
  {
    FoldExtends([], xs);
    assert [] + xs == xs;
    assert Elems<T>([]) == {};
  }

  /** Nothing new appears and nothing is lost: the result holds the same values. */
  lemma {:induction false} KeepFirstElems<T>(xs: seq<T>)
    ensures Elems(KeepFirst(xs)) == Elems(xs)
    decreases |xs|
  {
    if |xs| > 0 {
      var init := xs[..|xs| - 1];
      var last := xs[|xs| - 1];
      KeepFirstElems(init);
      assert xs == init + [last];
      assert Elems(xs) == Elems(init) + {last};
      var tail := if last in init then [] else [last];
      assert KeepFirst(xs) == KeepFirst(init) + tail;
      assert Elems(KeepFirst(init) + tail) == Elems(KeepFirst(init)) + Elems(tail);
    }
  }

  /** The result never contains the same value twice. */
  lemma {:induction false} KeepFirstNoDup<T>(xs: seq<T>)
    ensures NoDup(KeepFirst(xs))
    decreases |xs|
  {
    if |xs| > 0 {
      var init := xs[..|xs| - 1];
      var last := xs[|xs| - 1];
      KeepFirstNoDup(init);
      KeepFirstElems(init);
      if last !in init {
        assert last !in Elems(KeepFirst(init));
        assert KeepFirst(xs) == KeepFirst(init) + [last];
      }
    }
  }

  /** The result is never longer than the input. */
  lemma {:induction false} KeepFirstShorter<T>(xs: seq<T>)
    ensures |KeepFirst(xs)| <= |xs|
    decreases |xs|
  {
    if |xs| > 0 {
      KeepFirstShorter(xs[..|xs| - 1]);
    }
  }

  lemma FirstIndexPrefix<T>(xs: seq<T>, ys: seq<T>, x: T)
    requires x in xs
    ensures x in xs + ys && FirstIndex(xs + ys, x) == FirstIndex(xs, x)
  {
    var k := FirstIndex(xs, x);
    var k' := FirstIndex(xs + ys, x);
    assert (xs + ys)[k] == x;
    forall j | 0 <= j < k
      ensures (xs + ys)[j] != x
    {
      assert (xs + ys)[j] == xs[j];
    }
  }

  /**
    First-occurrence order: values come out in the order of their first
    appearance in the input.
   */
  lemma {:induction false} KeepFirstOrder<T>(xs: seq<T>, i: int, j: int)
    requires 0 <= i < j < |KeepFirst(xs)|
    ensures KeepFirst(xs)[i] in xs && KeepFirst(xs)[j] in xs
    ensures FirstIndex(xs, KeepFirst(xs)[i]) < FirstIndex(xs, KeepFirst(xs)[j])
    decreases |xs|
  {
    var init := xs[..|xs| - 1];
    var last := xs[|xs| - 1];
    var r := KeepFirst(xs);
    var r0 := KeepFirst(init);
    assert xs == init + [last];
    KeepFirstElems(init);
    assert r == r0 + (if last in init then [] else [last]);
    assert Elems(r0) == Elems(init);
    assert r[i] in Elems(r0) by { assert r[i] == r0[i]; }
    FirstIndexPrefix(init, [last], r[i]);
    if j < |r0| {
      assert r[j] == r0[j] && r[i] == r0[i];
      assert r0[j] in Elems(r0);
      FirstIndexPrefix(init, [last], r[j]);
      KeepFirstOrder(init, i, j);
    } else {
      assert r[j] == last && last !in init;
      forall k | 0 <= k < |xs| - 1
        ensures xs[k] != last
      {
        assert xs[k] == init[k];
      }
      assert FirstIndex(xs, last) == |xs| - 1;
    }
  }

  /** A list without duplicates is left as it is; in particular the operation is idempotent. */
  lemma {:induction false} KeepFirstOfNoDup<T>(xs: seq<T>)
    requires NoDup(xs)
    ensures KeepFirst(xs) == xs
    decreases |xs|
  {
    if |xs| > 0 {
      var init := xs[..|xs| - 1];
      assert NoDup(init);
      KeepFirstOfNoDup(init);
      forall k | 0 <= k < |init|
        ensures init[k] != xs[|xs| - 1]
      {
        assert init[k] == xs[k];
      }
      assert xs == init + [xs[|xs| - 1]];
    }
  }

  lemma KeepFirstIdempotent<T>(xs: seq<T>)
    ensures KeepFirst(KeepFirst(xs)) == KeepFirst(xs)
  {
    KeepFirstNoDup(xs);
    KeepFirstOfNoDup(KeepFirst(xs));
  }

  /**
    De-duplicating and then renaming with an injective function is the same
    as renaming and then de-duplicating.
   */
  lemma {:induction false} KeepFirstInjectiveMap<T, U>(f: T -> U, xs: seq<T>)
    requires forall a, b :: f(a) == f(b) ==> a == b
    ensures KeepFirst(Map(f, xs)) == Map(f, KeepFirst(xs))
    decreases |xs|
  {
    if |xs| > 0 {
      var init := xs[..|xs| - 1];
      var last := xs[|xs| - 1];
      KeepFirstInjectiveMap(f, init);
      MapSnoc(f, xs);
      KeepFirstSnoc(Map(f, init), f(last));
      InjectiveMember(f, init, last);
      var tail := if last in init then [] else [last];
      assert KeepFirst(xs) == KeepFirst(init) + tail;
      MapAppend(f, KeepFirst(init), tail);
    }
  }

  /** Under an injective function, an image occurs exactly when its preimage does. */
  lemma InjectiveMember<T, U>(f: T -> U, xs: seq<T>, x: T)
    requires forall a, b :: f(a) == f(b) ==> a == b
    ensures f(x) in Map(f, xs) <==> x in xs
  {
    if f(x) in Map(f, xs) {
      var k :| 0 <= k < |xs| && Map(f, xs)[k] == f(x);
      assert xs[k] == x;
    }
    if x in xs {
      var k :| 0 <= k < |xs| && xs[k] == x;
      assert Map(f, xs)[k] == f(x);
    }
  }

}
