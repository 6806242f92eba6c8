/**
  Small shared vocabulary: optional values, results that carry an error, and
  a few sequence helpers used by every other module.
 */
module Base {

  /** A value that may be absent (a nil pointer, a null, an unset option). */
  datatype Option<+T> = None | Some(value: T) {
    function GetOr(default: T): T {
      match this
      case Some(v) => v
      case None => default
    }
  }

  /** The outcome of a step that either produces a value or raises/returns an error. */
  datatype Result<+T, +E> = Ok(value: T) | Err(error: E)

  /** The elements of a sequence, as a set. */
  function Elems<T>(xs: seq<T>): set<T> {
    set x | x in xs
  }

  /** No value occurs twice. */
  predicate NoDup<T(==)>(xs: seq<T>) {
    forall i, j :: 0 <= i < j < |xs| ==> xs[i] != xs[j]
  }

  /** Applies `f` to every element, keeping the order. */
  function Map<T, U>(f: T -> U, xs: seq<T>): (r: seq<U>)
    ensures |r| == |xs|
    ensures forall i :: 0 <= i < |xs| ==> r[i] == f(xs[i])
  {
    if |xs| == 0 then [] else [f(xs[0])] + Map(f, xs[1..])
  }

  lemma MapAppend<T, U>(f: T -> U, xs: seq<T>, ys: seq<T>)
    ensures Map(f, xs + ys) == Map(f, xs) + Map(f, ys)
  {
  }

  lemma LastSplit<T>(xs: seq<T>)
    requires |xs| > 0
    ensures xs == xs[..|xs| - 1] + [xs[|xs| - 1]]
  {
  }

  lemma MapSnoc<T, U>(f: T -> U, xs: seq<T>)
    requires |xs| > 0
    ensures Map(f, xs) == Map(f, xs[..|xs| - 1]) + [f(xs[|xs| - 1])]
  {
    var r, s := Map(f, xs), Map(f, xs[..|xs| - 1]) + [f(xs[|xs| - 1])];
    forall i | 0 <= i < |xs|
      ensures r[i] == s[i]
    {
      if i < |xs| - 1 {
        assert s[i] == Map(f, xs[..|xs| - 1])[i] == f(xs[i]);
      }
    }
    assert |r| == |s|;
  }

  lemma MapPrefix<T, U>(f: T -> U, xs: seq<T>, k: int)
    requires 0 <= k <= |xs|
    ensures Map(f, xs)[..k] == Map(f, xs[..k])
  {
    forall i | 0 <= i < k
      ensures Map(f, xs)[..k][i] == Map(f, xs[..k])[i]
    {
      assert xs[..k][i] == xs[i];
    }
  }

  /** The number of elements of `xs` that satisfy `p`. */
  function Count<T>(p: T -> bool, xs: seq<T>): nat {
    if |xs| == 0 then 0 else (if p(xs[0]) then 1 else 0) + Count(p, xs[1..])
  }

  lemma CountAppend<T>(p: T -> bool, xs: seq<T>, ys: seq<T>)
    ensures Count(p, xs + ys) == Count(p, xs) + Count(p, ys)
  {
    if |xs| == 0 {
      assert xs + ys == ys;
    } else {
      assert (xs + ys)[0] == xs[0];
      assert (xs + ys)[1..] == xs[1..] + ys;
      CountAppend(p, xs[1..], ys);
    }
  }

  /** `sub` occurs as a contiguous block of `s`. */
  predicate Contains(s: string, sub: string)
    decreases |s|
  {
    |sub| <= |s| && (s[..|sub|] == sub || Contains(s[1..], sub))
  }
}
