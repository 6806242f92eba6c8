/**
  Page selection as the dynamically typed implementations write it. They read
  the parsed document directly, so an index can be any scalar, and each
  language brings its own idea of "absent":

  - Ruby: `pageIndex || page` (only nil and false are falsy), kept when the
    value responds to `to_i` (an integer or a string), de-duplicated on the
    raw value, emitted as `to_i`; entries that are not mappings are skipped.
  - PHP: `pageIndex ?? page` (only a missing key or null falls through), kept
    when `is_numeric`, de-duplicated strictly on the raw value, emitted as
    `(int)`; entries that are not arrays are skipped.
  - JavaScript (both Node variants): `pageIndex || page` (0, "" and false
    fall through), kept unless undefined/null, de-duplicated on the raw value,
    emitted as `idx - 1`; a null entry makes the property read throw, any
    other non-mapping entry has neither property.
  - Python: key presence decides (`'pageIndex' in entry`), so an explicit
    null shadows `page`; de-duplicated with Python equality (True == 1),
    emitted as `idx - 1`; a string index raises TypeError, and so does the
    `in` test on a number, a boolean or None; a string or a list has no `.get`.

  Each variant is related to the typed rule of `Selection` by a lemma stating
  exactly when the two agree, and by an example input on which they differ.
 */
module DynamicSelection {
  import opened Base
  import opened Dedup
  import opened Numerals
  import opened ConfigDoc
  import opened Selection

  /** The per-entry candidates of a variant, in entry order. */
  function Pick<T>(f: Entry -> Option<T>, es: seq<Entry>): (r: seq<T>)
    ensures |r| <= |es|
  {
    if |es| == 0 then [] else Pick(f, es[..|es| - 1]) + OptionSeq(f(es[|es| - 1]))
  }

  lemma PickSnoc<T>(f: Entry -> Option<T>, es: seq<Entry>, e: Entry)
    ensures Pick(f, es + [e]) == Pick(f, es) + OptionSeq(f(e))
  {
    assert (es + [e])[..|es|] == es;
  }

  /** Nothing is picked when no entry yields a value. */
  lemma {:induction false} PickNone<T>(f: Entry -> Option<T>, es: seq<Entry>)
    requires forall i :: 0 <= i < |es| ==> f(es[i]).None?
    ensures Pick(f, es) == []
    decreases |es|
  {
    if |es| > 0 {
      PickNone(f, es[..|es| - 1]);
    }
  }

  /** A value is picked exactly when some entry yields it. */
  lemma {:induction false} PickMembers<T>(f: Entry -> Option<T>, es: seq<Entry>)
    ensures forall v :: v in Pick(f, es) <==> exists i :: 0 <= i < |es| && f(es[i]) == Some(v)
    decreases |es|
  {
    if |es| > 0 {
      var init := es[..|es| - 1];
      PickMembers(f, init);
      forall v
        ensures v in Pick(f, es) <==> exists i :: 0 <= i < |es| && f(es[i]) == Some(v)
      {
        if v in Pick(f, es) {
          if v in Pick(f, init) {
            var i :| 0 <= i < |init| && f(init[i]) == Some(v);
            assert es[i] == init[i];
          } else {
            assert f(es[|es| - 1]) == Some(v);
          }
        }
        if exists i :: 0 <= i < |es| && f(es[i]) == Some(v) {
          var i :| 0 <= i < |es| && f(es[i]) == Some(v);
          if i < |es| - 1 {
            assert init[i] == es[i];
          }
        }
      }
    }
  }

  /**
    When every entry yields `h` of the typed effective index of the matching
    decoded entry, the picked values are `h` applied to the typed candidates.
   */
  lemma {:induction false} PickAgrees<T>(f: Entry -> Option<T>, h: int -> T, es: seq<Entry>, ps: seq<PageConfig>)
    requires |es| == |ps|
    requires forall i :: 0 <= i < |es| ==> f(es[i]) == Lift(h, EffectiveIndex(ps[i]))
    ensures Pick(f, es) == Map(h, Candidates(ps))
    decreases |es|
  {
    if |es| > 0 {
      var n := |es| - 1;
      forall i | 0 <= i < n
        ensures f(es[..n][i]) == Lift(h, EffectiveIndex(ps[..n][i]))
      {
        assert es[..n][i] == es[i] && ps[..n][i] == ps[i];
      }
      PickAgrees(f, h, es[..n], ps[..n]);
      assert Candidates(ps) == Candidates(ps[..n]) + OptionSeq(EffectiveIndex(ps[n]));
      MapAppend(h, Candidates(ps[..n]), OptionSeq(EffectiveIndex(ps[n])));
    }
  }

  function Lift<T>(h: int -> T, o: Option<int>): Option<T> {
    if o.Some? then Some(h(o.value)) else None
  }

  function IntScalar(i: int): Scalar {
    Int(i)
  }

  /** The 0-based offset the JavaScript and Python variants emit. */
  function ZeroBased(i: int): int {
    i - 1
  }

  /** De-duplicating raw integers wrapped as scalars is de-duplicating the integers. */
  lemma DedupIntScalars(xs: seq<int>)
    ensures DedupFold(Map(IntScalar, xs), {}) == Map(IntScalar, KeepFirst(xs))
  {
    FoldIsKeepFirst(Map(IntScalar, xs));
    KeepFirstInjectiveMap(IntScalar, xs);
  }

  // ---------------------------------------------------------------- Ruby

  predicate RubyTruthy(f: Field) {
    f.Present? && !f.value.Null? && f.value != Bool(false)
  }

  /** `pageIndex || page`, kept when it responds to `to_i`; non-mappings are skipped. */
  function RubyIndex(e: Entry): (r: Option<Scalar>)
    ensures r.Some? ==> r.value.Int? || r.value.Str?
    ensures !e.Mapping? ==> r.None?
  {
    match e
    case Mapping(pi, p, _) =>
      var v := if RubyTruthy(pi) then pi else p;
      if v.Present? && (v.value.Int? || v.value.Str?) then Some(v.value) else None
    case _ => None
  }

  /** `to_i`: an integer is itself, a string reads its leading integer (`Numerals.LeadingInteger`). */
  function RubyToI(s: Scalar): int {
    match s
    case Int(i) => i
    case Str(t) => LeadingInteger(t)
    case _ => 0
  }

  /** The `filter_map` with a seen-set over the raw values. */
  function RubySeen(es: seq<Entry>): seq<Scalar> {
    DedupFold(Pick(RubyIndex, es), {})
  }

  function RubySelect(es: seq<Entry>): seq<int> {
    Map(RubyToI, RubySeen(es))
  }

  /**
    The raw values that pass the seen-set check are distinct, are exactly the
    convertible indices of the entries, and there are no more of them than entries.
   */
  lemma RubySeenProperties(es: seq<Entry>)
    ensures NoDup(RubySeen(es))
    ensures |RubySelect(es)| <= |es|
    ensures forall v :: v in RubySeen(es) <==> exists i :: 0 <= i < |es| && RubyIndex(es[i]) == Some(v)
  {
    var c := Pick(RubyIndex, es);
    FoldIsKeepFirst(c);
    KeepFirstNoDup(c);
    KeepFirstShorter(c);
    KeepFirstElems(c);
    PickMembers(RubyIndex, es);
    assert forall v :: v in RubySeen(es) <==> v in Elems(RubySeen(es));
  }

  /** On a list the typed implementations decode, Ruby selects exactly what they select. */
  lemma RubyAgreesWithTyped(es: seq<Entry>, ps: seq<PageConfig>)
    requires DecodeEntries(es) == Ok(ps)
    ensures RubySelect(es) == Selected(ps)
  {
    forall i | 0 <= i < |es|
      ensures RubyIndex(es[i]) == Lift(IntScalar, EffectiveIndex(ps[i]))
    {
      assert DecodeEntry(es[i]) == Ok(ps[i]);
    }
    PickAgrees(RubyIndex, IntScalar, es, ps);
    DedupIntScalars(Candidates(ps));
    var k := KeepFirst(Candidates(ps));
    assert Map(RubyToI, Map(IntScalar, k)) == k;
  }

  /**
    Ruby de-duplicates the raw value: the integer 3 and the string "3" are
    different keys, so page 3 is emitted twice.
   */
  lemma RubyMixedKindsRepeat()
    ensures RubySelect([Mapping(Present(Int(3)), Missing, Missing),
                        Mapping(Present(Str("3")), Missing, Missing)]) == [3, 3]
  {
    var a, b := Mapping(Present(Int(3)), Missing, Missing), Mapping(Present(Str("3")), Missing, Missing);
    PickSnoc(RubyIndex, [], a);
    PickSnoc(RubyIndex, [a], b);
    assert [] + [a] == [a];
    assert [a] + [b] == [a, b];
    assert Pick(RubyIndex, [a, b]) == [Int(3), Str("3")];
    assert [Int(3), Str("3")][1..] == [Str("3")];
    assert DedupFold([Str("3")], {Int(3)}) == [Str("3")];
    assert DedupFold([Int(3), Str("3")], {}) == [Int(3)] + DedupFold([Str("3")], {Int(3)});
    assert RubySeen([a, b]) == [Int(3), Str("3")];
    RubyThree();
  }

  lemma RubyThree()
    ensures RubyToI(Str("3")) == 3
  {
    LeadingIntegerIgnoresTail(3, "");
    assert Digits(3) == "3";
    assert Digits(3) + "" == "3";
  }

  // ---------------------------------------------------------------- PHP

  /** `a ?? b`: the first key that is present and not null. */
  function Coalesce(a: Field, b: Field): (r: Field)
    ensures r.Present? && !r.value.Null? <==>
      (a.Present? && !a.value.Null?) || (b.Present? && !b.value.Null?)
  {
    if a.Present? && !a.value.Null? then a else b
  }

  /** `is_int($idx) || is_numeric($idx)`: an integer, or a numeric string (`Numerals.ParseNumeral`). */
  predicate PhpNumeric(s: Scalar) {
    s.Int? || (s.Str? && ParseNumeral(s.s).Some?)
  }

  /** `pageIndex ?? page`, kept when numeric; a `false` index shadows `page`. */
  function PhpIndex(e: Entry): (r: Option<Scalar>)
    ensures r.Some? ==> PhpNumeric(r.value)
    ensures !e.Mapping? ==> r.None?
  {
    match e
    case Mapping(pi, p, _) =>
      var v := Coalesce(pi, p);
      if v.Present? && PhpNumeric(v.value) then Some(v.value) else None
    case _ => None
  }

  /** `(int)` of a numeric value: a numeric string is rounded toward zero. */
  function PhpToInt(s: Scalar): int {
    match s
    case Int(i) => i
    case Str(t) => if ParseNumeral(t).Some? then Truncate(ParseNumeral(t).value) else 0
    case _ => 0
  }

  /** Integer text is numeric and `(int)` reads it back. */
  lemma PhpToIntOfIntegerText(t: string)
    requires IsIntegerText(t)
    ensures PhpNumeric(Str(t)) && PhpToInt(Str(t)) == ParseInteger(t)
  {
    NumeralOfIntegerText(t);
  }

  /** Blanks, a fraction and an exponent are numeric too; `(int)` rounds toward zero. */
  lemma PhpNumericForms()
    ensures PhpNumeric(Str(" 12")) && PhpToInt(Str(" 12")) == 12
    ensures PhpNumeric(Str("1.5")) && PhpToInt(Str("1.5")) == 1
    ensures PhpNumeric(Str("1e3")) && PhpToInt(Str("1e3")) == 1000
    ensures !PhpNumeric(Str("")) && !PhpNumeric(Str("1e"))
  {
    PhpBlankNumeric();
    PhpFractionNumeric();
    PhpExponentNumeric();
    PhpRejects();
  }

  /** The empty string and an exponent without digits are not numeric. */
  lemma PhpRejects()
    ensures !PhpNumeric(Str("")) && !PhpNumeric(Str("1e"))
  {
    NumeralRejects();
  }

  lemma PhpBlankNumeric()
    ensures PhpNumeric(Str(" 12")) && PhpToInt(Str(" 12")) == 12
  {
    NumeralBlank();
  }

  lemma PhpFractionNumeric()
    ensures PhpNumeric(Str("1.5")) && PhpToInt(Str("1.5")) == 1
  {
    NumeralFraction();
    PhpOfNumeral("1.5", Numeral(false, 15, -1), 1);
  }

  lemma PhpExponentNumeric()
    ensures PhpNumeric(Str("1e3")) && PhpToInt(Str("1e3")) == 1000
  {
    NumeralExponent();
    PhpOfNumeral("1e3", Numeral(false, 1, 3), 1000);
  }

  /** A string that parses as a numeral is numeric, and `(int)` truncates that numeral. */
  lemma PhpOfNumeral(t: string, n: Numeral, v: int)
    requires ParseNumeral(t) == Some(n) && Truncate(n) == v
    ensures PhpNumeric(Str(t)) && PhpToInt(Str(t)) == v
  {
  }

  /** The `in_array($idx, $seen, true)` loop: strict comparison on the raw value. */
  function PhpSeen(es: seq<Entry>): seq<Scalar> {
    DedupFold(Pick(PhpIndex, es), {})
  }

  function PhpSelect(es: seq<Entry>): seq<int> {
    Map(PhpToInt, PhpSeen(es))
  }

  lemma PhpSeenProperties(es: seq<Entry>)
    ensures NoDup(PhpSeen(es))
    ensures |PhpSelect(es)| <= |es|
    ensures forall v :: v in PhpSeen(es) <==> exists i :: 0 <= i < |es| && PhpIndex(es[i]) == Some(v)
  {
    var c := Pick(PhpIndex, es);
    FoldIsKeepFirst(c);
    KeepFirstNoDup(c);
    KeepFirstShorter(c);
    KeepFirstElems(c);
    PickMembers(PhpIndex, es);
    assert forall v :: v in PhpSeen(es) <==> v in Elems(PhpSeen(es));
  }

  /** On a list the typed implementations decode, PHP selects exactly what they select. */
  lemma PhpAgreesWithTyped(es: seq<Entry>, ps: seq<PageConfig>)
    requires DecodeEntries(es) == Ok(ps)
    ensures PhpSelect(es) == Selected(ps)
  {
    forall i | 0 <= i < |es|
      ensures PhpIndex(es[i]) == Lift(IntScalar, EffectiveIndex(ps[i]))
    {
      assert DecodeEntry(es[i]) == Ok(ps[i]);
    }
    PickAgrees(PhpIndex, IntScalar, es, ps);
    DedupIntScalars(Candidates(ps));
    var k := KeepFirst(Candidates(ps));
    assert Map(PhpToInt, Map(IntScalar, k)) == k;
  }

  /**
    `false ?? 4` is `false`, which is not numeric: PHP skips the entry where
    Ruby's `||` falls through to `page`.
   */
  lemma PhpFalseShadowsPage()
    ensures PhpSelect([Mapping(Present(Bool(false)), Present(Int(4)), Missing)]) == []
    ensures RubySelect([Mapping(Present(Bool(false)), Present(Int(4)), Missing)]) == [4]
  {
    var a := Mapping(Present(Bool(false)), Present(Int(4)), Missing);
    PickSnoc(PhpIndex, [], a);
    PickSnoc(RubyIndex, [], a);
    assert [] + [a] == [a];
    assert Pick(PhpIndex, [a]) == [];
    assert Pick(RubyIndex, [a]) == [Int(4)];
    assert DedupFold([Int(4)], {}) == [Int(4)];
  }

  // ---------------------------------------------------------------- JavaScript

  predicate JsTruthy(s: Scalar) {
    match s
    case Null => false
    case Bool(b) => b
    case Int(i) => i != 0
    case Str(t) => t != ""
  }

  /**
    A JavaScript number as far as `idx - 1` can produce one: an integer, a
    number with a fractional part or an infinity, or NaN.
   */
  datatype JsNum = Num(n: int) | NonInteger | NaN

  /**
    `pageIndex || page`, kept unless undefined or null. A falsy `page` value
    is kept; an entry that is not a mapping has neither property.
   */
  function JsIndex(e: Entry): (r: Option<Scalar>)
    ensures r.Some? ==> !r.value.Null?
    ensures !e.Mapping? ==> r.None?
  {
    match e
    case Mapping(pi, p, _) =>
      var v := if pi.Present? && JsTruthy(pi.value) then pi else p;
      if v.Present? && !v.value.Null? then Some(v.value) else None
    case _ => None
  }

  /** Reading a property of a null entry throws TypeError. */
  predicate JsThrows(e: Entry) {
    e == ScalarEntry(Null)
  }

  /**
    `idx - 1` with JavaScript's numeric coercion of the operand: a string is
    trimmed, blank text is 0, and otherwise it must be a decimal literal
    (`Numerals.ParseNumeral`) or a signed `Infinity`.
   */
  function JsMinusOne(s: Scalar): JsNum {
    match s
    case Null => Num(-1)
    case Bool(b) => Num(if b then 0 else -1)
    case Int(i) => Num(i - 1)
    case Str(t) =>
      match ParseNumeral(t)
      case Some(n) => if Integral(n) then Num(Truncate(n) - 1) else NonInteger
      case None => JsNonNumeral(TrimEnd(TrimStart(t)))
  }

  /** A trimmed string that is not a decimal literal: blank is 0, a signed `Infinity` is not an integer. */
  function JsNonNumeral(u: string): JsNum {
    if u == "" then Num(-1)
    else if u == "Infinity" || u == "+Infinity" || u == "-Infinity" then NonInteger
    else NaN
  }

  /** Integer text is read as the integer it writes. */
  lemma JsMinusOneOfIntegerText(t: string)
    requires IsIntegerText(t)
    ensures JsMinusOne(Str(t)) == Num(ParseInteger(t) - 1)
  {
    NumeralOfIntegerText(t);
    JsMinusOneOfNumeral(t, ParseNumeral(t).value, ParseInteger(t));
  }

  lemma JsMinusOneOfNumeral(t: string, n: Numeral, v: int)
    requires ParseNumeral(t) == Some(n) && Integral(n) && Truncate(n) == v
    ensures JsMinusOne(Str(t)) == Num(v - 1)
  {
  }

  /** Surrounding blanks are dropped, blank text counts as 0, and a fraction is not an integer. */
  lemma JsMinusOneForms()
    ensures JsMinusOne(Str(" 12")) == Num(11)
    ensures JsMinusOne(Str("1.5")) == NonInteger
    ensures JsMinusOne(Str("")) == Num(-1)
  {
    JsBlankText();
    JsFraction();
    JsEmptyText();
  }

  lemma JsBlankText()
    ensures JsMinusOne(Str(" 12")) == Num(11)
  {
    NumeralBlank();
    JsMinusOneOfNumeral(" 12", Numeral(false, 12, 0), 12);
  }

  lemma JsFraction()
    ensures JsMinusOne(Str("1.5")) == NonInteger
  {
    NumeralFraction();
    JsFractionOfNumeral("1.5", Numeral(false, 15, -1));
  }

  lemma JsFractionOfNumeral(t: string, n: Numeral)
    requires ParseNumeral(t) == Some(n) && !Integral(n)
    ensures JsMinusOne(Str(t)) == NonInteger
  {
  }

  lemma JsEmptyText()
    ensures JsMinusOne(Str("")) == Num(-1)
  {
    NumeralRejects();
    assert TrimStart("") == "" && TrimEnd("") == "";
  }

  function JsSeen(es: seq<Entry>): seq<Scalar> {
    DedupFold(Pick(JsIndex, es), {})
  }

  function JsSelect(es: seq<Entry>): seq<JsNum> {
    Map(JsMinusOne, JsSeen(es))
  }

  /**
    `config.pages || []` and the `for...of` over it: a string is iterated one
    character at a time; `None` where iterating the value throws (a truthy
    number or boolean, or a mapping).
   */
  function JsPageEntries(l: PageList): (r: Option<seq<Entry>>)
    ensures l.List? ==> r == Some(l.entries)
    ensures l.ListText? ==> r == Some(Chars(l.text))
    ensures r.None? <==> (l.ListAtom? && l.truthy) || l.ListMapping?
    ensures r.Some? && !l.List? && !l.ListText? ==> r.value == []
  {
    match l
    case ListMissing => Some([])
    case ListNull => Some([])
    case List(es) => Some(es)
    case ListText(t) => Some(Chars(t))
    case ListAtom(t) => if t then None else Some([])
    case ListMapping(_) => None
  }

  /** `extractPageIndices`: `None` where the loop throws. */
  function JsExtractPageIndices(l: PageList): (r: Option<seq<JsNum>>)
    ensures r.Some? <==> JsPageEntries(l).Some? && forall e :: e in JsPageEntries(l).value ==> !JsThrows(e)
    ensures r.Some? ==> r.value == JsSelect(JsPageEntries(l).value)
  {
    match JsPageEntries(l)
    case None => None
    case Some(es) => if exists e :: e in es && JsThrows(e) then None else Some(JsSelect(es))
  }

  /** A string `pages` is iterated without error and selects nothing. */
  lemma JsTextSelectsNothing(t: string)
    ensures Pick(JsIndex, Chars(t)) == []
    ensures JsExtractPageIndices(ListText(t)) == Some([])
  {
    var es := Chars(t);
    PickNone(JsIndex, es);
    assert forall e :: e in es ==> !JsThrows(e);
    assert DedupFold<Scalar>([], {}) == [];
  }

  function JsOffset(i: int): JsNum {
    Num(i - 1)
  }

  lemma JsSeenProperties(es: seq<Entry>)
    ensures NoDup(JsSeen(es))
    ensures |JsSelect(es)| <= |es|
    ensures forall v :: v in JsSeen(es) <==> exists i :: 0 <= i < |es| && JsIndex(es[i]) == Some(v)
  {
    var c := Pick(JsIndex, es);
    FoldIsKeepFirst(c);
    KeepFirstNoDup(c);
    KeepFirstShorter(c);
    KeepFirstElems(c);
    PickMembers(JsIndex, es);
    assert forall v :: v in JsSeen(es) <==> v in Elems(JsSeen(es));
  }

  lemma JsMinusOneOfInts(k: seq<int>)
    ensures Map(JsMinusOne, Map(IntScalar, k)) == Map(JsOffset, k)
  {
    var l, r := Map(JsMinusOne, Map(IntScalar, k)), Map(JsOffset, k);
    forall i | 0 <= i < |k| ensures l[i] == r[i] {
      assert Map(IntScalar, k)[i] == Int(k[i]);
    }
  }

  lemma JsIndexDecoded(e: Entry, pc: PageConfig)
    requires DecodeEntry(e) == Ok(pc) && pc.pageIndex != Some(0)
    ensures JsIndex(e) == Lift(IntScalar, EffectiveIndex(pc))
  {
  }

  /**
    When no entry has `pageIndex: 0`, JavaScript selects the typed selection
    with every value minus one.
   */
  lemma JsAgreesWithTyped(es: seq<Entry>, ps: seq<PageConfig>)
    requires DecodeEntries(es) == Ok(ps)
    requires forall i :: 0 <= i < |ps| ==> ps[i].pageIndex != Some(0)
    ensures JsSelect(es) == Map(JsOffset, Selected(ps))
  {
    forall i | 0 <= i < |es|
      ensures JsIndex(es[i]) == Lift(IntScalar, EffectiveIndex(ps[i]))
    {
      JsIndexDecoded(es[i], ps[i]);
    }
    PickAgrees(JsIndex, IntScalar, es, ps);
    DedupIntScalars(Candidates(ps));
    JsMinusOneOfInts(KeepFirst(Candidates(ps)));
  }

  /**
    `0 || 5` is 5: an explicit `pageIndex: 0` falls through to `page`, where
    the typed rule keeps 0.
   */
  lemma JsZeroFallsThrough()
    ensures JsSelect([Mapping(Present(Int(0)), Present(Int(5)), Missing)]) == [Num(4)]
    ensures Selected([PageConfig(Some(0), Some(5), None)]) == [0]
  {
    var a := Mapping(Present(Int(0)), Present(Int(5)), Missing);
    PickSnoc(JsIndex, [], a);
    assert [] + [a] == [a];
    assert JsIndex(a) == Some(Int(5));
    assert Pick(JsIndex, [a]) == [Int(5)];
    assert DedupFold([Int(5)], {}) == [Int(5)];
    SelectionExamples();
  }

  // ---------------------------------------------------------------- Python

  datatype PyError = FileNotFound | YamlError | AttributeError | TypeError | KeyError

  /**
    Key presence decides: a present `pageIndex` is used even when null. A
    boolean counts as 0 or 1; a string makes `idx - 1` raise TypeError. For
    an entry that is not a mapping, `'pageIndex' in entry` raises TypeError
    on a number, a boolean or None, and a string or a list has no `.get`.
   */
  function PyIndex(e: Entry): (r: Result<Option<int>, PyError>)
    ensures e.ScalarEntry? ==> r == Err(if e.item.Str? then AttributeError else TypeError)
    ensures e.NestedList? ==> r == Err(AttributeError)
  {
    match e
    case ScalarEntry(s) => Err(if s.Str? then AttributeError else TypeError)
    case NestedList => Err(AttributeError)
    case Mapping(pi, p, _) =>
      var v := if pi.Present? then pi else p;
      if !v.Present? then Ok(None)
      else
        match v.value
        case Null => Ok(None)
        case Int(i) => Ok(Some(i))
        case Bool(b) => Ok(Some(if b then 1 else 0))
        case Str(_) => Err(TypeError)
  }

  /** The candidates in entry order; the first entry that raises decides the error. */
  function PyCandidates(es: seq<Entry>): (r: Result<seq<int>, PyError>)
    ensures r.Ok? <==> forall i :: 0 <= i < |es| ==> PyIndex(es[i]).Ok?
    ensures r.Ok? ==> |r.value| <= |es|
  {
    if |es| == 0 then Ok([])
    else
      match (PyCandidates(es[..|es| - 1]), PyIndex(es[|es| - 1]))
      case (Err(x), _) => Err(x)
      case (Ok(_), Err(x)) => Err(x)
      case (Ok(c), Ok(o)) => Ok(c + OptionSeq(o))
  }

  function PySelect(es: seq<Entry>): Result<seq<int>, PyError> {
    match PyCandidates(es)
    case Err(x) => Err(x)
    case Ok(c) => Ok(Map(ZeroBased, DedupFold(c, {})))
  }

  /**
    The entries Python iterates: `config.get("pages", [])` in the extractor,
    `config['workouts']` in the workout exporter. A string yields its
    characters, a mapping its keys; a number, a boolean or None cannot be
    iterated.
   */
  function PyPageList(l: Loaded, workouts: bool): (r: Result<seq<Entry>, PyError>)
    ensures l.Mapped? && (if workouts then l.doc.workouts else l.doc.pages).List? ==>
      r == Ok((if workouts then l.doc.workouts else l.doc.pages).entries)
    ensures r.Ok? ==> l.Mapped?
  {
    match l
    case FileMissing => Err(FileNotFound)
    case SyntaxError => Err(YamlError)
    case EmptyDocument => Err(if workouts then TypeError else AttributeError)
    case NotMapping(_) => Err(if workouts then TypeError else AttributeError)
    case Mapped(d) =>
      match if workouts then d.workouts else d.pages
      case ListMissing => if workouts then Err(KeyError) else Ok([])
      case ListNull => Err(TypeError)
      case ListAtom(_) => Err(TypeError)
      case ListText(t) => Ok(Chars(t))
      case ListMapping(items) => Ok(Map(ItemKey, items))
      case List(es) => Ok(es)
  }

  function PyExtractPageIndices(l: Loaded, workouts: bool): Result<seq<int>, PyError> {
    match PyPageList(l, workouts)
    case Err(x) => Err(x)
    case Ok(es) => PySelect(es)
  }

  /** Absent `pages` selects nothing in the extractor; absent `workouts` raises KeyError in the exporter. */
  lemma PyMissingList(d: Document)
    ensures d.pages.ListMissing? ==> PyExtractPageIndices(Mapped(d), false) == Ok([])
    ensures d.workouts.ListMissing? ==> PyExtractPageIndices(Mapped(d), true) == Err(KeyError)
  {
    if d.pages.ListMissing? {
      assert PyCandidates([]) == Ok([]);
      assert DedupFold<int>([], {}) == [];
    }
  }

  /**
    A string `pages` is iterated: the empty string selects nothing, and any
    other string fails on its first character, which has no `.get`.
   */
  lemma PyTextPages(d: Document, t: string)
    requires d.pages == ListText(t)
    ensures t == "" ==> PyExtractPageIndices(Mapped(d), false) == Ok([])
    ensures t != "" ==> PyExtractPageIndices(Mapped(d), false) == Err(AttributeError)
  {
    if t == "" {
      assert Chars(t) == [];
      assert PyCandidates([]) == Ok([]);
      assert DedupFold<int>([], {}) == [];
    } else {
      PyCandidatesFirstError(Chars(t), 0);
    }
  }

  /** When every entry before `k` succeeds, the error of entry `k` is the loop's. */
  lemma {:induction false} PyCandidatesFirstError(es: seq<Entry>, k: nat)
    requires k < |es| && PyIndex(es[k]).Err?
    requires forall i :: 0 <= i < k ==> PyIndex(es[i]).Ok?
    ensures PyCandidates(es) == Err(PyIndex(es[k]).error)
    decreases |es|
  {
    var n := |es| - 1;
    if n > k {
      assert es[..n][k] == es[k];
      forall i | 0 <= i < k ensures PyIndex(es[..n][i]).Ok? {
        assert es[..n][i] == es[i];
      }
      PyCandidatesFirstError(es[..n], k);
    } else {
      assert n == k;
      forall i | 0 <= i < n ensures PyIndex(es[..n][i]).Ok? {
        assert es[..n][i] == es[i];
      }
    }
  }

  lemma {:induction false} PyCandidatesAgree(es: seq<Entry>, ps: seq<PageConfig>)
    requires |es| == |ps|
    requires forall i :: 0 <= i < |es| ==> PyIndex(es[i]) == Ok(EffectiveIndex(ps[i]))
    ensures PyCandidates(es) == Ok(Candidates(ps))
    decreases |es|
  {
    if |es| > 0 {
      var n := |es| - 1;
      forall i | 0 <= i < n
        ensures PyIndex(es[..n][i]) == Ok(EffectiveIndex(ps[..n][i]))
      {
        assert es[..n][i] == es[i] && ps[..n][i] == ps[i];
      }
      PyCandidatesAgree(es[..n], ps[..n]);
      assert Candidates(ps) == Candidates(ps[..n]) + OptionSeq(EffectiveIndex(ps[n]));
    }
  }

  lemma PyIndexDecoded(e: Entry, pc: PageConfig)
    requires DecodeEntry(e) == Ok(pc) && e.Mapping? && e.pageIndex != Present(Null)
    ensures PyIndex(e) == Ok(EffectiveIndex(pc))
  {
  }

  /**
    When no entry has an explicit `pageIndex: null`, Python selects the typed
    selection with every value minus one.
   */
  lemma PyAgreesWithTyped(es: seq<Entry>, ps: seq<PageConfig>)
    requires DecodeEntries(es) == Ok(ps)
    requires forall i :: 0 <= i < |es| ==> es[i].Mapping? && es[i].pageIndex != Present(Null)
    ensures PySelect(es) == Ok(Map(ZeroBased, Selected(ps)))
  {
    forall i | 0 <= i < |es|
      ensures PyIndex(es[i]) == Ok(EffectiveIndex(ps[i]))
    {
      PyIndexDecoded(es[i], ps[i]);
    }
    PyCandidatesAgree(es, ps);
    FoldIsKeepFirst(Candidates(ps));
  }

  /** The raw values Python keeps are distinct and are exactly the indices of the entries. */
  lemma PySelectProperties(es: seq<Entry>)
    requires PyCandidates(es).Ok?
    ensures PySelect(es).Ok?
    ensures var c := PyCandidates(es).value;
      PySelect(es).value == Map(ZeroBased, KeepFirst(c)) && NoDup(KeepFirst(c)) && Elems(KeepFirst(c)) == Elems(c)
  {
    var c := PyCandidates(es).value;
    FoldIsKeepFirst(c);
    KeepFirstNoDup(c);
    KeepFirstElems(c);
  }

  /**
    An explicit `pageIndex: null` shadows `page` in Python, where the typed
    rule falls through to `page`.
   */
  lemma PyNullShadowsPage()
    ensures PySelect([Mapping(Present(Null), Present(Int(4)), Missing)]) == Ok([])
    ensures Selected([PageConfig(None, Some(4), None)]) == [4]
  {
    var a := Mapping(Present(Null), Present(Int(4)), Missing);
    assert [a][..0] == [];
    assert PyCandidates([a]) == Ok([]);
    assert DedupFold<int>([], {}) == [];
    var pc := PageConfig(None, Some(4), None);
    SelectStep([], pc);
    assert [] + [pc] == [pc];
  }

  /** `True == 1` in Python: a boolean index repeats the integer 1. */
  lemma PyTrueIsOne()
    ensures PySelect([Mapping(Present(Int(1)), Missing, Missing),
                      Mapping(Present(Bool(true)), Missing, Missing)]) == Ok([0])
  {
    var a, b := Mapping(Present(Int(1)), Missing, Missing), Mapping(Present(Bool(true)), Missing, Missing);
    assert [a, b][..1] == [a];
    assert [a][..0] == [];
    assert PyIndex(a) == Ok(Some(1));
    assert PyIndex(b) == Ok(Some(1));
    assert PyCandidates([]) == Ok([]);
    assert PyCandidates([a]) == Ok([] + [1]);
    assert [] + [1] == [1];
    assert PyCandidates([a, b]) == Ok([1] + [1]);
    assert [1, 1][1..] == [1];
    assert DedupFold([1], {1}) == [];
    assert DedupFold([1, 1], {}) == [1];
    assert [1] + [1] == [1, 1];
    assert Map(ZeroBased, [1]) == [0];
  }
}
