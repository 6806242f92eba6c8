/**
  File-system paths as the implementations manipulate them: a flag for
  "absolute" and the list of name segments. Normalisation (`..`, duplicate
  separators) is not modelled; `Path(false, [])` stands for the empty string
  and for ".".

  The functions mirror the library calls the implementations use:
  `Dir` is `filepath.Dir` / `path.dirname` / `File.dirname` / `dirname`,
  `Join` is `filepath.Join` / `path.join` / a separator concatenation,
  `Resolve` is `Path.resolve` / `Path.Combine` / `File.expand_path` /
  `os.path.join` (an absolute second argument wins), and `StemExt` splits a
  file name into name and extension under the rule of each language.
 */
module Paths {
  import opened Base

  datatype Path = Path(absolute: bool, segments: seq<string>)

  /** The empty relative path: the empty string, or "." */
  const Here := Path(false, [])

  predicate IsEmpty(p: Path) {
    !p.absolute && |p.segments| == 0
  }

  /** An optional path that is there and is not the empty string. */
  predicate Given(o: Option<Path>) {
    o.Some? && !IsEmpty(o.value)
  }

  /** Parent directory; the parent of a path without segments is itself. */
  function Dir(p: Path): Path {
    Path(p.absolute, if |p.segments| == 0 then [] else p.segments[..|p.segments| - 1])
  }

  /** Last segment, or "" for a path without segments. */
  function FileName(p: Path): string {
    if |p.segments| == 0 then "" else p.segments[|p.segments| - 1]
  }

  function Child(dir: Path, name: string): Path {
    Path(dir.absolute, dir.segments + [name])
  }

  /** Concatenating join: the second path is appended even when it is absolute. */
  function Join(dir: Path, rel: Path): Path {
    Path(dir.absolute, dir.segments + rel.segments)
  }

  /** Resolving join: an absolute second path replaces the first. */
  function Resolve(dir: Path, p: Path): Path {
    if p.absolute then p else Join(dir, p)
  }

  /** A path with a single relative segment. */
  function Name(name: string): Path {
    Path(false, [name])
  }

  /** Text of a path with "/" separators. */
  function Text(p: Path): string {
    (if p.absolute then "/" else "") + JoinSegments(p.segments)
  }

  function JoinSegments(segs: seq<string>): string {
    if |segs| == 0 then ""
    else if |segs| == 1 then segs[0]
    else segs[0] + "/" + JoinSegments(segs[1..])
  }

  lemma DirChild(dir: Path, name: string)
    ensures Dir(Child(dir, name)) == dir
    ensures FileName(Child(dir, name)) == name
  {
    assert (dir.segments + [name])[..|dir.segments|] == dir.segments;
  }

  /** A path with at least one segment is its parent plus its last segment. */
  lemma ChildDirFileName(p: Path)
    requires |p.segments| > 0
    ensures Child(Dir(p), FileName(p)) == p
  {
    assert p.segments[..|p.segments| - 1] + [p.segments[|p.segments| - 1]] == p.segments;
  }

  /** Joining onto a relative path agrees with resolving; an absolute one is kept. */
  lemma ResolveRelative(dir: Path, p: Path)
    ensures !p.absolute ==> Resolve(dir, p) == Join(dir, p)
    ensures p.absolute ==> Resolve(dir, p) == p
  {
  }

  /** Java's `Path.getParent`: none for a root or a single relative name. */
  function JavaParent(p: Path): (r: Option<Path>)
    ensures r.Some? <==> |p.segments| >= 2 || (p.absolute && |p.segments| == 1)
    ensures r.Some? ==> r.value == Dir(p)
  {
    if |p.segments| == 0 || (!p.absolute && |p.segments| == 1) then None else Some(Dir(p))
  }

  /** Rust's `Path::parent`: none only for a path without segments. */
  function RustParent(p: Path): (r: Option<Path>)
    ensures r.Some? <==> |p.segments| > 0
    ensures r.Some? ==> r.value == Dir(p)
  {
    if |p.segments| == 0 then None else Some(Dir(p))
  }

  /** The rule a language uses to find the extension of a file name. */
  datatype ExtRule =
    | AnyDot     // Go `filepath.Ext`, PHP `pathinfo`: from the last '.', wherever it is
    | InnerDot   // Java/Kotlin `lastIndexOf('.') > 0`, Node `path.parse`, Rust `file_stem`
    | DotNetDot  // .NET `GetExtension`: a trailing '.' is no extension and is dropped from the name

  /** Index of the last '.' in `s`. */
  function LastDot(s: string): (r: Option<nat>)
    ensures r.Some? ==> r.value < |s| && s[r.value] == '.' &&
                        forall j :: r.value < j < |s| ==> s[j] != '.'
    ensures r.None? ==> forall j :: 0 <= j < |s| ==> s[j] != '.'
  {
    if |s| == 0 then None
    else if s[|s| - 1] == '.' then Some(|s| - 1)
    else LastDot(s[..|s| - 1])
  }

  /** Splits a file name into (name, extension) under `rule`. */
  function StemExt(name: string, rule: ExtRule): (r: (string, string))
    ensures r.1 == "" || (r.1[0] == '.' && forall j :: 0 < j < |r.1| ==> r.1[j] != '.')
    ensures rule != DotNetDot ==> r.0 + r.1 == name
    ensures rule == DotNetDot ==> r.0 + r.1 == name || (r.0 + "." == name && r.1 == "")
    ensures rule == InnerDot && r.1 != "" ==> |r.0| > 0
    ensures (forall j :: 0 <= j < |name| ==> name[j] != '.') ==> r == (name, "")
  {
    match LastDot(name)
    case None => (name, "")
    case Some(k) =>
      if rule == InnerDot && k == 0 then (name, "")
      else if rule == DotNetDot && k == |name| - 1 then (name[..k], "")
      else (name[..k], name[k..])
  }

  /** Inserts `suffix` between the name and the extension of the last segment. */
  function InsertSuffix(p: Path, suffix: string, rule: ExtRule): Path {
    var (stem, ext) := StemExt(FileName(p), rule);
    Child(Dir(p), stem + suffix + ext)
  }

  /**
    Inserting a suffix without a '.' keeps the directory and the extension, and
    the name gains exactly the suffix: splitting the new name gives back the old
    extension. The .NET rule is excluded: see `DotNetSuffixMovesExtension`.
   */
  lemma InsertSuffixSplit(p: Path, suffix: string, rule: ExtRule)
    requires rule != DotNetDot
    requires forall j :: 0 <= j < |suffix| ==> suffix[j] != '.'
    ensures Dir(InsertSuffix(p, suffix, rule)) == Dir(p)
    ensures StemExt(FileName(InsertSuffix(p, suffix, rule)), rule)
         == (StemExt(FileName(p), rule).0 + suffix, StemExt(FileName(p), rule).1)
  {
    var (stem, ext) := StemExt(FileName(p), rule);
    DirChild(Dir(p), stem + suffix + ext);
    StemSuffixExt(stem, suffix, ext, FileName(p), rule);
  }

  lemma LastDotAppend(a: string, b: string)
    requires forall j :: 0 <= j < |b| ==> b[j] != '.'
    ensures LastDot(a + b) == LastDot(a)
    decreases |b|
  {
    if |b| > 0 {
      assert (a + b)[..|a + b| - 1] == a + b[..|b| - 1];
      LastDotAppend(a, b[..|b| - 1]);
    } else {
      assert a + b == a;
    }
  }

  lemma {:induction false} StemSuffixExt(stem: string, suffix: string, ext: string, name: string, rule: ExtRule)
    requires rule != DotNetDot
    requires (stem, ext) == StemExt(name, rule)
    requires forall j :: 0 <= j < |suffix| ==> suffix[j] != '.'
    ensures StemExt(stem + suffix + ext, rule) == (stem + suffix, ext)
  {
    var n := stem + suffix + ext;
    if ext == "" {
      assert n == stem + suffix;
      match LastDot(name)
      case None =>
        assert stem == name;
        LastDotAppend(stem, suffix);
      case Some(k) =>
        if rule == InnerDot && k == 0 {
          assert stem == name;
          LastDotAppend(stem, suffix);
          assert LastDot(n) == Some(0);
        } else {
          assert false;
        }
    } else {
      var k := LastDot(name).value;
      assert ext == name[k..] && stem == name[..k];
      var m := |stem| + |suffix|;
      assert n[m] == '.' by { assert n[m] == ext[0]; }
      assert forall j :: m < j < |n| ==> n[j] != '.' by {
        forall j | m < j < |n| ensures n[j] != '.' {
          assert n[j] == ext[j - m];
        }
      }
      LastDotOf(n, m);
      assert n[..m] == stem + suffix;
      assert n[m..] == ext;
      if rule == InnerDot {
        assert k > 0;
      }
    }
  }

  lemma LastDotOf(s: string, m: nat)
    requires m < |s| && s[m] == '.'
    requires forall j :: m < j < |s| ==> s[j] != '.'
    ensures LastDot(s) == Some(m)
    decreases |s|
  {
    if s[|s| - 1] != '.' {
      assert m < |s| - 1;
      LastDotOf(s[..|s| - 1], m);
    }
  }

  /**
    Under the .NET rule a name ending in '.' loses that dot, so an earlier dot
    becomes the extension of the new name: "a.b." gives "a.b_dotnet", whose
    extension is ".b_dotnet".
   */
  lemma DotNetSuffixMovesExtension()
    ensures StemExt("a.b.", DotNetDot) == ("a.b", "")
    ensures InsertSuffix(Name("a.b."), "_dotnet", DotNetDot) == Name("a.b_dotnet")
    ensures StemExt("a.b_dotnet", DotNetDot) == ("a", ".b_dotnet")
  {
    LastDotOf("a.b.", 3);
    assert "a.b."[..3] == "a.b";
    assert FileName(Name("a.b.")) == "a.b.";
    assert "a.b" + "_dotnet" + "" == "a.b_dotnet";
    LastDotOf("a.b_dotnet", 1);
    assert "a.b_dotnet"[..1] == "a";
  }

  /** Ruby's `File.basename(path, ".pdf")`: strips a trailing ".pdf" unless that is the whole name. */
  function RubyStem(name: string): string {
    if |name| > 4 && name[|name| - 4..] == ".pdf" then name[..|name| - 4] else name
  }

  /** Ruby `add_suffix`: same directory, name without ".pdf", then suffix and ".pdf". */
  function RubyAddSuffix(p: Path, suffix: string): (r: Path)
    ensures Dir(r) == Dir(p)
    ensures |FileName(r)| >= 4 && FileName(r)[|FileName(r)| - 4..] == ".pdf"
  {
    DirChild(Dir(p), RubyStem(FileName(p)) + suffix + ".pdf");
    Child(Dir(p), RubyStem(FileName(p)) + suffix + ".pdf")
  }

  /** For a ".pdf" file the Ruby rule and the general insert-before-extension rule agree. */
  lemma RubyAddSuffixAgrees(p: Path, suffix: string)
    requires |FileName(p)| > 4 && FileName(p)[|FileName(p)| - 4..] == ".pdf"
    ensures RubyAddSuffix(p, suffix) == InsertSuffix(p, suffix, AnyDot)
  {
    var name := FileName(p);
    var m := |name| - 4;
    assert name[m] == '.' by { assert name[m] == name[m..][0]; }
    assert forall j :: m < j < |name| ==> name[j] != '.' by {
      forall j | m < j < |name| ensures name[j] != '.' {
        assert name[j] == name[m..][j - m];
      }
    }
    LastDotOf(name, m);
  }

  /** Rust: `parent/<file_stem>_rust.pdf`; a path without a file name is kept. */
  function RustWithSuffix(p: Path, suffix: string): (r: Path)
    ensures |p.segments| == 0 ==> r == p
    ensures |p.segments| > 0 ==>
      (Dir(r) == Dir(p) && FileName(r) == StemExt(FileName(p), InnerDot).0 + suffix + ".pdf")
  {
    if |p.segments| == 0 then p
    else
      DirChild(Dir(p), StemExt(FileName(p), InnerDot).0 + suffix + ".pdf");
      Child(Dir(p), StemExt(FileName(p), InnerDot).0 + suffix + ".pdf")
  }

  /** PHP: `dirname/<pathinfo FILENAME>_php.pdf`, whatever the old extension. */
  function PhpWithSuffix(p: Path, suffix: string): (r: Path)
    ensures Dir(r) == Dir(p)
    ensures FileName(r) == StemExt(FileName(p), AnyDot).0 + suffix + ".pdf"
  {
    DirChild(Dir(p), StemExt(FileName(p), AnyDot).0 + suffix + ".pdf");
    Child(Dir(p), StemExt(FileName(p), AnyDot).0 + suffix + ".pdf")
  }
}
