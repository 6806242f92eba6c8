/**
  Path resolution shared by the implementations, and Go's `pathutils.Resolver`
  (golang/internal/pathutils/resolver.go).

  Relative paths in the configuration are read against the project root, the
  grandparent of the configuration file's path; an input file that is not
  found there is looked for next to the configuration file, and when neither
  exists the project-root candidate is returned anyway, so that the error
  message names it. File existence is a set of paths.
 */
module Resolution {
  import opened Base
  import opened Paths
  import opened Temps

  /** The parent of the configuration file's directory. */
  function ProjectRoot(config: Path): Path {
    Dir(Dir(config))
  }

  function ConfigDir(config: Path): Path {
    Dir(config)
  }

  /** The project-root candidate for `p`. */
  function Standard(p: Path, config: Path): Path {
    Resolve(ProjectRoot(config), p)
  }

  /** The candidate next to the configuration file. */
  function Fallback(p: Path, config: Path): Path {
    Resolve(ConfigDir(config), p)
  }

  /**
    Standard, then fallback, then standard again: the result is one of the
    two candidates, it exists whenever either does, and the fallback is
    chosen only when the standard candidate is missing.
   */
  function Tiered(p: Path, config: Path, present: set<Path>): (r: Path)
    ensures r == Standard(p, config) || r == Fallback(p, config)
    ensures r in present <==> Standard(p, config) in present || Fallback(p, config) in present
    ensures Standard(p, config) in present ==> r == Standard(p, config)
    ensures p.absolute ==> r == p
  {
    if Standard(p, config) in present then Standard(p, config)
    else if Fallback(p, config) in present then Fallback(p, config)
    else Standard(p, config)
  }

  /** A relative path is looked up below the project root or beside the configuration file. */
  lemma TieredUnder(p: Path, config: Path, present: set<Path>)
    requires !p.absolute
    ensures Under(ProjectRoot(config), Tiered(p, config, present))
    ensures Tiered(p, config, present) != Standard(p, config) ==> Under(ConfigDir(config), Tiered(p, config, present))
  {
    JoinUnder(ProjectRoot(config), p);
    JoinUnder(ConfigDir(config), p);
    DirUnder(Dir(config));
    UnderTrans(ProjectRoot(config), ConfigDir(config), Fallback(p, config));
  }

  lemma JoinUnder(dir: Path, p: Path)
    ensures Under(dir, Join(dir, p))
  {
    assert (dir.segments + p.segments)[..|dir.segments|] == dir.segments;
  }

  lemma DirUnder(p: Path)
    ensures Under(Dir(p), p)
  {
  }

  lemma UnderTrans(a: Path, b: Path, c: Path)
    requires Under(a, b) && Under(b, c)
    ensures Under(a, c)
  {
    assert c.segments[..|a.segments|] == c.segments[..|b.segments|][..|a.segments|];
  }

  // ------------------------------------------------------------------ Go

  /**
    `ResolveInputPath`: an empty name stays empty, an absolute one is kept,
    and a relative one goes through the two candidates. It never fails.
   */
  function GoResolveInput(input: Path, config: Path, present: set<Path>): (r: Path)
    ensures IsEmpty(input) ==> r == Here
    ensures input.absolute ==> r == input
    ensures !IsEmpty(input) && !input.absolute ==>
      (r == Join(ProjectRoot(config), input) || r == Join(ConfigDir(config), input)) &&
      (r in present <==> Join(ProjectRoot(config), input) in present || Join(ConfigDir(config), input) in present) &&
      (Join(ProjectRoot(config), input) in present ==> r == Join(ProjectRoot(config), input))
  {
    if IsEmpty(input) then Here
    else if input.absolute then input
    else Tiered(input, config, present)
  }

  /**
    `ResolveOutputPath`: an empty name stays empty; otherwise the path
    (joined to the project root when relative) gets `suffix` between its name
    and its extension, in the same directory. Existence is not consulted.
   */
  function GoResolveOutput(output: Path, config: Path, suffix: string): (r: Path)
    ensures IsEmpty(output) ==> r == Here
    ensures !IsEmpty(output) ==> Dir(r) == Dir(Resolve(ProjectRoot(config), output))
    ensures !IsEmpty(output) ==>
      var (stem, ext) := StemExt(FileName(Resolve(ProjectRoot(config), output)), AnyDot);
      FileName(r) == stem + suffix + ext
  {
    if IsEmpty(output) then Here
    else
      var base := Resolve(ProjectRoot(config), output);
      var (stem, ext) := StemExt(FileName(base), AnyDot);
      DirChild(Dir(base), stem + suffix + ext);
      InsertSuffix(base, suffix, AnyDot)
  }

  /** A suffix without a dot keeps the extension: splitting the new name gives the old extension back. */
  lemma GoOutputKeepsExtension(output: Path, config: Path, suffix: string)
    requires !IsEmpty(output)
    requires forall j :: 0 <= j < |suffix| ==> suffix[j] != '.'
    ensures var base := Resolve(ProjectRoot(config), output);
      StemExt(FileName(GoResolveOutput(output, config, suffix)), AnyDot) ==
        (StemExt(FileName(base), AnyDot).0 + suffix, StemExt(FileName(base), AnyDot).1)
  {
    InsertSuffixSplit(Resolve(ProjectRoot(config), output), suffix, AnyDot);
  }

  /**
    `ResolveMarkdownPath`: the explicit path verbatim, else `appendFirstPage`
    under the configuration file's directory, else nothing.
   */
  function GoResolveMarkdown(markdown: Path, config: Path, append: Path): (r: Option<Path>)
    ensures !IsEmpty(markdown) ==> r == Some(markdown)
    ensures IsEmpty(markdown) ==> (r.Some? <==> !IsEmpty(append))
    ensures IsEmpty(markdown) && r.Some? ==> Dir(r.value) == Dir(Join(ConfigDir(config), append))
  {
    if !IsEmpty(markdown) then Some(markdown)
    else if !IsEmpty(append) then Some(Join(ConfigDir(config), append))
    else None
  }

  /**
    The default Markdown file lies below the configuration file's directory,
    and it is not the project-root reading of the same name.
   */
  lemma MarkdownBesideConfig(config: Path, append: Path)
    requires !IsEmpty(append) && |config.segments| >= 2
    ensures GoResolveMarkdown(Here, config, append).Some?
    ensures Under(ConfigDir(config), GoResolveMarkdown(Here, config, append).value)
    ensures GoResolveMarkdown(Here, config, append).value != Join(ProjectRoot(config), append)
  {
    JoinUnder(ConfigDir(config), append);
  }
}
