/**
  The Ruby command line (ruby/lib/pdf_extractor/cli.rb): options given on
  the command line win; the configuration file fills in what is missing, on
  a best-effort basis; input and output must be known before the extractor
  runs, and the extractor expands every path against the working directory.

  `File.expand_path(p, dir)` is `Resolve(dir, p)`; the working directory is
  a parameter. The test `path.include?('output/')` is made on the path as
  written in the configuration.
 */
module RubyCli {
  import opened Base
  import opened Paths
  import opened ConfigDoc
  import opened Resolution

  datatype Options = Options(config: Path, input: Option<Path>, output: Option<Path>, markdown: Option<Path>)

  const DefaultConfig := Path(false, ["..", "resources", "config.yaml"])
  const RubySuffix := "_ruby"

  /** `expanded_config_path`. */
  function ExpandedConfig(cwd: Path, o: Options): Path {
    Resolve(cwd, o.config)
  }

  /** The configured output gets the suffix only when its text contains "output/". */
  predicate WantsSuffix(p: Path) {
    Contains(Text(p), "output/")
  }

  /**
    `resolve_relative_path`: nil stays nil; a path is expanded against the
    project root, and gets the suffix when one is asked for and the path as
    written contains "output/".
   */
  function ResolveRelative(path: Option<Path>, config: Path, suffix: Option<string>): (r: Option<Path>)
    ensures r.Some? <==> path.Some?
    ensures path.Some? && (suffix.None? || !WantsSuffix(path.value)) ==>
      r.value == Resolve(ProjectRoot(config), path.value)
    ensures path.Some? && suffix.Some? && WantsSuffix(path.value) ==>
      Dir(r.value) == Dir(Resolve(ProjectRoot(config), path.value)) &&
      FileName(r.value) == RubyStem(FileName(Resolve(ProjectRoot(config), path.value))) + suffix.value + ".pdf"
  {
    match path
    case None => None
    case Some(p) =>
      var expanded := Resolve(ProjectRoot(config), p);
      if suffix.Some? && WantsSuffix(p) then
        DirChild(Dir(expanded), RubyStem(FileName(expanded)) + suffix.value + ".pdf");
        Some(RubyAddSuffix(expanded, suffix.value))
      else Some(expanded)
  }

  /**
    `resolve_input_path`: nil stays nil; otherwise the project-root candidate
    if it exists, else the one beside the configuration if that exists, else
    the project-root candidate.
   */
  function ResolveInput(path: Option<Path>, config: Path, present: set<Path>): (r: Option<Path>)
    ensures r.Some? <==> path.Some?
    ensures path.Some? ==>
      (r.value == Standard(path.value, config) || r.value == Fallback(path.value, config)) &&
      (r.value in present <==> Standard(path.value, config) in present || Fallback(path.value, config) in present) &&
      (Standard(path.value, config) in present ==> r.value == Standard(path.value, config))
  {
    match path
    case None => None
    case Some(p) => Some(Tiered(p, config, present))
  }

  /** The Markdown default: `appendFirstPage` joined to the configuration file's directory. */
  function MarkdownCandidate(config: Path, append: Path): Path {
    Join(ConfigDir(config), append)
  }

  /**
    `load_config_defaults`: with a readable mapping, fills the missing input
    and output from it (`||=`), and the Markdown file from `appendFirstPage`
    when none was given and the candidate exists. A missing file, a syntax
    error or a top level that is not a mapping leaves the options as they were.
   */
  function LoadConfigDefaults(o: Options, config: Path, loaded: Loaded, present: set<Path>): (r: Options)
    ensures r.config == o.config
    ensures !loaded.Mapped? ==> r == o
    ensures o.input.Some? ==> r.input == o.input
    ensures o.output.Some? ==> r.output == o.output
    ensures loaded.Mapped? && o.input.None? ==> r.input == ResolveInput(loaded.doc.file, config, present)
    ensures loaded.Mapped? && o.output.None? ==> r.output == ResolveRelative(loaded.doc.output, config, Some(RubySuffix))
    ensures r.markdown != o.markdown <==>
      loaded.Mapped? && o.markdown.None? && loaded.doc.appendFirstPage.Some? &&
      MarkdownCandidate(config, loaded.doc.appendFirstPage.value) in present
    ensures r.markdown != o.markdown ==> r.markdown == Some(MarkdownCandidate(config, loaded.doc.appendFirstPage.value))
  {
    match loaded
    case Mapped(d) =>
      var input := if o.input.Some? then o.input else ResolveInput(d.file, config, present);
      var output := if o.output.Some? then o.output else ResolveRelative(d.output, config, Some(RubySuffix));
      var markdown :=
        if d.appendFirstPage.Some? && o.markdown.None? && MarkdownCandidate(config, d.appendFirstPage.value) in present
        then Some(MarkdownCandidate(config, d.appendFirstPage.value))
        else o.markdown;
      Options(o.config, input, output, markdown)
    case _ => o
  }

  /** `validate_required_options!`: the flags still missing, in the order input, output. */
  function MissingFlags(o: Options): (r: seq<string>)
    ensures "--input" in r <==> o.input.None?
    ensures "--output" in r <==> o.output.None?
    ensures |r| <= 2 && (|r| == 2 ==> r == ["--input", "--output"])
  {
    (if o.input.None? then ["--input"] else []) + (if o.output.None? then ["--output"] else [])
  }

  /** What `CLI#run` hands to the extractor, or the flags whose absence ends the run with status 1. */
  datatype Launch =
    | MissingArguments(flags: seq<string>)
    | Extract(input: Path, output: Path, config: Path, markdown: Option<Path>)

  /**
    `run` up to `extract_pages`: defaults, the check for required options,
    and the expansion `Extractor.new` applies to every path.
   */
  function Run(cwd: Path, o: Options, loaded: Loaded, present: set<Path>): (r: Launch)
    ensures r.MissingArguments? <==>
      MissingFlags(LoadConfigDefaults(o, ExpandedConfig(cwd, o), loaded, present)) != []
    ensures r.MissingArguments? ==> r.flags != []
    ensures o.input.Some? && r.Extract? ==> r.input == Resolve(cwd, o.input.value)
    ensures o.output.Some? && r.Extract? ==> r.output == Resolve(cwd, o.output.value)
    ensures r.Extract? ==> r.config == ExpandedConfig(cwd, o)
  {
    var cfg := ExpandedConfig(cwd, o);
    var d := LoadConfigDefaults(o, cfg, loaded, present);
    var missing := MissingFlags(d);
    if missing != [] then MissingArguments(missing)
    else
      Extract(Resolve(cwd, d.input.value), Resolve(cwd, d.output.value), cfg,
              if d.markdown.Some? then Some(Resolve(cwd, d.markdown.value)) else None)
  }

  /**
    Once the configuration path is absolute, every path the configuration
    supplies is already absolute, so the extractor's expansion leaves it as
    the defaults resolved it.
   */
  lemma ConfigPathsStayPut(cwd: Path, o: Options, loaded: Loaded, present: set<Path>)
    requires cwd.absolute && loaded.Mapped? && o.input.None? && loaded.doc.file.Some?
    requires o.output.Some?
    ensures Run(cwd, o, loaded, present).Extract?
    ensures Run(cwd, o, loaded, present).input == ResolveInput(loaded.doc.file, ExpandedConfig(cwd, o), present).value
    ensures Run(cwd, o, loaded, present).input.absolute
  {
    var cfg := ExpandedConfig(cwd, o);
    var p := loaded.doc.file.value;
    assert Tiered(p, cfg, present).absolute;
  }

  /** Nothing given and no usable configuration: both flags are reported missing. */
  lemma NothingGiven(cwd: Path, config: Path, loaded: Loaded, present: set<Path>)
    requires !loaded.Mapped?
    ensures Run(cwd, Options(config, None, None, None), loaded, present) == MissingArguments(["--input", "--output"])
  {
  }

  /**
    The suffix depends on how the output is written: "output/result.pdf"
    becomes "result_ruby.pdf" below the project root.
   */
  lemma SuffixUnderOutput(config: Path)
    ensures ResolveRelative(Some(Path(false, ["output", "result.pdf"])), config, Some(RubySuffix)) ==
      Some(Child(Child(ProjectRoot(config), "output"), "result_ruby.pdf"))
  {
    var w := Path(false, ["output", "result.pdf"]);
    OutputWantsSuffix();
    var e := Resolve(ProjectRoot(config), w);
    assert FileName(e) == "result.pdf" && Dir(e) == Child(ProjectRoot(config), "output");
    ResultStem();
  }

  lemma OutputWantsSuffix()
    ensures WantsSuffix(Path(false, ["output", "result.pdf"]))
  {
    assert Text(Path(false, ["output", "result.pdf"])) == "output/result.pdf" by {
      assert JoinSegments(["output", "result.pdf"]) == "output" + "/" + JoinSegments(["result.pdf"]);
    }
    ContainsPrefix("output/result.pdf", "output/");
  }

  lemma ResultStem()
    ensures RubyStem("result.pdf") + RubySuffix + ".pdf" == "result_ruby.pdf"
  {
    assert "result.pdf"[6..] == ".pdf";
    assert "result.pdf"[..6] == "result";
  }

  /** "result.pdf", outside an "output/" directory, is only expanded. */
  lemma NoSuffixElsewhere(config: Path)
    ensures ResolveRelative(Some(Name("result.pdf")), config, Some(RubySuffix)) ==
      Some(Child(ProjectRoot(config), "result.pdf"))
  {
    assert Text(Name("result.pdf")) == "result.pdf";
    NoSlashNoContains("result.pdf", "output/", 6);
  }

  lemma ContainsPrefix(s: string, sub: string)
    requires |sub| <= |s| && s[..|sub|] == sub
    ensures Contains(s, sub)
  {
  }

  /** Text without the character at position `k` of `sub` does not contain `sub`. */
  lemma {:induction false} NoSlashNoContains(s: string, sub: string, k: nat)
    requires k < |sub| && forall j :: 0 <= j < |s| ==> s[j] != sub[k]
    ensures !Contains(s, sub)
    decreases |s|
  {
    if |sub| <= |s| {
      assert s[..|sub|][k] != sub[k];
      NoSlashNoContains(s[1..], sub, k);
    }
  }
}
