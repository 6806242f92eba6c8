/**
  The entry points: how each program turns its command-line flags and its
  configuration file into the input, output and Markdown paths the
  extraction runs on, or stops before it.

  A run stops with a status (`Abort`), or reports a missing input and
  stops (`NotFound`; some programs then exit 0, others 1), or proceeds.
  The configuration file is given as a `Loaded` value, file existence as
  the set `present`, and PHP's `is_dir` as the set `dirs`. The Ruby command
  line is `RubyCli`.
 */
module Entry {
  import opened Base
  import opened Paths
  import opened ConfigDoc
  import opened Resolution
  import NodePaths

  /** Command-line flags; `None` when the flag is not given. */
  datatype Flags = Flags(yaml: Option<Path>, input: Option<Path>, output: Option<Path>, markdown: Option<Path>)

  datatype Plan =
    | Abort(status: int)
    | NotFound(missing: Path, status: int)
    | Proceed(input: Path, output: Option<Path>, yaml: Path, markdown: Option<Path>)

  const DefaultYaml := Path(false, ["..", "resources", "config.yaml"])

  function YamlOf(f: Flags): Path {
    f.yaml.GetOr(DefaultYaml)
  }

  /** A missing string value read as the empty string. */
  function OrEmpty(o: Option<Path>): Path {
    o.GetOr(Here)
  }

  /** `os.Stat`, `File.Exists`, `fs.access`, `os.path.exists`, `Path::exists`: the empty path names nothing. */
  predicate Exists(p: Path, present: set<Path>) {
    !IsEmpty(p) && p in present
  }

  /** `Files.exists(Paths.get(""))`: on the JVM the empty path is the working directory. */
  predicate JvmExists(p: Path, present: set<Path>) {
    IsEmpty(p) || p in present
  }

  /** The last step of every entry point: a missing input is reported with `status`. */
  function Found(found: bool, input: Path, output: Option<Path>, yaml: Path, markdown: Option<Path>, status: int): (r: Plan)
    ensures r.Proceed? <==> found
    ensures r.Proceed? ==> r.input == input && r.output == output && r.yaml == yaml && r.markdown == markdown
    ensures r.NotFound? ==> r.missing == input && r.status == status
  {
    if found then Proceed(input, output, yaml, markdown) else NotFound(input, status)
  }

  // ------------------------------------------------------------------ Go

  const GoSuffix := "_golang"

  /**
    `runCommand` (golang/internal/cli/cmd.go): a configuration error stops
    the run before anything is resolved; input and output come from the
    command line unless it gives the empty string, and both sources go
    through the resolver, so a command-line output also gets "_golang"; a
    missing input is reported and the command succeeds.
   */
  function GoCmdPlan(f: Flags, loaded: Loaded, present: set<Path>): (r: Plan)
    ensures r.Abort? <==> LoadConfig(loaded).Err?
    ensures r.Abort? ==> r.status == 1
    ensures r.NotFound? ==> r.status == 0 && !Exists(r.missing, present)
    ensures r.Proceed? ==> Exists(r.input, present) && r.yaml == YamlOf(f)
    ensures r.Proceed? && Given(f.input) && !f.input.value.absolute ==>
      r.input == Standard(f.input.value, YamlOf(f)) || r.input == Fallback(f.input.value, YamlOf(f))
    ensures r.Proceed? && Given(f.output) ==>
      r.output == Some(GoResolveOutput(f.output.value, YamlOf(f), GoSuffix))
    ensures r.Proceed? && Given(f.markdown) ==> r.markdown == f.markdown
    ensures r.Proceed? && !Given(f.markdown) ==>
      (r.markdown.Some? <==> Given(LoadConfig(loaded).value.appendFirstPage))
  {
    match LoadConfig(loaded)
    case Err(_) => Abort(1)
    case Ok(cfg) =>
      var yaml := YamlOf(f);
      var input := GoResolveInput(if Given(f.input) then f.input.value else OrEmpty(cfg.file), yaml, present);
      var output := GoResolveOutput(if Given(f.output) then f.output.value else OrEmpty(cfg.output), yaml, GoSuffix);
      var md := GoResolveMarkdown(OrEmpty(f.markdown), yaml, OrEmpty(cfg.appendFirstPage));
      Found(Exists(input, present), input, Some(output), yaml, md, 0)
  }

  /**
    The `RunE` of golang/main.go: a command-line input and output are used
    as written; only a relative configured input is looked up below the
    project root and then beside the configuration, and only a configured
    output gets "_golang".
   */
  function GoMainPlan(f: Flags, loaded: Loaded, present: set<Path>): (r: Plan)
    ensures r.Abort? <==> LoadConfig(loaded).Err?
    ensures r.Abort? ==> r.status == 1
    ensures r.NotFound? ==> r.status == 0 && !Exists(r.missing, present)
    ensures r.Proceed? ==> Exists(r.input, present) && r.yaml == YamlOf(f)
    ensures r.Proceed? && Given(f.input) ==> r.input == f.input.value
    ensures r.Proceed? && Given(f.output) ==> r.output == f.output
    ensures r.Proceed? && !Given(f.output) && Given(LoadConfig(loaded).value.output) ==>
      var base := Resolve(ProjectRoot(YamlOf(f)), LoadConfig(loaded).value.output.value);
      r.output.Some? && Dir(r.output.value) == Dir(base) &&
      FileName(r.output.value) == StemExt(FileName(base), AnyDot).0 + GoSuffix + StemExt(FileName(base), AnyDot).1
    ensures r.Proceed? && Given(f.markdown) ==> r.markdown == f.markdown
  {
    match LoadConfig(loaded)
    case Err(_) => Abort(1)
    case Ok(cfg) =>
      var yaml := YamlOf(f);
      var input := if Given(f.input) then f.input.value else GoMainInput(cfg.file, yaml, present);
      var output := if Given(f.output) then f.output.value else GoMainOutput(cfg.output, yaml);
      var md := GoMainMarkdown(f.markdown, yaml, cfg.appendFirstPage);
      Found(Exists(input, present), input, Some(output), yaml, md, 0)
  }

  /** main.go's reading of the configured input. */
  function GoMainInput(file: Option<Path>, yaml: Path, present: set<Path>): Path {
    if Given(file) && !file.value.absolute then
      var standard := Join(Dir(Dir(yaml)), file.value);
      if standard in present then standard
      else if Join(Dir(yaml), file.value) in present then Join(Dir(yaml), file.value)
      else standard
    else OrEmpty(file)
  }

  /** main.go's reading of the configured output: the suffix goes on whatever is not empty. */
  function GoMainOutput(output: Option<Path>, yaml: Path): (r: Path)
    ensures Given(output) ==>
      var base := Resolve(ProjectRoot(yaml), output.value);
      Dir(r) == Dir(base) &&
      FileName(r) == StemExt(FileName(base), AnyDot).0 + GoSuffix + StemExt(FileName(base), AnyDot).1
  {
    var joined := if Given(output) && !output.value.absolute then Join(Dir(Dir(yaml)), output.value) else OrEmpty(output);
    if !IsEmpty(joined) then
      var (stem, ext) := StemExt(FileName(joined), AnyDot);
      DirChild(Dir(joined), stem + GoSuffix + ext);
      Child(Dir(joined), stem + GoSuffix + ext)
    else joined
  }

  /** main.go's Markdown: the flag when given, else `appendFirstPage` beside the configuration. */
  function GoMainMarkdown(md: Option<Path>, yaml: Path, append: Option<Path>): Option<Path> {
    if Given(md) then md
    else if Given(append) then Some(Join(Dir(yaml), append.value))
    else None
  }

  /** With input and output taken from the configuration, the two Go programs plan the same run. */
  lemma GoEntriesAgree(f: Flags, loaded: Loaded, present: set<Path>)
    requires !Given(f.input) && !Given(f.output)
    ensures GoCmdPlan(f, loaded, present) == GoMainPlan(f, loaded, present)
  {
    if LoadConfig(loaded).Ok? {
      var cfg := LoadConfig(loaded).value;
      var yaml := YamlOf(f);
      GoInputsAgree(cfg.file, yaml, present);
      GoOutputsAgree(cfg.output, yaml);
      GoMarkdownAgrees(f.markdown, yaml, cfg.appendFirstPage);
    }
  }

  lemma GoInputsAgree(file: Option<Path>, yaml: Path, present: set<Path>)
    ensures GoResolveInput(OrEmpty(file), yaml, present) == GoMainInput(file, yaml, present)
  {
    if Given(file) && !file.value.absolute {
      assert GoResolveInput(file.value, yaml, present) == Tiered(file.value, yaml, present);
    }
  }

  lemma GoOutputsAgree(output: Option<Path>, yaml: Path)
    ensures GoResolveOutput(OrEmpty(output), yaml, GoSuffix) == GoMainOutput(output, yaml)
  {
  }

  lemma GoMarkdownAgrees(md: Option<Path>, yaml: Path, append: Option<Path>)
    ensures GoResolveMarkdown(OrEmpty(md), yaml, OrEmpty(append)) == GoMainMarkdown(md, yaml, append)
  {
  }

  /**
    The two Go programs part on command-line paths: for a relative input
    that exists only beside the configuration, `runCommand` finds it there
    while main.go reports the path as given; a command-line output gets
    "_golang" only in `runCommand`.
   */
  lemma GoEntriesDiffer(f: Flags, loaded: Loaded, present: set<Path>)
    requires LoadConfig(loaded).Ok?
    requires Given(f.input) && !f.input.value.absolute
    requires Standard(f.input.value, YamlOf(f)) !in present && Fallback(f.input.value, YamlOf(f)) in present
    requires f.input.value !in present
    requires Given(f.output)
    ensures GoCmdPlan(f, loaded, present).Proceed?
    ensures GoCmdPlan(f, loaded, present).input == Fallback(f.input.value, YamlOf(f))
    ensures GoCmdPlan(f, loaded, present).output == Some(GoResolveOutput(f.output.value, YamlOf(f), GoSuffix))
    ensures GoMainPlan(f, loaded, present) == NotFound(f.input.value, 0)
  {
    JoinUnder(ConfigDir(YamlOf(f)), f.input.value);
  }

  // ------------------------------------------------------------------ configurations that may be null

  /**
    .NET, Java and Kotlin deserialise an empty document to `null` (`None`
    here); any other document decodes as in Go, except that their
    deserialisers reject a key the `Config` class does not declare, such as
    `workouts`.
   */
  function NullableConfig(l: Loaded): (r: Result<Option<Config>, LoadError>)
    ensures r == Ok(None) <==> l.EmptyDocument?
    ensures r.Err? <==> LoadConfig(l).Err? || (l.Mapped? && !l.doc.workouts.ListMissing?)
    ensures l.Mapped? && !l.doc.workouts.ListMissing? ==> r.Err?
    ensures r.Ok? && r.value.Some? ==> l.Mapped? && r.value.value == LoadConfig(l).value
  {
    if l.EmptyDocument? then Ok(None)
    else
      match LoadConfig(l)
      case Ok(c) => if !l.doc.workouts.ListMissing? then Err(DecodeFailed(UnknownKey)) else Ok(Some(c))
      case Err(e) => Err(e)
  }

  /** The run reads a field of the configuration: a missing flag, or an empty one where emptiness is tested. */
  predicate ReadsConfig(f: Flags, emptyInputIsMissing: bool) {
    (if emptyInputIsMissing then !Given(f.input) || !Given(f.output) else f.input.None? || f.output.None?) ||
    !Given(f.markdown)
  }

  // ------------------------------------------------------------------ .NET

  const DotNetSuffix := "_dotnet"

  /**
    `RunExtraction` (dotnet/Program.cs): `opts.InputFile ?? config.File`,
    and a relative input from either source goes through both candidates; a
    relative output is joined to the project root and every non-empty
    output gets "_dotnet", a command-line one too; a missing input and
    every exception end the run with status 1.
   */
  function DotNetPlan(f: Flags, loaded: Loaded, present: set<Path>): (r: Plan)
    ensures NullableConfig(loaded).Err? ==> r == Abort(1)
    ensures loaded.EmptyDocument? && ReadsConfig(f, false) ==> r == Abort(1)
    ensures r.Abort? ==> r.status == 1
    ensures r.NotFound? ==> r.status == 1 && !Exists(r.missing, present)
    ensures r.Proceed? ==> Exists(r.input, present) && r.yaml == YamlOf(f)
    ensures r.Proceed? && f.input.Some? && !IsEmpty(f.input.value) && !f.input.value.absolute ==>
      r.input == Standard(f.input.value, YamlOf(f)) || r.input == Fallback(f.input.value, YamlOf(f))
    ensures r.Proceed? && f.input.Some? && f.input.value.absolute ==> r.input == f.input.value
    ensures r.Proceed? && Given(f.output) ==>
      r.output == Some(InsertSuffix(Resolve(ProjectRoot(YamlOf(f)), f.output.value), DotNetSuffix, DotNetDot))
    ensures r.Proceed? && Given(f.markdown) ==> r.markdown == f.markdown
    ensures r.Proceed? && !Given(f.markdown) ==>
      loaded.Mapped? && (r.markdown.Some? <==> Given(loaded.doc.appendFirstPage))
  {
    match NullableConfig(loaded)
    case Err(_) => Abort(1)
    case Ok(cfg) =>
      if cfg.None? && ReadsConfig(f, false) then Abort(1)
      else
        var yaml := YamlOf(f);
        var raw := if f.input.Some? then f.input.value else OrEmpty(cfg.value.file);
        var input := if !IsEmpty(raw) && !raw.absolute then Tiered(raw, yaml, present) else raw;
        var rawOut := if f.output.Some? then f.output.value else OrEmpty(cfg.value.output);
        var joined := if !IsEmpty(rawOut) && !rawOut.absolute then Join(ProjectRoot(yaml), rawOut) else rawOut;
        var output := if !IsEmpty(joined) then InsertSuffix(joined, DotNetSuffix, DotNetDot) else joined;
        var md :=
          if Given(f.markdown) then f.markdown
          else if Given(cfg.value.appendFirstPage) then Some(Resolve(Dir(yaml), cfg.value.appendFirstPage.value))
          else None;
        Found(Exists(input, present), input, Some(output), yaml, md, 1)
  }

  // ------------------------------------------------------------------ Java and Kotlin

  const JavaSuffix := "_java"
  const KotlinSuffix := "_kotlin"

  /**
    `path.getParent().resolve(name + suffix + ext)` with the extension at
    the last '.' past the first character; `None` where `getFileName()` or
    `getParent()` is null and the call throws.
   */
  function JvmWithSuffix(p: Path, suffix: string): (r: Option<Path>)
    ensures r.Some? <==> JavaParent(p).Some?
    ensures r.Some? ==> r.value == InsertSuffix(p, suffix, InnerDot)
  {
    if JavaParent(p).None? then None else Some(InsertSuffix(p, suffix, InnerDot))
  }

  /**
    `extractPages` of PdfExtractor.java up to the existence check: the
    configuration file must have a parent (`getParent()` is dereferenced at
    once), a non-empty command-line input and output are used as written, a
    configured relative input goes through both candidates, and only a
    configured output is joined to the project root and gets "_java". The
    project root `getParent().getParent()` may be null; it is dereferenced
    only for a configured relative input or output. Every null that is
    dereferenced ends the run with status 1; a missing input is reported
    and the run ends normally.
   */
  function JavaPlan(f: Flags, loaded: Loaded, present: set<Path>): (r: Plan)
    ensures NullableConfig(loaded).Err? ==> r == Abort(1)
    ensures JavaParent(YamlOf(f)).None? ==> r == Abort(1)
    ensures (JavaParent(Dir(YamlOf(f))).None? && loaded.Mapped? &&
             ((!Given(f.input) && loaded.doc.file.Some? && !loaded.doc.file.value.absolute) ||
              (!Given(f.output) && loaded.doc.output.Some? && !loaded.doc.output.value.absolute))) ==>
      r == Abort(1)
    ensures !r.Abort? && JavaParent(Dir(YamlOf(f))).None? ==>
      (Given(f.input) || (loaded.Mapped? && loaded.doc.file.Some? && loaded.doc.file.value.absolute)) &&
      (Given(f.output) || (loaded.Mapped? && (loaded.doc.output.None? || loaded.doc.output.value.absolute)))
    ensures loaded.EmptyDocument? && ReadsConfig(f, true) ==> r == Abort(1)
    ensures r.Abort? ==> r.status == 1
    ensures r.NotFound? ==> r.status == 0 && !JvmExists(r.missing, present)
    ensures r.Proceed? ==> JvmExists(r.input, present) && r.yaml == YamlOf(f)
    ensures r.Proceed? && Given(f.input) ==> r.input == f.input.value
    ensures r.Proceed? && !Given(f.input) ==> loaded.Mapped? && loaded.doc.file.Some?
    ensures r.Proceed? && Given(f.output) ==> r.output == f.output
    ensures r.Proceed? && !Given(f.output) && r.output.Some? ==>
      loaded.Mapped? && loaded.doc.output.Some? &&
      r.output.value == InsertSuffix(Resolve(ProjectRoot(YamlOf(f)), loaded.doc.output.value), JavaSuffix, InnerDot)
    ensures r.Proceed? && Given(f.markdown) ==> r.markdown == f.markdown
  {
    match NullableConfig(loaded)
    case Err(_) => Abort(1)
    case Ok(cfg) =>
      var yaml := YamlOf(f);
      if JavaParent(yaml).None? then Abort(1)
      else if cfg.None? && ReadsConfig(f, true) then Abort(1)
      else
        // `None`: the project root is null
        var root := JavaParent(Dir(yaml));
        // `None`: a null was dereferenced
        var input: Option<Path> :=
          if Given(f.input) then f.input
          else if cfg.value.file.None? then None
          else if cfg.value.file.value.absolute then cfg.value.file
          else if root.None? then None
          else Some(Tiered(cfg.value.file.value, yaml, present));
        var output: Option<Option<Path>> :=
          if Given(f.output) then Some(f.output)
          else if cfg.value.output.None? then Some(None)
          else if !cfg.value.output.value.absolute && root.None? then None
          else
            (match JvmWithSuffix(Resolve(ProjectRoot(yaml), cfg.value.output.value), JavaSuffix)
             case None => None
             case Some(o) => Some(Some(o)));
        var md :=
          if Given(f.markdown) then f.markdown
          else if Given(cfg.value.appendFirstPage) then Some(Resolve(Dir(yaml), cfg.value.appendFirstPage.value))
          else None;
        if output.None? || input.None? then Abort(1)
        else Found(JvmExists(input.value, present), input.value, output.value, yaml, md, 0)
  }

  /**
    Main.kt's `Config` declares `pages` with a non-null type: `loadAs` hands
    an explicit `pages: null` to its setter, whose null check throws.
   */
  predicate KotlinRefusesNull(l: Loaded) {
    l.Mapped? && l.doc.pages.ListNull?
  }

  /**
    `extractPages` of Main.kt: as in Java, but a configured input that is
    empty or absolute is used as it is, and a configured output always gets
    "_kotlin", absolute or relative. An absent string key reads as "". A
    null the non-null `pages` property refuses fails the load.
   */
  function KotlinPlan(f: Flags, loaded: Loaded, present: set<Path>): (r: Plan)
    ensures NullableConfig(loaded).Err? ==> r == Abort(1)
    ensures KotlinRefusesNull(loaded) ==> r == Abort(1)
    ensures JavaParent(YamlOf(f)).None? || JavaParent(Dir(YamlOf(f))).None? ==> r == Abort(1)
    ensures loaded.EmptyDocument? && ReadsConfig(f, true) ==> r == Abort(1)
    ensures r.Abort? ==> r.status == 1
    ensures r.NotFound? ==> r.status == 0 && !JvmExists(r.missing, present)
    ensures r.Proceed? ==> JvmExists(r.input, present) && r.yaml == YamlOf(f) && r.output.Some?
    ensures r.Proceed? && Given(f.input) ==> r.input == f.input.value
    ensures r.Proceed? && Given(f.output) ==> r.output == f.output
    ensures r.Proceed? && !Given(f.output) ==>
      loaded.Mapped? &&
      r.output.value == InsertSuffix(Resolve(ProjectRoot(YamlOf(f)), OrEmpty(loaded.doc.output)), KotlinSuffix, InnerDot)
    ensures r.Proceed? && Given(f.markdown) ==> r.markdown == f.markdown
  {
    match NullableConfig(loaded)
    case Err(_) => Abort(1)
    case Ok(cfg) =>
      var yaml := YamlOf(f);
      if KotlinRefusesNull(loaded) then Abort(1)
      else if JavaParent(yaml).None? || JavaParent(Dir(yaml)).None? then Abort(1)
      else if cfg.None? && ReadsConfig(f, true) then Abort(1)
      else
        var root := Dir(Dir(yaml));
        var input :=
          if Given(f.input) then f.input.value
          else if Given(cfg.value.file) && !cfg.value.file.value.absolute then Tiered(cfg.value.file.value, yaml, present)
          else OrEmpty(cfg.value.file);
        var output: Option<Path> :=
          if Given(f.output) then f.output
          else if Given(cfg.value.output) && !cfg.value.output.value.absolute then
            JvmWithSuffix(Join(root, cfg.value.output.value), KotlinSuffix)
          else JvmWithSuffix(OrEmpty(cfg.value.output), KotlinSuffix);
        var md :=
          if Given(f.markdown) then f.markdown
          else if Given(cfg.value.appendFirstPage) then Some(Resolve(Dir(yaml), cfg.value.appendFirstPage.value))
          else None;
        if output.None? then Abort(1)
        else Found(JvmExists(input, present), input, output, yaml, md, 0)
  }

  /**
    The JVM programs part when the configuration has no `file`: Java
    dereferences null and fails, Kotlin reads "" and, since the empty path
    is the working directory, goes on to extract from it, unless an explicit
    `pages: null` already failed the load.
   */
  lemma JvmMissingFile(f: Flags, d: Document, present: set<Path>)
    requires DecodePages(d.pages).Ok? && d.file.None? && d.workouts.ListMissing?
    requires !Given(f.input) && Given(f.output) && Given(f.markdown)
    requires JavaParent(Dir(YamlOf(f))).Some?
    ensures JavaPlan(f, Mapped(d), present) == Abort(1)
    ensures !d.pages.ListNull? ==> KotlinPlan(f, Mapped(d), present).Proceed?
    ensures !d.pages.ListNull? ==> KotlinPlan(f, Mapped(d), present).input == Here
    ensures d.pages.ListNull? ==> KotlinPlan(f, Mapped(d), present) == Abort(1)
  {
  }

  /**
    A command-line output is suffixed by .NET and not by the JVM programs;
    a relative command-line input is looked up by .NET and used as written
    by Java and Kotlin, where Kotlin's load has not refused `pages: null`.
   */
  lemma CommandLinePathsCompared(f: Flags, loaded: Loaded, present: set<Path>)
    requires loaded.Mapped? && LoadConfig(loaded).Ok? && loaded.doc.workouts.ListMissing?
    requires Given(f.input) && Given(f.output) && Given(f.markdown) && !f.input.value.absolute
    requires JavaParent(Dir(YamlOf(f))).Some?
    requires Standard(f.input.value, YamlOf(f)) in present && f.input.value in present
    ensures DotNetPlan(f, loaded, present) ==
      Proceed(Standard(f.input.value, YamlOf(f)),
              Some(InsertSuffix(Resolve(ProjectRoot(YamlOf(f)), f.output.value), DotNetSuffix, DotNetDot)),
              YamlOf(f), f.markdown)
    ensures JavaPlan(f, loaded, present) == Proceed(f.input.value, f.output, YamlOf(f), f.markdown)
    ensures KotlinPlan(f, loaded, present) ==
      if KotlinRefusesNull(loaded) then Abort(1) else Proceed(f.input.value, f.output, YamlOf(f), f.markdown)
  {
    JoinUnder(ProjectRoot(YamlOf(f)), f.input.value);
  }

  /**
    A relative configuration path of two segments, such as
    `config/config.yaml`, has no project root: Kotlin needs the root at
    once and fails, while Java never dereferences it when every path comes
    from the command line.
   */
  lemma ShortConfigPath(f: Flags, loaded: Loaded, present: set<Path>)
    requires loaded.Mapped? && LoadConfig(loaded).Ok? && loaded.doc.workouts.ListMissing?
    requires Given(f.input) && Given(f.output) && Given(f.markdown) && f.input.value in present
    requires !YamlOf(f).absolute && |YamlOf(f).segments| == 2
    ensures JavaPlan(f, loaded, present) == Proceed(f.input.value, f.output, YamlOf(f), f.markdown)
    ensures KotlinPlan(f, loaded, present) == Abort(1)
  {
    assert |Dir(YamlOf(f)).segments| == 1;
  }

  // ------------------------------------------------------------------ Rust

  const RustSuffix := "_rust"

  /**
    serde's decoding of rust/src/main.rs's `Config`: `pages` has no
    default, so a document without a list there fails, and so does an
    empty document.
   */
  function RustConfig(l: Loaded): (r: Result<Config, LoadError>)
    ensures l.EmptyDocument? ==> r.Err?
    ensures l.Mapped? && !l.doc.pages.List? ==> r.Err?
    ensures r.Ok? ==> l.Mapped? && l.doc.pages.List? && r == LoadConfig(l)
  {
    if l.EmptyDocument? then Err(ParseFailed)
    else if l.Mapped? && !l.doc.pages.List? then Err(DecodeFailed(PagesNotList))
    else LoadConfig(l)
  }

  /** `parent().and_then(parent)`, or "." when the configuration path is too short. */
  function RustRoot(yaml: Path): (r: Path)
    ensures |yaml.segments| >= 2 ==> r == ProjectRoot(yaml)
    ensures |yaml.segments| < 2 ==> r == Here
  {
    match RustParent(yaml)
    case None => Here
    case Some(p) =>
      match RustParent(p)
      case None => Here
      case Some(q) => q
  }

  /**
    `main` of rust/src/main.rs: command-line values are used as written; a
    configured input is joined to the project root with no second
    candidate; a configured output becomes `<stem>_rust.pdf` in its
    directory; the configured Markdown file is used only if it exists; a
    missing input is reported and the program succeeds.
   */
  function RustPlan(f: Flags, loaded: Loaded, present: set<Path>): (r: Plan)
    ensures r.Abort? <==> RustConfig(loaded).Err?
    ensures r.Abort? ==> r.status == 1
    ensures r.NotFound? ==> r.status == 0 && !Exists(r.missing, present)
    ensures r.Proceed? ==> Exists(r.input, present) && r.yaml == YamlOf(f) && r.output.Some?
    ensures r.Proceed? && f.input.Some? ==> r.input == f.input.value
    ensures r.Proceed? && f.input.None? ==>
      loaded.Mapped? && loaded.doc.file.Some? && r.input == Resolve(RustRoot(YamlOf(f)), loaded.doc.file.value)
    ensures r.Proceed? && f.output.Some? ==> r.output == f.output
    ensures r.Proceed? && f.output.None? && loaded.doc.output.Some? && |Resolve(RustRoot(YamlOf(f)), loaded.doc.output.value).segments| > 0 ==>
      var base := Resolve(RustRoot(YamlOf(f)), loaded.doc.output.value);
      Dir(r.output.value) == Dir(base) &&
      FileName(r.output.value) == StemExt(FileName(base), InnerDot).0 + RustSuffix + ".pdf"
    ensures r.Proceed? && f.markdown.Some? ==> r.markdown == f.markdown
    ensures r.Proceed? && f.markdown.None? ==>
      (r.markdown.Some? <==>
         loaded.doc.appendFirstPage.Some? &&
         Resolve(RustParent(YamlOf(f)).GetOr(Here), loaded.doc.appendFirstPage.value) in present)
    ensures r.Proceed? && f.markdown.None? && r.markdown.Some? ==>
      r.markdown.value == Resolve(RustParent(YamlOf(f)).GetOr(Here), loaded.doc.appendFirstPage.value)
  {
    match RustConfig(loaded)
    case Err(_) => Abort(1)
    case Ok(cfg) =>
      var yaml := YamlOf(f);
      var root := RustRoot(yaml);
      var input :=
        if f.input.Some? then f.input.value
        else if cfg.file.None? then Here
        else if cfg.file.value.absolute then cfg.file.value
        else Join(root, cfg.file.value);
      var output :=
        if f.output.Some? then f.output.value
        else if cfg.output.None? then Here
        else RustWithSuffix(if cfg.output.value.absolute then cfg.output.value else Join(root, cfg.output.value), RustSuffix);
      var md :=
        if f.markdown.Some? then f.markdown
        else if cfg.appendFirstPage.None? then None
        else
          var candidate := Resolve(RustParent(yaml).GetOr(Here), cfg.appendFirstPage.value);
          if candidate in present then Some(candidate) else None;
      Found(Exists(input, present), input, Some(output), yaml, md, 0)
  }

  /**
    `Path::join` replaces the configuration directory with an absolute
    `appendFirstPage`, so an existing absolute Markdown file is used as it is.
   */
  lemma RustAbsoluteMarkdown(f: Flags, loaded: Loaded, present: set<Path>)
    requires RustConfig(loaded).Ok? && f.markdown.None?
    requires f.input.Some? && Exists(f.input.value, present)
    requires loaded.doc.appendFirstPage.Some? && loaded.doc.appendFirstPage.value.absolute
    requires loaded.doc.appendFirstPage.value in present
    ensures RustPlan(f, loaded, present).Proceed?
    ensures RustPlan(f, loaded, present).markdown == loaded.doc.appendFirstPage
  {
  }

  /**
    Rust has no second candidate: a configured input that exists only beside
    the configuration file is reported missing, where Go's main.go finds it.
   */
  lemma RustNoFallback(f: Flags, loaded: Loaded, present: set<Path>)
    requires RustConfig(loaded).Ok? && f.input.None?
    requires |YamlOf(f).segments| >= 2
    requires loaded.doc.file.Some? && !IsEmpty(loaded.doc.file.value) && !loaded.doc.file.value.absolute
    requires Standard(loaded.doc.file.value, YamlOf(f)) !in present
    requires Fallback(loaded.doc.file.value, YamlOf(f)) in present
    ensures RustPlan(f, loaded, present) == NotFound(Standard(loaded.doc.file.value, YamlOf(f)), 0)
    ensures GoMainPlan(f, loaded, present).Proceed?
    ensures GoMainPlan(f, loaded, present).input == Fallback(loaded.doc.file.value, YamlOf(f))
  {
    JoinUnder(ConfigDir(YamlOf(f)), loaded.doc.file.value);
  }

  // ------------------------------------------------------------------ PHP

  const PhpSuffix := "_php"

  /**
    The top level of php/src/main.php. The defaults come from the fixed
    `../resources/config.yaml`: an absent file gives none, and so does a
    top-level list, an array without the string keys; one that does not
    parse to an array throws out of the script (status 255). A truthy path
    whose directory does not exist is rewritten: a relative one is put
    below the project root, and an output gets "_php.pdf" in place of its
    extension. An unusable input or output, or a missing input, ends the
    run with status 1.
   */
  function PhpMainPlan(f: Flags, defaults: Loaded, present: set<Path>, dirs: set<Path>): (r: Plan)
    ensures r == Abort(255) <==> defaults.SyntaxError? || defaults.EmptyDocument? || (defaults.NotMapping? && !defaults.list)
    ensures r.NotFound? ==> r.status == 1 && !Exists(r.missing, present)
    ensures r.Proceed? ==> Exists(r.input, present) && r.yaml == YamlOf(f) && Given(r.output)
    ensures r.Proceed? && Given(f.input) && (Dir(f.input.value) in dirs || f.input.value.absolute) ==>
      r.input == f.input.value
    ensures r.Proceed? && Given(f.input) && Dir(f.input.value) !in dirs && !f.input.value.absolute ==>
      r.input == Join(ProjectRoot(YamlOf(f)), f.input.value)
    ensures r.Proceed? && Given(f.output) && Dir(f.output.value) in dirs ==> r.output == f.output
    ensures r.Proceed? && Given(f.output) && Dir(f.output.value) !in dirs ==>
      var base := Resolve(ProjectRoot(YamlOf(f)), f.output.value);
      Dir(r.output.value) == Dir(base) &&
      FileName(r.output.value) == StemExt(FileName(base), AnyDot).0 + PhpSuffix + ".pdf"
    ensures r.Proceed? && f.markdown.Some? ==> r.markdown == f.markdown
  {
    if defaults.SyntaxError? || defaults.EmptyDocument? || (defaults.NotMapping? && !defaults.list) then Abort(255)
    else PhpWithDefaults(f, if defaults.Mapped? then Some(defaults.doc) else None, present, dirs)
  }

  /** The rest of php/src/main.php once the defaults are known: `None` when there are none to read. */
  function PhpWithDefaults(f: Flags, d: Option<Document>, present: set<Path>, dirs: set<Path>): Plan {
    var defaultInput := if d.Some? then d.value.file else None;
    var defaultOutput := if d.Some? then d.value.output else None;
    var defaultMarkdown :=
      if d.Some? && Given(d.value.appendFirstPage) then Some(Join(Dir(DefaultYaml), d.value.appendFirstPage.value)) else None;
    var yaml := YamlOf(f);
    var input := if f.input.Some? then f.input else defaultInput;
    var output := if f.output.Some? then f.output else defaultOutput;
    var md := if f.markdown.Some? then f.markdown else defaultMarkdown;
    var input' :=
      if Given(input) && Dir(input.value) !in dirs && !input.value.absolute
      then Some(Join(ProjectRoot(yaml), input.value)) else input;
    var output' :=
      if Given(output) && Dir(output.value) !in dirs then
        Some(PhpWithSuffix(if output.value.absolute then output.value else Join(ProjectRoot(yaml), output.value), PhpSuffix))
      else output;
    if !Given(input') || !Given(output') then Abort(1)
    else Found(Exists(input'.value, present), input'.value, output', yaml, md, 1)
  }

  /** A top-level list in the defaults file passes `is_array` and supplies no defaults, like an absent file. */
  lemma PhpListDefaults(f: Flags, present: set<Path>, dirs: set<Path>)
    ensures PhpMainPlan(f, NotMapping(true), present, dirs) == PhpMainPlan(f, FileMissing, present, dirs)
    ensures PhpMainPlan(f, NotMapping(false), present, dirs) == Abort(255)
  {
  }

  /** A path whose directory exists is used as it is: no project root and no suffix. */
  lemma PhpExistingDirectories(f: Flags, defaults: Loaded, present: set<Path>, dirs: set<Path>)
    requires defaults.FileMissing? || defaults.Mapped?
    requires Given(f.input) && Given(f.output)
    requires Dir(f.input.value) in dirs && Dir(f.output.value) in dirs
    ensures f.input.value in present ==>
      PhpMainPlan(f, defaults, present, dirs).Proceed? &&
      PhpMainPlan(f, defaults, present, dirs).input == f.input.value &&
      PhpMainPlan(f, defaults, present, dirs).output == f.output
    ensures f.input.value !in present ==> PhpMainPlan(f, defaults, present, dirs) == NotFound(f.input.value, 1)
  {
  }

  // ------------------------------------------------------------------ Node

  function JsValue(o: Option<Path>): (r: NodePaths.JsPath)
    ensures NodePaths.Truthy(r) <==> Given(o)
  {
    if o.Some? then NodePaths.Str(o.value) else NodePaths.Undefined
  }

  function OptionOf(v: NodePaths.JsPath): (r: Option<Path>)
    ensures r.Some? <==> v.Str?
  {
    if v.Str? then Some(v.p) else None
  }

  /**
    `main` of nodejs/src/main.js. The defaults come from the fixed
    `../resources/config.yaml`, and any read or parse failure leaves them
    empty; an empty document makes `config.file` throw, which `main().catch`
    only prints, so the process ends with status 0. A given flag wins over
    its default; the input goes through both candidates and the output gets
    "_nodejs", whichever source they came from. A missing input ends the run
    with status 1.
   */
  function NodeMainPlan(f: Flags, defaults: Loaded, present: set<Path>): (r: Plan)
    ensures defaults.EmptyDocument? <==> r.Abort?
    ensures r.Abort? ==> r.status == 0
    ensures r.NotFound? ==> r.status == 1 && !Exists(r.missing, present)
    ensures r.Proceed? ==> Exists(r.input, present) && r.yaml == YamlOf(f)
    ensures r.Proceed? && Given(f.input) && !f.input.value.absolute ==>
      r.input == Standard(f.input.value, YamlOf(f)) || r.input == Fallback(f.input.value, YamlOf(f))
    ensures r.Proceed? && Given(f.output) ==>
      r.output == Some(NodePaths.AddSuffixToFilename(
        NodePaths.Str(Resolve(ProjectRoot(YamlOf(f)), f.output.value)), NodePaths.NodeSuffix).p)
    ensures r.Proceed? && f.markdown.Some? ==> r.markdown == f.markdown
    ensures r.Proceed? && f.markdown.None? ==>
      (r.markdown.Some? <==> defaults.Mapped? && Given(defaults.doc.appendFirstPage))
  {
    if defaults.EmptyDocument? then Abort(0)
    else
      var d: Option<Document> := if defaults.Mapped? then Some(defaults.doc) else None;
      var defaultInput := if d.Some? then d.value.file else None;
      var defaultOutput := if d.Some? then d.value.output else None;
      var defaultMarkdown :=
        if d.Some? && Given(d.value.appendFirstPage) then Some(Join(Dir(DefaultYaml), d.value.appendFirstPage.value)) else None;
      var yaml := YamlOf(f);
      var input := if f.input.Some? then NodePaths.Str(f.input.value) else JsValue(defaultInput);
      var output := if f.output.Some? then NodePaths.Str(f.output.value) else JsValue(defaultOutput);
      var md := if f.markdown.Some? then f.markdown else defaultMarkdown;
      var input' := NodePaths.JsResolveInput(input, yaml, present);
      var output' := NodePaths.JsResolveOutput(output, yaml, NodePaths.NodeSuffix);
      // `fs.access(undefined)` throws like a missing file
      var path := if input'.Str? then input'.p else Here;
      Found(Exists(path, present), path, OptionOf(output'), yaml, md, 1)
  }

  // ------------------------------------------------------------------ Python

  const PyConfig := Path(false, ["resources", "config.yaml"])

  /**
    `__main__` of pdf_extractor/__main__.py. `load` reads a configuration
    file; `autoPick` is the first Markdown file a glob finds in `resources`. The
    defaults come from `resources/config.yaml` when it exists, and any
    other failure to read it raises (status 1). Without a Markdown path the
    `--yaml` file's `appendFirstPage` is tried, then the glob. When input or
    output is falsy, or both equal their defaults, `file` and `output` of
    the `--yaml` file replace those that are falsy or equal their default.
    An input of `None` raises; a missing one is reported and the script
    ends normally.
   */
  function PyMainPlan(f: Flags, load: Path -> Loaded, autoPick: Option<Path>, present: set<Path>): (r: Plan)
    ensures !(load(PyConfig).FileMissing? || load(PyConfig).Mapped?) ==> r == Abort(1)
    ensures r.Abort? ==> r.status == 1
    ensures r.NotFound? ==> r.status == 0 && !Exists(r.missing, present)
    ensures r.Proceed? ==> Exists(r.input, present) && r.yaml == f.yaml.GetOr(PyConfig)
    ensures r.Proceed? && f.markdown.Some? ==> r.markdown == f.markdown
    ensures r.Proceed? && r.markdown.None? ==> autoPick.None?
    ensures r.Proceed? && Given(f.input) && Given(f.output) &&
      !(load(PyConfig).Mapped? && f.input == load(PyConfig).doc.file && f.output == load(PyConfig).doc.output)
      ==> r.input == f.input.value && r.output == f.output
  {
    var defaults := load(PyConfig);
    if !(defaults.FileMissing? || defaults.Mapped?) then Abort(1)
    else
      var d: Option<Document> := if defaults.Mapped? then Some(defaults.doc) else None;
      var defaultInput := if d.Some? then d.value.file else None;
      var defaultOutput := if d.Some? then d.value.output else None;
      var defaultMarkdown :=
        if d.Some? && Given(d.value.appendFirstPage) then Some(Resolve(Dir(PyConfig), d.value.appendFirstPage.value)) else None;
      var yaml := f.yaml.GetOr(PyConfig);
      var input := if f.input.Some? then f.input else defaultInput;
      var output := if f.output.Some? then f.output else defaultOutput;
      var mdArg := if f.markdown.Some? then f.markdown else defaultMarkdown;
      var y := load(yaml);
      if mdArg.None? && !y.Mapped? then Abort(1)
      else
        var md1 :=
          if mdArg.Some? then mdArg
          else if Given(y.doc.appendFirstPage) then Some(Resolve(Dir(yaml), y.doc.appendFirstPage.value))
          else None;
        var md := if md1.None? then autoPick else md1;
        var reread := !Given(input) || !Given(output) || (input == defaultInput && output == defaultOutput);
        if reread && !y.Mapped? then Abort(1)
        else
          var input' :=
            if reread && (!Given(input) || input == defaultInput) && y.doc.file.Some? then y.doc.file else input;
          var output' :=
            if reread && (!Given(output) || output == defaultOutput) && y.doc.output.Some? then y.doc.output else output;
          if input'.None? then Abort(1)
          else Found(Exists(input'.value, present), input'.value, output', yaml, md, 0)
  }

  /**
    Command-line values equal to the defaults count as not given: they are
    replaced by the `--yaml` file's values, even when that file is another one.
   */
  lemma PyDefaultsReread(f: Flags, load: Path -> Loaded, autoPick: Option<Path>, present: set<Path>)
    requires load(PyConfig).Mapped? && f.markdown.Some?
    requires f.input == load(PyConfig).doc.file && f.output == load(PyConfig).doc.output
    requires load(f.yaml.GetOr(PyConfig)).Mapped?
    requires load(f.yaml.GetOr(PyConfig)).doc.file.Some? && load(f.yaml.GetOr(PyConfig)).doc.output.Some?
    ensures var r := PyMainPlan(f, load, autoPick, present);
      var y := load(f.yaml.GetOr(PyConfig)).doc;
      r == Found(Exists(y.file.value, present), y.file.value, y.output, f.yaml.GetOr(PyConfig), f.markdown, 0)
  {
  }

  // ------------------------------------------------------------------ workout exporter

  const WorkoutInput := Path(false, ["resources", "BFX.Xceed.Global.OM.EN.pdf"])
  const WorkoutOutput := Path(false, ["output", "Bowflex_Workout_Booklet.pdf"])
  const WorkoutYaml := Path(false, ["resources", "workouts.yaml"])
  const WorkoutMarkdown := Path(false, ["resources", "workout_plan.md"])

  /**
    `__main__` of workout_exporter/__main__.py: every flag has a fixed
    default, so a Markdown path is always there and the glob is never
    consulted; a missing input is reported and the script ends normally.
   */
  function WorkoutPlan(f: Flags, present: set<Path>): (r: Plan)
    ensures !r.Abort?
    ensures r.NotFound? ==> r.status == 0 && !Exists(r.missing, present)
    ensures r.Proceed? ==> Exists(r.input, present) && r.markdown.Some? && r.output.Some?
    ensures r.Proceed? ==> r.yaml == f.yaml.GetOr(WorkoutYaml)
    ensures f.input.None? ==> (r.Proceed? <==> WorkoutInput in present)
  {
    var input := f.input.GetOr(WorkoutInput);
    Found(Exists(input, present), input, Some(f.output.GetOr(WorkoutOutput)), f.yaml.GetOr(WorkoutYaml),
          Some(f.markdown.GetOr(WorkoutMarkdown)), 0)
  }

  // ------------------------------------------------------------------ across languages

  /**
    The same missing input: Go, Java, Kotlin, Rust and Python report it and
    succeed, .NET, PHP and Node fail with status 1.
   */
  lemma MissingInputStatus(f: Flags, loaded: Loaded, present: set<Path>)
    requires loaded.Mapped? && RustConfig(loaded).Ok? && loaded.doc.workouts.ListMissing?
    requires Given(f.input) && Given(f.output) && Given(f.markdown) && f.input.value.absolute
    requires JavaParent(Dir(YamlOf(f))).Some?
    requires f.input.value !in present
    ensures GoMainPlan(f, loaded, present) == NotFound(f.input.value, 0)
    ensures GoCmdPlan(f, loaded, present) == NotFound(f.input.value, 0)
    ensures DotNetPlan(f, loaded, present) == NotFound(f.input.value, 1)
    ensures JavaPlan(f, loaded, present) == NotFound(f.input.value, 0)
    ensures KotlinPlan(f, loaded, present) == NotFound(f.input.value, 0)
    ensures RustPlan(f, loaded, present) == NotFound(f.input.value, 0)
    ensures NodeMainPlan(f, loaded, present) == NotFound(f.input.value, 1)
  {
  }
}
