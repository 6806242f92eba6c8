/**
  `PathUtils` of the two Node programs (nodejs/src/path-utils.js and
  node-ts/src/path-utils.ts). Their arguments may be `undefined`, `null` or a
  string, and they test them by truthiness: the empty string counts as
  missing. `path.join` concatenates, `path.parse` splits off the extension
  at the last dot that is not the first character.
 */
module NodePaths {
  import opened Base
  import opened Paths
  import opened Resolution

  /** A JavaScript value where a path string is expected. */
  datatype JsPath = Undefined | Null | Str(p: Path)

  predicate Truthy(v: JsPath) {
    v.Str? && !IsEmpty(v.p)
  }

  const NodeSuffix := "_nodejs"
  const TsSuffix := "_node-ts"

  /**
    `addSuffixToFilename`, the same in both programs: a falsy value is
    returned as it is; otherwise the suffix goes between name and extension,
    in the same directory.
   */
  function AddSuffixToFilename(v: JsPath, suffix: string): (r: JsPath)
    ensures !Truthy(v) ==> r == v
    ensures Truthy(v) ==> r.Str? && Dir(r.p) == Dir(v.p)
    ensures Truthy(v) ==>
      FileName(r.p) == StemExt(FileName(v.p), InnerDot).0 + suffix + StemExt(FileName(v.p), InnerDot).1
  {
    if !Truthy(v) then v
    else
      DirChild(Dir(v.p), StemExt(FileName(v.p), InnerDot).0 + suffix + StemExt(FileName(v.p), InnerDot).1);
      Str(InsertSuffix(v.p, suffix, InnerDot))
  }

  /** The extension survives the suffix: splitting the new name gives the old extension back. */
  lemma AddSuffixKeepsExtension(v: JsPath, suffix: string)
    requires Truthy(v)
    requires forall j :: 0 <= j < |suffix| ==> suffix[j] != '.'
    ensures StemExt(FileName(AddSuffixToFilename(v, suffix).p), InnerDot) ==
      (StemExt(FileName(v.p), InnerDot).0 + suffix, StemExt(FileName(v.p), InnerDot).1)
  {
    InsertSuffixSplit(v.p, suffix, InnerDot);
  }

  // ------------------------------------------------------------ nodejs/src/path-utils.js

  /** `resolveInputPath`: a falsy or absolute input is returned unchanged, a relative one goes through both candidates. */
  function JsResolveInput(input: JsPath, yaml: Path, present: set<Path>): (r: JsPath)
    ensures !Truthy(input) || input.p.absolute ==> r == input
    ensures Truthy(input) && !input.p.absolute ==>
      r.Str? && (r.p == Standard(input.p, yaml) || r.p == Fallback(input.p, yaml)) &&
      (r.p in present <==> Standard(input.p, yaml) in present || Fallback(input.p, yaml) in present) &&
      (Standard(input.p, yaml) in present ==> r.p == Standard(input.p, yaml))
  {
    if !Truthy(input) || input.p.absolute then input
    else Str(Tiered(input.p, yaml, present))
  }

  /**
    `resolveOutputPath`: a relative output is joined to the project root; the
    suffix is added to every truthy output, relative or absolute.
   */
  function JsResolveOutput(output: JsPath, yaml: Path, suffix: string): (r: JsPath)
    ensures !Truthy(output) ==> r == output
    ensures Truthy(output) && output.p.absolute ==> r == AddSuffixToFilename(output, suffix)
    ensures Truthy(output) && !output.p.absolute ==>
      r == AddSuffixToFilename(Str(Join(ProjectRoot(yaml), output.p)), suffix)
  {
    if !Truthy(output) || output.p.absolute then AddSuffixToFilename(output, suffix)
    else AddSuffixToFilename(Str(Join(ProjectRoot(yaml), output.p)), suffix)
  }

  /**
    `resolveMarkdownPath`: only an explicit `null` (not `undefined`, not "")
    is replaced by `appendFirstPage` beside the configuration file.
   */
  function JsResolveMarkdown(markdown: JsPath, yaml: Path, append: JsPath): (r: JsPath)
    ensures markdown != Null ==> r == markdown
    ensures markdown == Null ==> (r.Str? <==> Truthy(append))
    ensures markdown == Null && Truthy(append) ==> r.p == Join(ConfigDir(yaml), append.p)
  {
    if markdown == Null && Truthy(append) then Str(Join(ConfigDir(yaml), append.p)) else markdown
  }

  // ------------------------------------------------------------ node-ts/src/path-utils.ts

  /** `resolveInputPath`: as in JavaScript, and also unchanged when the configuration path is missing. */
  function TsResolveInput(input: JsPath, yaml: JsPath, present: set<Path>): (r: JsPath)
    ensures !Truthy(input) || !Truthy(yaml) || input.p.absolute ==> r == input
    ensures Truthy(input) && Truthy(yaml) && !input.p.absolute ==>
      r.Str? && (r.p in present <==> Standard(input.p, yaml.p) in present || Fallback(input.p, yaml.p) in present)
  {
    if !Truthy(input) || !Truthy(yaml) || input.p.absolute then input
    else Str(Tiered(input.p, yaml.p, present))
  }

  /** `resolveOutputPath`: without a configuration path the output only gets the suffix. */
  function TsResolveOutput(output: JsPath, yaml: JsPath, suffix: string): (r: JsPath)
    ensures !Truthy(output) ==> r == output
    ensures Truthy(output) && (!Truthy(yaml) || output.p.absolute) ==> r == AddSuffixToFilename(output, suffix)
    ensures Truthy(output) && Truthy(yaml) && !output.p.absolute ==>
      r == AddSuffixToFilename(Str(Join(ProjectRoot(yaml.p), output.p)), suffix)
  {
    if !Truthy(output) || !Truthy(yaml) || output.p.absolute then AddSuffixToFilename(output, suffix)
    else AddSuffixToFilename(Str(Join(ProjectRoot(yaml.p), output.p)), suffix)
  }

  /**
    `resolveMarkdownPath`: any falsy Markdown argument is replaced by the
    default when there is one; a falsy result is always `undefined`.
   */
  function TsResolveMarkdown(markdown: JsPath, yaml: JsPath, append: JsPath): (r: JsPath)
    ensures Truthy(markdown) ==> r == markdown
    ensures !Truthy(markdown) && Truthy(append) && Truthy(yaml) ==> r == Str(Join(ConfigDir(yaml.p), append.p))
    ensures !Truthy(markdown) && !(Truthy(append) && Truthy(yaml)) ==> r == Undefined
  {
    if !Truthy(markdown) && Truthy(append) && Truthy(yaml) then Str(Join(ConfigDir(yaml.p), append.p))
    else if Truthy(markdown) then markdown
    else Undefined
  }

  /** With a configuration path given, both programs resolve inputs and outputs alike. */
  lemma JsTsAgree(v: JsPath, yaml: Path, present: set<Path>, suffix: string)
    requires !IsEmpty(yaml)
    ensures TsResolveInput(v, Str(yaml), present) == JsResolveInput(v, yaml, present)
    ensures TsResolveOutput(v, Str(yaml), suffix) == JsResolveOutput(v, yaml, suffix)
  {
  }

  /**
    The two Markdown rules part on `undefined` and on "": JavaScript keeps
    them, TypeScript puts the default in their place.
   */
  lemma MarkdownRulesDiffer(yaml: Path, append: Path)
    requires !IsEmpty(yaml) && !IsEmpty(append)
    ensures JsResolveMarkdown(Undefined, yaml, Str(append)) == Undefined
    ensures JsResolveMarkdown(Str(Here), yaml, Str(append)) == Str(Here)
    ensures TsResolveMarkdown(Undefined, Str(yaml), Str(append)) == Str(Join(ConfigDir(yaml), append))
    ensures TsResolveMarkdown(Str(Here), Str(yaml), Str(append)) == Str(Join(ConfigDir(yaml), append))
    ensures JsResolveMarkdown(Null, yaml, Str(append)) == TsResolveMarkdown(Null, Str(yaml), Str(append))
  {
  }
}
