# PDF page extractor: a Dafny model

The repository implements one small tool in twelve programs: in Go (twice), .NET,
Java, Kotlin, Rust, Ruby, PHP, JavaScript, TypeScript and Python (twice, the
second being the workout exporter). Each one does the same three things.

1. It reads a YAML configuration whose `pages` list names pages of an input
   PDF. Each entry has a `pageIndex` or a `page` key.
2. It selects the distinct indices in order of first appearance.
3. It writes them to an output PDF. The pages of a Markdown file rendered to
   PDF can optionally come first.

Where the implementations keep files, they use one of three designs:

- a private temporary directory, used by Go, .NET, Java, Kotlin and Rust;
- individual temporary files, used by Ruby and PHP;
- assembly in memory (pdf-lib and PyPDF2), used by Node and Python; only
  their Markdown renderers still write temporary files.

Every entry point resolves its input, output and Markdown paths in its own
way.

The model covers:

- the configuration document and its typed decoding, with an encode/decode
  round trip;
- the page selection, as a seen-set loop proved equal to a reference
  "keep first occurrence" definition;
- the selection variants of the dynamically typed languages, each compared
  with the typed one;
- the pdftk command lines, including the joined-then-split page list;
- file paths and the three-tier input resolution;
- the runs themselves, as an event trace whose live-file set shows what a
  run leaves behind;
- every entry point's plan: abort, "not found" with its exit status, or
  proceed with four resolved paths;
- for the temporary-directory programs, the whole run from plan to
  assembly, handing the configuration's selection to pdftk unchanged.

The file system, pdftk, the renderer and the PDF libraries become
parameters:

- a set of existing paths;
- processes that either start or not, with an exit status and whether they
  wrote their output;
- page counts.

## Model

| member | source | states |
|---|---|---|
| Dedup.FoldIsKeepFirst | golang/internal/config/config.go:40-58 | the seen-set loop emits exactly the reference selection: an element is kept iff it does not occur earlier |
| Dedup.FoldExtends | dotnet/Program.cs:203-211 | a fold started with the values of a prefix continues the reference selection of that prefix |
| Dedup.KeepFirstElems | golang/internal/config/config.go:52-55 | nothing is lost and nothing is invented: the selection has the same set of values as the input |
| Dedup.KeepFirstNoDup | golang/internal/config/config.go:52-55 | no value is selected twice |
| Dedup.KeepFirstShorter | golang/internal/config/config.go:40-58 | the selection is never longer than the page list |
| Dedup.KeepFirstOrder | golang/internal/config/config.go:44-56 | selected values appear in the order of their first occurrence in the input |
| Dedup.KeepFirstOfNoDup | golang/internal/config/config.go:40-58 | a list without repeats is selected unchanged |
| Dedup.KeepFirstIdempotent | golang/internal/config/config.go:40-58 | selecting a selection changes nothing |
| Dedup.KeepFirstInjectiveMap | nodejs/src/config.js:24-30 | de-duplicating before or after an injective conversion (such as idx - 1) gives the same list |
| Dedup.FirstIndex | golang/internal/config/config.go:52 | the first occurrence: the element is there and nowhere before it |
| ConfigDoc.DecodeField | golang/internal/config/config.go:16-21 | a `*int` field decodes absent and null to nil and an integer to itself; any other value is a decode error |
| ConfigDoc.DecodeEntries | golang/internal/config/config.go:13 | the page list decodes iff every entry does, and then entry by entry |
| ConfigDoc.LoadConfig | golang/internal/config/config.go:24-37 | a read error, a parse error or a top level that is not a mapping fails; an empty document gives the zero Config; a mapping decodes iff its pages do |
| ConfigDoc.DecodeEncode | golang/internal/config/config.go:9-37 | every typed configuration written as YAML reads back unchanged |
| ConfigDoc.EncodeEntries | golang/internal/config/config.go:16-21 | writes each typed entry in place, one mapping per entry |
| ConfigDoc.Chars | nodejs/src/config.js:24 | iterating a string yields its characters, one single-character string each |
| Selection.ExtractPageIndices | golang/internal/config/config.go:40-58 | the loop's result is the reference selection: distinct, no longer than the list, and holding exactly the effective indices of the entries |
| Selection.LoopStep | golang/main.go:99-111 | one pass keeps the result list and the seen map equal to the selection of the prefix and its values |
| Selection.SelectStep | golang/internal/config/config.go:45-55 | one more entry appends its effective index iff that index was not seen, and adds it to the seen set |
| Selection.Candidates | golang/internal/config/config.go:45-50 | at most one effective index per entry |
| Selection.CandidatesMembers | golang/internal/config/config.go:45-50 | a value is a candidate iff it is the effective index of some entry |
| Selection.SelectedProperties | golang/internal/config/config.go:40-58 | distinct, bounded by the list length, and exactly the effective indices |
| Selection.SelectedOrder | golang/internal/config/config.go:44-56 | selection order is first-occurrence order among the effective indices |
| Selection.LaterDuplicateDropped | golang/internal/config/config.go:52 | an entry whose index was already selected changes nothing |
| Selection.NewIndexAppended | golang/internal/config/config.go:53 | a new index goes at the end |
| Selection.NoIndexNoEffect | golang/internal/config/config.go:45-52 | an entry with neither `pageIndex` nor `page` contributes nothing |
| Selection.PageNumberIgnored | golang/internal/config/config.go:20 | `pageNumber` never influences the selection |
| Selection.CandidatesAgree | golang/internal/config/config.go:45-50 | lists that agree on `pageIndex` and `page` have the same candidates |
| Selection.SelectionExamples | golang/internal/config/config.go:46-50 | `pageIndex` 0 wins over `page`; a `page` that repeats an earlier `pageIndex` is dropped |
| Selection.RepeatExample | golang/internal/config/config.go:52-55 | any entries shaped 3 (pageIndex), 3 (page), 7 select [3, 7] |
| DynamicSelection.PickMembers | ruby/lib/pdf_extractor/extractor.rb:63-71 | a value is picked iff some entry yields it |
| DynamicSelection.PickAgrees | ruby/lib/pdf_extractor/extractor.rb:63-71 | a per-entry rule that agrees with the typed effective index picks the typed candidates |
| DynamicSelection.PickNone | ruby/lib/pdf_extractor/extractor.rb:63-71 | nothing is selected when no entry yields a value |
| DynamicSelection.DedupIntScalars | php/src/PdfExtractor/PdfExtractor.php:136-139 | de-duplicating raw integer values is de-duplicating the integers |
| DynamicSelection.RubyIndex | ruby/lib/pdf_extractor/extractor.rb:64-67 | what Ruby keeps is an integer or a string, the only scalars that answer `to_i`; an entry that is not a mapping gives nothing |
| DynamicSelection.RubySeenProperties | ruby/lib/pdf_extractor/extractor.rb:60-72 | raw values are selected once each, and exactly those some entry yields |
| DynamicSelection.RubyAgreesWithTyped | ruby/lib/pdf_extractor/extractor.rb:60-72 | on a list the typed programs decode, Ruby selects what they select |
| DynamicSelection.RubyMixedKindsRepeat | ruby/lib/pdf_extractor/extractor.rb:67-70 | 3 and "3" are different raw values, so page 3 is selected twice |
| DynamicSelection.Coalesce | php/src/PdfExtractor/PdfExtractor.php:135 | `??` yields a present non-null value iff one of the two keys holds one |
| DynamicSelection.PhpIndex | php/src/PdfExtractor/PdfExtractor.php:131-136 | only `is_numeric` values are kept: integers and numeric strings with blanks, a sign, a fraction or an exponent; an entry that is not an array gives nothing |
| DynamicSelection.PhpToIntOfIntegerText | php/src/PdfExtractor/PdfExtractor.php:136-137 | integer text is numeric and `(int)` reads back the integer it writes |
| DynamicSelection.PhpNumericForms | php/src/PdfExtractor/PdfExtractor.php:136-137 | " 12", "1.5" and "1e3" are numeric and `(int)` gives 12, 1 and 1000; "" and "1e" are not numeric |
| DynamicSelection.PhpOfNumeral | php/src/PdfExtractor/PdfExtractor.php:136-137 | a numeric string is kept, and `(int)` is its value rounded toward zero |
| DynamicSelection.PhpSeenProperties | php/src/PdfExtractor/PdfExtractor.php:127-140 | raw values are selected once each, and exactly those some entry yields |
| DynamicSelection.PhpAgreesWithTyped | php/src/PdfExtractor/PdfExtractor.php:127-140 | on a list the typed programs decode, PHP selects what they select |
| DynamicSelection.PhpFalseShadowsPage | php/src/PdfExtractor/PdfExtractor.php:135 | `pageIndex: false` hides `page` in PHP, but Ruby falls through to `page` |
| DynamicSelection.JsIndex | nodejs/src/config.js:25-26 | undefined and null are never kept; an entry that is not a mapping has neither key |
| DynamicSelection.JsPageEntries | nodejs/src/config.js:20-24 | `pages || []`: a list is iterated, a string one character at a time; a truthy number or boolean and a mapping make the loop throw; any other value is an empty loop |
| DynamicSelection.JsExtractPageIndices | nodejs/src/config.js:19-33 | the loop completes iff its value can be iterated and no entry is null, whose property read throws; it then selects from the iterated entries |
| DynamicSelection.JsTextSelectsNothing | nodejs/src/config.js:20-31 | a string `pages` is iterated without error and selects nothing: a character has no `pageIndex` or `page` |
| DynamicSelection.JsSeenProperties | nodejs/src/config.js:19-33 | raw values are selected once each, and exactly those some entry yields |
| DynamicSelection.JsMinusOneOfInts | nodejs/src/config.js:27 | on integers `idx - 1` is the ordinary 0-based offset |
| DynamicSelection.JsMinusOneOfIntegerText | nodejs/src/config.js:27 | `idx - 1` on integer text is the integer it writes, minus one |
| DynamicSelection.JsMinusOneOfNumeral | nodejs/src/config.js:27 | a numeric string whose value is the integer v gives v - 1 |
| DynamicSelection.JsFractionOfNumeral | nodejs/src/config.js:27 | a numeric string with a fractional part gives a number that is not an integer |
| DynamicSelection.JsMinusOneForms | nodejs/src/config.js:27 | `" 12" - 1` is 11, `"1.5" - 1` is not an integer, `"" - 1` is -1 |
| DynamicSelection.JsIndexDecoded | nodejs/src/config.js:25 | `pageIndex || page` is the typed effective index unless `pageIndex` is 0 |
| DynamicSelection.JsAgreesWithTyped | node-ts/src/config.ts:19-33 | when no `pageIndex` is 0, Node selects the typed selection shifted to 0-based offsets |
| DynamicSelection.JsZeroFallsThrough | nodejs/src/config.js:25 | `pageIndex: 0` falls through to `page` in Node, unlike the typed programs |
| DynamicSelection.PyCandidates | pdf_extractor/__main__.py:64-72 | succeeds iff no entry raises, giving at most one value per entry |
| DynamicSelection.PyIndex | pdf_extractor/__main__.py:64-69 | an entry that is not a mapping raises: TypeError from the `in` test on a number, a boolean or None, AttributeError from `.get` on a string or a list |
| DynamicSelection.PyCandidatesFirstError | pdf_extractor/__main__.py:64-72 | the loop fails with the error of the first entry that raises |
| DynamicSelection.PyPageList | workout_exporter/__main__.py:53-57 | only a mapping document is iterated, and a list under the key is iterated as it is |
| DynamicSelection.PyTextPages | pdf_extractor/__main__.py:59-72 | a string `pages` selects nothing when empty and otherwise raises AttributeError on its first character |
| DynamicSelection.PyCandidatesAgree | pdf_extractor/__main__.py:64-72 | when every entry yields its typed index, the candidates are the typed ones |
| DynamicSelection.PyIndexDecoded | pdf_extractor/__main__.py:65-69 | the `"pageIndex" in` test gives the typed index unless `pageIndex` is an explicit null |
| DynamicSelection.PyAgreesWithTyped | pdf_extractor/__main__.py:62-73 | Python selects the typed selection, 0-based |
| DynamicSelection.PySelectProperties | workout_exporter/__main__.py:55-61 | raw values are selected once each, and exactly those some entry yields |
| DynamicSelection.PyMissingList | workout_exporter/__main__.py:53 | a missing `pages` selects nothing; a missing `workouts` raises KeyError |
| DynamicSelection.PyNullShadowsPage | pdf_extractor/__main__.py:65-70 | `pageIndex: null` hides `page` in Python but not in Go |
| DynamicSelection.PyTrueIsOne | pdf_extractor/__main__.py:70 | `True` and 1 are the same set element in Python |
| Numerals.DigitsRoundTrip | rust/src/main.rs:133-139 | reading back the decimal digits of n gives n |
| Numerals.DecimalRoundTrip | golang/internal/pdf/processor.go:72-91 | the decimal text of a page number is integer text that parses back to it |
| Numerals.DecimalInjective | golang/internal/pdf/processor.go:72-91 | distinct pages give distinct arguments |
| Numerals.DecimalHasNoBlank | rust/src/main.rs:133-139 | decimal text holds no blank, so it survives the join and the split |
| Numerals.DigitPrefix | php/src/PdfExtractor/PdfExtractor.php:136 | the longest leading run of digits: all digits, and the next character is not one |
| Numerals.LeadingIntegerOfIntegerText | ruby/lib/pdf_extractor/extractor.rb:70 | `to_i` of integer text is its value |
| Numerals.LeadingIntegerIgnoresTail | ruby/lib/pdf_extractor/extractor.rb:70 | `to_i` ignores what follows the leading integer when that starts with neither a digit nor an `_` before a digit |
| Numerals.UnderscoredDigits | ruby/lib/pdf_extractor/extractor.rb:70 | the digits `to_i` reads are all digits, and there are some iff the text starts with one |
| Numerals.LeadingIntegerSkipsBlanks | ruby/lib/pdf_extractor/extractor.rb:70 | leading blanks do not change `to_i` |
| Numerals.LeadingIntegerSeparators | ruby/lib/pdf_extractor/extractor.rb:70 | `"12_3".to_i` is 123 and `"12__3".to_i` is 12 |
| Numerals.TrimStartStrips | php/src/PdfExtractor/PdfExtractor.php:136 | trimming drops exactly the leading blanks |
| Numerals.TrimEndStrips | php/src/PdfExtractor/PdfExtractor.php:136 | trimming drops exactly the trailing blanks |
| Numerals.ShiftRoundTrip | php/src/PdfExtractor/PdfExtractor.php:137 | dropping the zeros a positive exponent appended gives the mantissa back |
| Numerals.NumeralOfIntegerText | php/src/PdfExtractor/PdfExtractor.php:136-137 | integer text is a numeric string with an integral value equal to the integer it writes |
| Numerals.NumeralForms | php/src/PdfExtractor/PdfExtractor.php:136 | " 12", "1.5", "1e3" and "1." are numeric strings with the expected values; "1e", "." and "" are not |
| Commands.ExtractArgv | golang/main.go:138-158 | one argument for each page plus four fixed ones |
| Commands.MergeArgv | golang/main.go:160-178 | one argument for each file plus three fixed ones |
| Commands.ExtractArgvRoundTrip | golang/internal/pdf/processor.go:72-91 | pdftk reads back exactly the input, the pages in their order, and the output |
| Commands.MergeArgvRoundTrip | golang/internal/pdf/processor.go:93-111 | pdftk reads back exactly the files in their order and the output |
| Commands.ParsePagesWords | golang/internal/pdf/processor.go:76-80 | page words parse back to the pages |
| Commands.CallsDistinct | golang/internal/pdf/processor.go:72-111 | an extraction call is never read as a merge, nor a merge as an extraction |
| Commands.ParseFilesRejectsWord | golang/internal/pdf/processor.go:93-98 | a file list containing a keyword is not a file list |
| Commands.SplitWhitespace | rust/src/main.rs:133-139 | every piece is a non-empty run without white space |
| Commands.SplitJoin | rust/src/main.rs:133-139 | splitting space-joined tokens gives the tokens back |
| Commands.DecimalIsToken | dotnet/Program.cs:236-243 | a page number's text is one token |
| Commands.StringArgvAgrees | ruby/lib/pdf_extractor/extractor.rb:90-103 | joining the pages into one command line and splitting it again gives pdftk the same arguments as building them directly |
| Paths.DirChild | golang/internal/pathutils/resolver.go:59-64 | a child's parent and file name are the directory and the name |
| Paths.ChildDirFileName | golang/internal/pathutils/resolver.go:59-64 | a path is its parent plus its file name |
| Paths.ResolveRelative | ruby/lib/pdf_extractor/cli.rb:121 | joining a relative path agrees with expanding it; an absolute one replaces the base |
| Paths.JavaParent | java/src/main/java/com/workoutplan/pdfextractor/PdfExtractor.java:126 | no parent for a root or a single relative name; otherwise the directory |
| Paths.RustParent | rust/src/main.rs:172-174 | no parent only for a path without segments; otherwise the directory |
| Paths.LastDot | golang/internal/pathutils/resolver.go:61 | the position of the last '.', or none when there is no dot |
| Paths.StemExt | golang/internal/pathutils/resolver.go:59-62 | the extension is empty or a dot with no further dot; stem plus extension is the name, except that .NET drops a trailing dot |
| Paths.InsertSuffixSplit | golang/internal/pathutils/resolver.go:58-64 | a suffix without a dot keeps the directory and the extension, and extends the stem |
| Paths.StemSuffixExt | nodejs/src/path-utils.js:33-41 | splitting stem + suffix + extension gives the extended stem and the same extension |
| Paths.DotNetSuffixMovesExtension | dotnet/Program.cs:98-105 | "a.b." becomes "a.b_dotnet", whose extension is now ".b_dotnet" |
| Paths.RubyAddSuffix | ruby/lib/pdf_extractor/cli.rb:127-131 | same directory, and the name always ends in ".pdf" |
| Paths.RubyAddSuffixAgrees | ruby/lib/pdf_extractor/cli.rb:127-131 | for a ".pdf" file, Ruby's rule is the general insert-before-extension rule |
| Paths.RustWithSuffix | rust/src/main.rs:194-204 | a path without a file name is kept; otherwise `<stem>_rust.pdf` in the same directory |
| Paths.PhpWithSuffix | php/src/main.php:49-53 | same directory, the stem, the suffix, and ".pdf" whatever the old extension was |
| Resolution.Tiered | golang/internal/pathutils/resolver.go:26-41 | the project-root candidate if it exists, else the one beside the configuration if that exists, else the project-root one; the result exists iff either does |
| Resolution.TieredUnder | golang/internal/pathutils/resolver.go:26-41 | a relative input is always looked up below the project root, and a fallback beside the configuration |
| Resolution.GoResolveInput | golang/internal/pathutils/resolver.go:17-42 | empty stays empty, absolute is kept, relative goes through both candidates |
| Resolution.GoResolveOutput | golang/internal/pathutils/resolver.go:45-66 | empty stays empty; otherwise the directory of the resolved path and the suffix before the extension |
| Resolution.GoOutputKeepsExtension | golang/internal/pathutils/resolver.go:58-64 | the output keeps its extension |
| Resolution.GoResolveMarkdown | golang/internal/pathutils/resolver.go:68-80 | an explicit file wins; otherwise there is a file iff `appendFirstPage` is set, beside the configuration |
| Resolution.MarkdownBesideConfig | golang/internal/pathutils/resolver.go:73-76 | the Markdown default lies in the configuration's directory, not in the project root |
| NodePaths.AddSuffixToFilename | nodejs/src/path-utils.js:33-41 | a falsy value is returned as is; otherwise the suffix goes between name and extension in the same directory |
| NodePaths.AddSuffixKeepsExtension | node-ts/src/path-utils.ts:33-41 | the extension survives the suffix |
| NodePaths.JsResolveInput | nodejs/src/path-utils.js:5-21 | falsy or absolute is unchanged; otherwise tiered resolution |
| NodePaths.JsResolveOutput | nodejs/src/path-utils.js:23-31 | every truthy output gets the suffix, and a relative one is placed under the project root first |
| NodePaths.JsResolveMarkdown | nodejs/src/path-utils.js:43-48 | only an explicit null is replaced by the default |
| NodePaths.TsResolveInput | node-ts/src/path-utils.ts:5-21 | also unchanged without a configuration path |
| NodePaths.TsResolveOutput | node-ts/src/path-utils.ts:23-31 | without a configuration path the output only gets the suffix |
| NodePaths.TsResolveMarkdown | node-ts/src/path-utils.ts:43-48 | any falsy Markdown argument takes the default, and a falsy result is undefined |
| NodePaths.JsTsAgree | node-ts/src/path-utils.ts:5-31 | with a configuration path, both programs resolve inputs and outputs alike |
| NodePaths.MarkdownRulesDiffer | node-ts/src/path-utils.ts:43-48 | undefined and "" are kept by JavaScript but replaced by TypeScript; null is treated alike |
| Temps.Emit | golang/main.go:113-118 | recording an event extends the trace and updates every summary accordingly |
| Temps.EmitValid | golang/main.go:113-118 | the summaries stay consistent with the trace |
| Temps.RemoveTreeClears | golang/main.go:118 | after `RemoveAll` nothing below the directory is live, and everything outside it is untouched |
| Temps.LiveAppend | golang/main.go:113-181 | the live set of a trace is a left fold over its events |
| Temps.RemoveAll | ruby/lib/pdf_extractor/extractor.rb:179-186 | deleting a list of files (missing ones being no error) removes exactly them from the live set |
| Render.TempPair | golang/main.go:30-82 | the two temporary files are gone afterwards, whatever the order; one renderer call is made |
| Render.RenderMarkdown | dotnet/Program.cs:134-191 | succeeds iff the Markdown is readable and the renderer succeeds by that language's rule; .NET as written leaves its two placeholders behind |
| Render.RenderLeavesNothing | rust/src/main.rs:45-93 | every renderer except .NET as written can only shrink the live set |
| Render.WithExtDiffers | dotnet/Program.cs:157-158 | a name extended by ".html" or ".pdf" is a different file from the placeholder |
| Render.DotNetPlaceholdersLeak | dotnet/Program.cs:157-158 | the placeholders made by `GetTempFileName` stay live as written, and the corrected renderer leaves nothing |
| Render.RustIgnoresRendererStatus | rust/src/main.rs:85-90 | Rust returns a PDF after a renderer failure status; Go does not |
| Assembly.MarkdownStage | golang/main.go:123-135 | succeeds iff there is no Markdown page or it renders; it then hands on `markdown.pdf`, which exists |
| Assembly.ExtractStage | golang/main.go:138-158 | pdftk writes the selected pages to `extracted.pdf`, and the stage is skipped when nothing is selected |
| Assembly.CombineStage | golang/main.go:160-178 | one file is copied, several are merged with one pdftk call; the output becomes live |
| Assembly.AfterMarkdown | java/src/main/java/com/workoutplan/pdfextractor/PdfExtractor.java:194-263 | the run ends by removing its directory, saves only on success, and leaves only the output when everything was inside the directory |
| Assembly.Finish | kotlin/src/main/kotlin/com/workoutplan/pdfextractor/Main.kt:190-230 | copying or merging succeeds by the language's rule, and the directory is removed last |
| Assembly.AssembleRemovesDirectoryLast | golang/main.go:114-118 | on every path out the last event removes the run directory |
| Assembly.MarkdownHandsOn | golang/main.go:123-135 | the Markdown step hands on at most an existing `markdown.pdf`, with no pdftk call and no message |
| Assembly.AssembleOutcome | golang/main.go:84-185 | a run succeeds iff the reference `Succeeds` holds, and prints "Saved to" exactly then |
| Assembly.AssembleFailure | rust/src/main.rs:95-163 | each failure names the stage that caused it |
| Assembly.AfterMarkdownOutcome | golang/internal/pdf/processor.go:27-70 | after a Markdown step that succeeded, the outcome is the reference one |
| Assembly.AssembleCalls | golang/internal/pdf/processor.go:27-70 | pdftk is called for the extraction, then for the merge, with exactly these arguments |
| Runs.Status | golang/main.go:267-272 | the plan's status when it stops, 1 after an exception, 0 exactly when the run saved its output |
| Runs.SelectedPages | dotnet/Program.cs:193-213 | the keep-first selection of effective indices, or a failure exactly when the configuration fails or a null configuration or `pages` list is iterated by a language that dereferences it |
| Runs.Execute | golang/internal/cli/cmd.go:74-84 | a plan that stops is the result; otherwise the selection is handed on, and the first pdftk call extracts exactly it from the plan's input |
| Runs.SelectionReachesPdftk | golang/internal/cli/cmd.go:80-84 | the selected pages reach pdftk unchanged: the extraction argv parses back to the plan's input, the selection in order and `extracted.pdf`; nothing selected means no pdftk call |
| Runs.GoCmdRun | golang/internal/cli/cmd.go:44-84 | stops iff the plan does, never fails on the configuration, and hands on the selection of the loaded configuration |
| Runs.GoMainRun | golang/main.go:84-111 | stops iff the plan does; `extractPages` reads the file again and hands on its selection |
| Runs.DotNetRun | dotnet/Program.cs:193-213 | stops iff the plan does; once the input is found, an empty document or `pages: null` throws on `config.Pages` |
| Runs.JavaRun | java/src/main/java/com/workoutplan/pdfextractor/PdfExtractor.java:170-191 | stops iff the plan does; once the input is found, an empty document or `pages: null` throws on `config.pages` |
| Runs.KotlinRun | kotlin/src/main/kotlin/com/workoutplan/pdfextractor/Main.kt:163-171 | stops iff the plan does, and an explicit `pages: null` has already stopped it with status 1; once the input is found, an empty document throws; otherwise `mapNotNull` and `distinct` give the selection |
| Runs.RustRun | rust/src/main.rs:95-115 | stops iff the plan does, never fails on the configuration, and hands on the selection of the required `pages` list |
| Runs.NullPagesDiffer | dotnet/Program.cs:200-205 | with `pages: null` Go selects nothing and goes on; .NET and Java throw after finding the input, and Kotlin's load refuses the null; all three exit with status 1 |
| Runs.EmptyDocumentRuns | dotnet/Program.cs:195-205 | an empty document with every path given: Go selects nothing, .NET and Kotlin throw |
| Assembly.AfterMarkdownCalls | golang/internal/pdf/processor.go:44-67 | the pdftk calls after the Markdown step |
| Assembly.AssembleCleansUp | java/src/main/java/com/workoutplan/pdfextractor/PdfExtractor.java:194-263 | except for .NET as written, nothing but the output is left behind |
| Assembly.OutsideSurvives | dotnet/Program.cs:216-217 | a file outside the run directory that exists after rendering survives the run |
| Assembly.ExtractedIsNew | golang/main.go:138-158 | `extracted.pdf` does not exist before the extraction |
| Assembly.ContainedThenRemoved | dotnet/Program.cs:297-299 | removing the directory leaves only the output of a contained live set |
| Assembly.DotNetRunLeaks | dotnet/Program.cs:157-158 | a .NET run with a Markdown page leaves both placeholders behind, and the corrected one does not |
| Assembly.NothingSelectedStillSaved | golang/main.go:160-181 | with nothing selected and no Markdown, the directory family copies nothing but prints "Saved to" |
| Assembly.RustIgnoresMergeStatus | rust/src/main.rs:155 | Rust reports success after a failing merge |
| Assembly.GoChecksMergeStatus | golang/main.go:160-178 | Go reports a failing merge as a failure |
| RubyExtractor.LoadConfig | ruby/lib/pdf_extractor/extractor.rb:45-58 | the page entries iff the file is a mapping whose `pages` is an array; each other case has its own error |
| RubyExtractor.IncludeMarkdown | ruby/lib/pdf_extractor/extractor.rb:74-82 | an existing `--markdown` wins; else `appendFirstPage` beside the configuration when it exists; else the argument, existing or not |
| RubyExtractor.CreateTemp | ruby/lib/pdf_extractor/extractor.rb:171-177 | the file is live and on the cleanup list from now on |
| RubyExtractor.MarkdownStep | ruby/lib/pdf_extractor/extractor.rb:84-88 | fails iff the Markdown file is missing or the renderer fails; the PDF is on the cleanup list either way |
| RubyExtractor.ExtractStep | ruby/lib/pdf_extractor/extractor.rb:90-99 | one pdftk command line; succeeds iff pdftk exits with status 0 |
| RubyExtractor.CombineStep | ruby/lib/pdf_extractor/extractor.rb:134-159 | none is an error, one is copied, several are merged and need status 0 and an existing output |
| RubyExtractor.CleanupTemps | ruby/lib/pdf_extractor/extractor.rb:179-186 | the listed files are gone and the list is empty |
| RubyExtractor.Abort | ruby/lib/pdf_extractor/extractor.rb:36-38 | on failure the temporary files are deleted and the error is re-raised |
| RubyExtractor.AfterMarkdown | ruby/lib/pdf_extractor/extractor.rb:29-35 | succeeds iff extraction and combination succeed, saves then, and leaves only the output |
| RubyExtractor.Finish | ruby/lib/pdf_extractor/extractor.rb:31-35 | combines, cleans up and reports |
| RubyExtractor.StagesOutcome | ruby/lib/pdf_extractor/extractor.rb:21-39 | the stages succeed iff the reference `Succeeds` holds, and print "Saved to" exactly then |
| RubyExtractor.StagesCleansUp | ruby/lib/pdf_extractor/extractor.rb:32-37 | every temporary file is gone however the stages end |
| RubyExtractor.ExtractPagesOutcome | ruby/lib/pdf_extractor/extractor.rb:21-39 | success iff pdftk is installed, the configuration is usable and `Succeeds` holds |
| RubyExtractor.ExtractPagesCleansUp | ruby/lib/pdf_extractor/extractor.rb:21-39 | nothing but the output is left behind |
| RubyExtractor.StagesCommand | ruby/lib/pdf_extractor/extractor.rb:92-102 | the joined command line gives pdftk the same argument vector the others build |
| RubyExtractor.NothingSelectedFails | ruby/lib/pdf_extractor/extractor.rb:136-137 | nothing to write is the "No pages to extract" error |
| RubyExtractor.ExtractCheckVacuous | ruby/lib/pdf_extractor/extractor.rb:128-132 | the existence check after extraction cannot fire, because `Tempfile` made the file |
| RubyCli.ResolveRelative | ruby/lib/pdf_extractor/cli.rb:115-125 | nil stays nil; expansion against the project root; the suffix goes on iff the path as written contains "output/" |
| RubyCli.ResolveInput | ruby/lib/pdf_extractor/cli.rb:99-113 | tiered resolution: the result exists iff either candidate does |
| RubyCli.LoadConfigDefaults | ruby/lib/pdf_extractor/cli.rb:82-97 | given options are kept; missing ones are filled from a readable mapping; the Markdown file changes iff the default exists |
| RubyCli.MissingFlags | ruby/lib/pdf_extractor/cli.rb:137-145 | lists a flag iff it is still missing, input before output |
| RubyCli.Run | ruby/lib/pdf_extractor/cli.rb:24-29 | missing arguments iff some flag is still missing after the defaults; otherwise every path is expanded |
| RubyCli.ConfigPathsStayPut | ruby/lib/pdf_extractor/cli.rb:147-156 | configured paths are already absolute, so the extractor's expansion keeps them |
| RubyCli.NothingGiven | ruby/lib/pdf_extractor/cli.rb:137-145 | with nothing given and no usable configuration, both flags are reported |
| RubyCli.SuffixUnderOutput | ruby/lib/pdf_extractor/cli.rb:122 | "output/result.pdf" becomes "result_ruby.pdf" below the project root |
| RubyCli.NoSuffixElsewhere | ruby/lib/pdf_extractor/cli.rb:122 | "result.pdf", outside an output directory, is only expanded against the project root |
| PhpExtractor.ArrayDocument | php/src/PdfExtractor/PdfExtractor.php:115-125 | the keys read from the parsed array: a mapping's own, and none at all for a top-level list |
| PhpExtractor.LoadConfig | php/src/PdfExtractor/PdfExtractor.php:115-123 | usable iff a mapping whose `pages` is absent, null, a list or a mapping (whose values are then the entries), or a top-level list, which selects nothing; a scalar document or a string or scalar `pages` fails with its own error |
| PhpExtractor.ChosenMarkdown | php/src/PdfExtractor/PdfExtractor.php:146-150 | a chosen file always exists; an explicit one is used iff it exists; otherwise `appendFirstPage` beside the configuration |
| PhpExtractor.MarkdownToPdf | php/src/PdfExtractor/PdfExtractor.php:76-90 | the `.html` file is deleted but the `tempnam` stub stays |
| PhpExtractor.MarkdownStep | php/src/PdfExtractor/PdfExtractor.php:150-155 | succeeds iff the renderer wrote its output; as written the stub is not on the cleanup list |
| PhpExtractor.ExtractStep | php/src/PdfExtractor/PdfExtractor.php:158-190 | succeeds iff pdftk wrote the file, whatever its status |
| PhpExtractor.CombineStep | php/src/PdfExtractor/PdfExtractor.php:193-219 | none is an error, one is copied, several are merged with status 0 and an existing output |
| PhpExtractor.Abort | php/src/PdfExtractor/PdfExtractor.php:176-185 | the listed files are deleted, except after a failed copy as written |
| PhpExtractor.ExtractPages | php/src/PdfExtractor/PdfExtractor.php:103-229 | success iff pdftk is installed, the configuration is usable and `Succeeds` holds; the corrected variant leaves only the output |
| PhpExtractor.Stages | php/src/PdfExtractor/PdfExtractor.php:142-228 | success iff the reference `Succeeds` holds, saving then; the corrected variant leaves only the output |
| PhpExtractor.AfterMarkdown | php/src/PdfExtractor/PdfExtractor.php:157-228 | outcome after the Markdown step, and cleanup for the corrected variant |
| PhpExtractor.Finish | php/src/PdfExtractor/PdfExtractor.php:192-228 | combines, cleans up and reports |
| PhpExtractor.ExtractTemps | php/src/PdfExtractor/PdfExtractor.php:160-189 | the extraction adds at most its stub and its PDF to the cleanup list |
| PhpExtractor.AsWrittenLeaksMarkdownStubs | php/src/PdfExtractor/PdfExtractor.php:76-80 | as written both Markdown stubs survive the run |
| PhpExtractor.MarkdownKeepsStubs | php/src/PdfExtractor/PdfExtractor.php:151 | after the Markdown step both stubs are live and not listed for deletion |
| PhpExtractor.AsWrittenLeaksExtractionStub | php/src/PdfExtractor/PdfExtractor.php:160-164 | as written the extraction stub survives; corrected, only the output is left |
| PhpExtractor.CopyFailureLeaks | php/src/PdfExtractor/PdfExtractor.php:213-216 | a failed copy leaves the temporary PDF as written; the corrected variant deletes it |
| PhpExtractor.StatusIgnored | php/src/PdfExtractor/PdfExtractor.php:174 | failure statuses from the renderer and from the extraction do not stop a run |
| PhpExtractor.StagesCommand | php/src/PdfExtractor/PdfExtractor.php:159-167 | the joined command line gives pdftk the common argument vector |
| PhpExtractor.NothingSelectedFails | php/src/PdfExtractor/PdfExtractor.php:217-218 | nothing to write is the "No pages to extract" error |
| InMemory.BelowCount | nodejs/src/pdf-processor.js:35 | only numbers below the page count are kept, and never more than were selected |
| InMemory.BelowCountAppend | nodejs/src/main.js:112 | the filter distributes over concatenation, so order is kept |
| InMemory.BelowCountMembers | nodejs/src/pdf-processor.js:35 | an offset is copied iff it was selected as a number below the count |
| InMemory.BelowCountKeepsAll | node-ts/src/pdf-processor.ts:34 | when every offset is below the count, all are copied, in order |
| InMemory.AddMarkdownPages | nodejs/src/pdf-processor.js:19-32 | a falsy path adds nothing; otherwise the rendered pages are appended, or a warning is printed and nothing is added |
| InMemory.AddSelectedPages | node-ts/src/pdf-processor.ts:33-39 | the existing pages are kept, followed by the kept offsets' pages |
| InMemory.NodeSelection | nodejs/src/main.js:72-88 | fails iff the document is null, the pages value cannot be iterated (a truthy number or boolean, a mapping) or an entry is null; a top level that is not a mapping has no pages |
| InMemory.NodeMarkdown | nodejs/src/main.js:93-96 | the argument, or for null a truthy `appendFirstPage` beside the configuration |
| InMemory.NodeExtract | nodejs/src/main.js:72-121 | fails iff the selection fails or the output is falsy; a configuration failure happens before anything else, while a falsy output fails only at the write, after the Markdown step and its warning; saves once otherwise; makes no pdftk call and leaves only the output |
| InMemory.NodeFalsyOutputStillWarns | nodejs/src/main.js:93-119 | without an output path a missing Markdown file is still warned about before the write fails |
| InMemory.NodeMarkdownOnlyWarns | nodejs/src/main.js:98-109 | a Markdown failure changes the warning and the pages, never the outcome |
| InMemory.NodeDocument | nodejs/src/main.js:93-121 | the document is the Markdown pages and then the selected pages below the count |
| InMemory.PyPick | pdf_extractor/__main__.py:87-89 | fails iff some offset is below minus the count; every kept page is a valid index |
| InMemory.PyPickAgreesWithNode | workout_exporter/__main__.py:74-76 | for non-negative offsets Python copies what Node copies |
| InMemory.PyPageZeroIsLast | pdf_extractor/__main__.py:71-89 | page 0 becomes offset -1: Python copies the last page and Node passes -1 to pdf-lib |
| InMemory.PyRender | pdf_extractor/__main__.py:13-48 | succeeds iff the file exists and the renderer exits with status 0, leaving no file |
| InMemory.PyMarkdown | pdf_extractor/__main__.py:78-79 | the argument, or for none `appendFirstPage` beside the configuration; the exporter never does this |
| InMemory.PyExtract | pdf_extractor/__main__.py:50-94 | a selection error propagates; otherwise success needs the input, a Markdown file that exists and that the renderer turns into a written PDF, in-range offsets and an output; saves once |
| InMemory.PyDocument | pdf_extractor/__main__.py:80-89 | a successful document is the Markdown pages followed by the valid selected pages |
| InMemory.WorkoutIgnoresAppendFirstPage | workout_exporter/__main__.py:50-81 | the exporter succeeds without a Markdown page even when `appendFirstPage` is set |
| Entry.Found | golang/main.go:251-256 | proceeds iff the input exists; otherwise reports it with the language's status |
| Entry.GoCmdPlan | golang/internal/cli/cmd.go:44-85 | aborts iff the configuration fails to load; resolves the input in tiers and the output with the suffix; proceeds only with an existing input |
| Entry.GoMainPlan | golang/main.go:187-257 | as above, except that a command-line input is taken as it is |
| Entry.GoMainOutput | golang/main.go:226-240 | the suffix goes on whatever output is given |
| Entry.GoEntriesAgree | golang/main.go:187-257 | with input and output from the configuration, both Go programs plan the same run |
| Entry.GoInputsAgree | golang/main.go:205-225 | main.go's inline input resolution is the resolver's |
| Entry.GoOutputsAgree | golang/main.go:226-240 | main.go's inline output resolution is the resolver's |
| Entry.GoMarkdownAgrees | golang/main.go:242-249 | main.go's Markdown default is the resolver's |
| Entry.GoEntriesDiffer | golang/internal/cli/cmd.go:56-63 | a relative command-line input found only beside the configuration is used by cmd.go but not found by main.go |
| Entry.NullableConfig | dotnet/Program.cs:58-63 | an empty document is a null configuration; a `workouts` key is an undeclared property and fails; other errors are load errors |
| Entry.DotNetPlan | dotnet/Program.cs:54-132 | aborts with status 1 on load errors and when a null configuration is read; proceeds only with an existing input |
| Entry.JvmWithSuffix | java/src/main/java/com/workoutplan/pdfextractor/PdfExtractor.java:151-159 | defined iff the path has a parent, and then inserts the suffix before the extension |
| Entry.JavaPlan | java/src/main/java/com/workoutplan/pdfextractor/PdfExtractor.java:118-173 | aborts on load errors, on a configuration path without a parent, when a null configuration is read, and when a configured relative path meets a null project root; a run that goes on never used that root |
| Entry.KotlinPlan | kotlin/src/main/kotlin/com/workoutplan/pdfextractor/Main.kt:110-166 | like Java, but an output is always known when it proceeds; an explicit `pages: null` fails the load with status 1, since the `pages` property is non-null |
| Entry.JvmMissingFile | kotlin/src/main/kotlin/com/workoutplan/pdfextractor/Main.kt:119-131 | without `file`, Java aborts while Kotlin proceeds with the empty path, unless `pages` is an explicit null, which Kotlin's load refuses |
| Entry.CommandLinePathsCompared | dotnet/Program.cs:68-90 | given command-line paths, .NET resolves the input in tiers while Java and Kotlin use it as it is; Kotlin's load refuses `pages: null` |
| Entry.ShortConfigPath | java/src/main/java/com/workoutplan/pdfextractor/PdfExtractor.java:125-131 | with a two-segment relative configuration path and every path on the command line, Java proceeds while Kotlin aborts |
| Entry.RustConfig | rust/src/main.rs:168-169 | an empty document or a `pages` value that is not a list fails to deserialize |
| Entry.RustRoot | rust/src/main.rs:171-174 | the project root, or "." for a configuration path that is too short |
| Entry.RustPlan | rust/src/main.rs:165-230 | aborts iff the configuration fails; a configured input is resolved against the root without a fallback; without `--markdown` the Markdown file is used iff `appendFirstPage` resolved by `Path::join` against the configuration directory exists, and it is exactly that path |
| Entry.RustAbsoluteMarkdown | rust/src/main.rs:208-219 | an existing absolute `appendFirstPage` is used as written, since `Path::join` replaces the base |
| Entry.RustNoFallback | rust/src/main.rs:176-184 | an input found only beside the configuration is not found by Rust, and is found by Go |
| Entry.PhpMainPlan | php/src/main.php:13-79 | status 255 exactly for a defaults file that is unparsable, empty or a scalar; a path whose directory does not exist is put under the project root when relative, and such an output gets `_php.pdf` in place of its extension; a path in an existing directory is kept |
| Entry.PhpListDefaults | php/src/main.php:16-26 | a top-level list in the defaults file supplies no defaults, exactly like an absent file, while a scalar aborts with 255 |
| Entry.PhpExistingDirectories | php/src/main.php:34-54 | a path whose directory exists is used as it is |
| Entry.JsValue | nodejs/src/main.js:138-141 | truthy iff the option is given and not empty |
| Entry.NodeMainPlan | nodejs/src/main.js:124-194 | only an empty default configuration aborts; a missing input is status 1 |
| Entry.PyMainPlan | pdf_extractor/__main__.py:97-172 | an unusable default configuration aborts; a missing input prints an error with status 0; the chosen Markdown is the flag, the configuration or the auto-picked file |
| Entry.PyDefaultsReread | pdf_extractor/__main__.py:155-167 | flags equal to the defaults are replaced by the values of the `--yaml` file |
| Entry.WorkoutPlan | workout_exporter/__main__.py:83-104 | never aborts; proceeds iff the input exists, always with a Markdown file and an output |
| Entry.MissingInputStatus | golang/main.go:251-254 | a missing input exits with status 0 in Go, Java, Kotlin and Rust, and with 1 in .NET and Node |

## Left out

- YAML parsing: a loaded configuration is a parameter (missing file, syntax error, empty document, non-mapping, or a mapping of the keys the programs read).
- PDF contents: page counts and the pages of the rendered Markdown are parameters. The page contents that pdftk, pdf-lib and PyPDF2 copy are not modelled.
- The Markdown-to-HTML conversion and the HTML template are not modelled. Only the renderer's temporary files, its exit status and whether it wrote its output are.
- Shell quoting (`shellescape`, `escapeshellarg`) is not modelled. Quoted paths are single arguments; only the unquoted page list is split on white space.
- Logging, debug prints and error message texts are not modelled. Errors are named by kind.
- I/O failures other than those modelled (a failed copy, a missing or unreadable file) are not modelled, nor is `tempnam` returning false.
- Rust's required `name` field and its `u32` page numbers are not modelled. Typed entries carry unbounded integers, and a negative page is passed to pdftk as written.
- Entry.KotlinPlan: an explicit null `file`, `output` or `appendFirstPage` reads like an absent key (the empty string), because the document keeps no difference between the two; Kotlin's non-null `String` properties refuse the null inside `loadAs`, and the run exits with status 1. For Java and .NET the two cases are alike, so nothing is lost there.
- Runs: `extractPages` reads the `--yaml` file again; the model gives it the same loaded configuration, so a file that changes between the two reads is not modelled.
- PHP's treatment of the string "0" as falsy for `appendFirstPage` is not modelled; a given path is never "0".
- Node's undefined input reaching `fs.access` is modelled as "not found"; the printed text "undefined" is not.
- pdf-lib's handling of a negative page index (`InMemory.PyPageZeroIsLast` only states what Node passes) is not modelled.
- Python's `glob("resources/*.md")` is the parameter `autoPick`.
- Command-line parsing itself (cobra, commander, argparse, OptionParser, getopt) is not modelled; the flags are parameters.
- Concurrency and the async scheduling of the Node programs are not modelled; each step runs to completion in order.
- The exit status of an uncaught exception in Node (`main().catch(console.error)`) is not modelled; such runs end in `Err`.
- Assembly.AssembleOutcome: for .NET as written, it assumes the placeholder names lie outside the run directory, as `GetTempFileName` guarantees by living in the system temporary directory.
- Entry.PyMainPlan: the `--yaml` file is re-read through the same `load` parameter, so a file that changes between the two reads is not modelled.
- Entry.PyMainPlan: an explicit `file: null` or `output: null` reads like an absent key, whereas `config.get` returns None for it and the script then raises.
- DynamicSelection.RubyIndex: YAML floats are not modelled (there is no float scalar); Ruby keeps a float and truncates it with `to_i`.
- DynamicSelection.JsIndex: YAML floats are not modelled; Node keeps `pageIndex: 2.5` and passes 1.5 on as a page offset.
- DynamicSelection.PyIndex: YAML floats are not modelled; Python keeps a float, and `idx - 1` then gives a float page offset.
- DynamicSelection.PhpIndex: YAML floats are not modelled; PHP keeps a float and truncates it with `(int)`. PHP's 64-bit integer range and the float precision of a numeric string with an exponent are not modelled either: `(int)` is exact here.
- DynamicSelection.JsMinusOne: JavaScript's hexadecimal, octal and binary literals ("0x10") and its non-ASCII white space are read as NaN; decimal text is exact, without double rounding or overflow to Infinity.
- InMemory.BelowCount: a non-integer offset (a fraction or an infinity) is dropped; what pdf-lib does with `copyPages` of a fractional index is not modelled.
- ConfigDoc.DecodeEntries: a null list element is a decode error; yaml.v3 decodes it to an entry without keys, and the .NET and JVM programs fail only later when they read it.
- Path normalisation is not modelled: `..` and `.` segments are kept as written, whereas Ruby's `File.expand_path`, Node's `path.join` and Go's `filepath.Join` fold them.

## Findings

| source | as written | input that shows it | evidently intended | confidence | as-written member | corrected member |
|---|---|---|---|---|---|---|
| dotnet/Program.cs:157-158 | `GetTempFileName()` creates an empty placeholder file, and `.html`/`.pdf` is appended to its name; the `finally` block deletes only the extended names | any run with a Markdown page | no temporary file outlives the run | high (not executed) | Render.RenderMarkdown with `DotNetRenderer`, Render.DotNetPlaceholdersLeak, Assembly.DotNetRunLeaks | Render.RenderMarkdown with `DotNetRendererFixed`, Render.RenderLeavesNothing, Assembly.AssembleCleansUp |
| php/src/PdfExtractor/PdfExtractor.php:76-80 | `tempnam` creates a file, and `.html`/`.pdf` is appended; only the extended names are deleted | any run with a Markdown page | no temporary file outlives the run | high (not executed) | PhpExtractor.AsWrittenLeaksMarkdownStubs | PhpExtractor.Stages |
| php/src/PdfExtractor/PdfExtractor.php:160-164 | the extraction's `tempnam` stub is never deleted | any run with at least one selected page | no temporary file outlives the run | high (not executed) | PhpExtractor.AsWrittenLeaksExtractionStub | PhpExtractor.ExtractPages |
| php/src/PdfExtractor/PdfExtractor.php:213-216 | a failed copy throws without deleting the temporary files | one file to write and a copy that fails | temporary files are deleted on every path out, as after a failed merge | medium (not executed) | PhpExtractor.CopyFailureLeaks | PhpExtractor.Stages |
