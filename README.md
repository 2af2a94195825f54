# PDF text extractor: command line and extraction core in Dafny

This project models the two core classes of a small Java tool. The tool extracts the text of PDF files into `.txt` files next to them.

- **`CommandLineArguments`** reads the command-line tokens one by one into an option map.
  - Each option has a handler that checks the token's value and what was already parsed.
  - A second occurrence of an option is an error, and so is a token that names no option.
  - After the loop, `applyDefaultValues` checks the mode against the path or pattern given. It then fills in the defaults and checks that the path and folder are absolute exactly when `-pathType=absolute`.
- **`TextExtractor`** handles one PDF, in this order:
  - derives the output path;
  - skips encrypted documents;
  - applies the overwrite policy, asking the user under `select`;
  - joins the page texts with the line separator;
  - adds the number of whitespace-separated tokens to a counter shared by all extractors;
  - deletes, creates and writes the output file.

## Module layout

- `wrappers.dfy` (`Wrappers`): `Option`, `Result`, and `Outcome`, which is a pass or an error.
- `strings.dfy` (`Strings`): the Java and commons-io string operations the core relies on:
  - `startsWith` and `endsWith`;
  - `split("=")`, including Java's removal of trailing empty fields, and the `[1]` index that fails when there is no value;
  - `FilenameUtils.removeExtension` and `getExtension`;
  - `Paths.get(..).getFileName()`.
- `config.dfy` (`Config`): the parser and resolver as pure functions.
  - `Dispatch` is the branch `parseArgument` takes for a token.
  - There is one step function per handler, each with the handler's own order of checks. Where a handler reads `split[1]` determines which error a token without a value gets: `MissingValue` for the index exception, or the regex error in `-regex`, where the read sits inside the block that catches it.
  - `Step` parses one token, `ParseTokens` the token loop, `ApplyDefaults` the final pass, and `Resolve` the whole constructor.
  - The filesystem, the regex compiler and the platform constants are an `Env` value. `Env` holds `exists`, `isDirectory`, `isAbsolute`, "the pattern compiles", `File.separatorChar`, `File.pathSeparatorChar` and the absolute working directory.
- `config_props.dfy` (`ConfigProperties`): lemmas about `Resolve` and `ParseTokens`:
  - ordering and mode dependencies;
  - at most one occurrence per option;
  - the unknown-token error;
  - the defaults;
  - the final invariant;
  - the logging flags.
- `command_line.dfy` (`CommandLine`): the class `CommandLineArguments`.
  - The `arguments` map is a field, and every `parseX` method and `ApplyDefaultValues` updates it in place.
  - The Java constructor throws, so it becomes the static method `FromArgs`, which returns the object or the error.
  - Each method is proved against its step function.
  - The getters state their results in terms of the command-line tokens.
- `tokenizer.dfy` (`Tokenizer`): `StringTokenizer.countTokens` with the default delimiters (space, tab, line feed, carriage return, form feed). It is a loop proved equal to a count of token starts.
- `extraction.dfy` (`TextExtraction`):
  - `GenerateTextPath`;
  - the case-insensitive answer test;
  - the pure decision function `Expected`;
  - the classes `WordCounter` (the static `wordCount`), `TextFile` (the output file) and `TextExtractor`, whose `ExtractText` method runs the page loop, counts the words and writes the file.

## Where the model follows the code

- `-mode` is the only option matched together with its `=`. The other options are matched by prefix, in the order of the if-chain. `-recursive` and `-mute` must match exactly.
  - `-path…` is taken as a path unless it starts with `-pathType`.
  - A bare `-mode` is therefore an unknown argument (`ConfigProperties.BareModeIsUnknown`).
- A value is field 1 of `split("=")`.
  - A token with no value fails with `MissingValue`, the index exception. The exception is `-regex`: its handler reads the value inside the `try` that compiles the pattern, so the index exception is caught and rethrown as the regex error `InvalidRegex(None)` (`ConfigProperties.ValuelessRegexIsRegexError`).
  - A value containing `=` is cut at that `=` (`Strings.ValueCutAtEquals`).
- `parseFolder` appends `File.separator` unless the value already ends with `File.pathSeparator`. So on a system where the two differ, a folder given with a trailing separator gets a second one (`ConfigProperties.FolderSeparatorDoubled`). The model keeps this behaviour.
- The comment on `getPathType` says it returns null when there is no path. The code always gives the path type a default (`relative`). The model follows the code: `GetPathType` always returns one of the two values.
- `parsePathType` builds the split array first, but reads `split[1]` only after its duplicate and path/folder checks. So a valueless `-pathType` fails with `Duplicate` when it is a second one, and with `PathTypeWithoutPath` when no `-path` or `-folder` came before it (`ConfigProperties.PathTypeChecksBeforeValue`, `ConfigProperties.LonePathTypeFails`). It fails with `MissingValue` only when both checks pass.
- `parsePath` calls `getFileName().toString()`, which throws a NullPointerException for a root path such as `/`. The model reports this as `NoFileName`, before the extension test (`ConfigProperties.RootPathHasNoFileName`).
- A duplicated `-path` or `-regex` is checked after the value. So a second `-path` whose value is not a PDF fails with `NotAPdf`, not `Duplicate`. `ConfigProperties.SecondOccurrenceFails` proves that any second occurrence fails, and that it fails with exactly `Duplicate` for the options that check for duplicates first.
- `equalsIgnoreCase("I")` also accepts U+0130 and U+0131, because Java's case mapping sends them to `i`/`I` (`TextExtraction.YesAnswers`).

## Model

| member | source | states |
|---|---|---|
| Config.DispatchByKey | src/main/java/com/gaspar/pdfextractor/CommandLineArguments.java:86-115 | each branch of the dispatch chain is taken exactly when its prefix test holds: `-mode=` with its `=`, `-path` but not `-pathType`, exact `-recursive`/`-mute`, prefix for the rest |
| Config.Dispatch | src/main/java/com/gaspar/pdfextractor/CommandLineArguments.java:86-115 | the option a token names, by the if-chain of parseArgument in its order; what each branch means is stated by Config.DispatchByKey |
| Config.HasPdfExtension | src/main/java/com/gaspar/pdfextractor/CommandLineArguments.java:248-249 | the file name of the path has the extension exactly `pdf`; Strings.ExtensionOf and Strings.FileNameOfPlain state the two helpers it combines |
| Config.NormalizeFolder | src/main/java/com/gaspar/pdfextractor/CommandLineArguments.java:230-232 | the folder with `File.separator` appended unless it ends with `File.pathSeparator`; ConfigProperties.FolderSeparatorDoubled shows the consequence |
| Config.ModeStep | src/main/java/com/gaspar/pdfextractor/CommandLineArguments.java:175-205 | accepted iff the value is one of all/single/regex and no mode was given; then exactly the mode is added |
| Config.FolderStep | src/main/java/com/gaspar/pdfextractor/CommandLineArguments.java:212-233 | accepted iff it is the first folder, the mode is all or regex, and the value is an existing directory; then the normalised folder is added |
| Config.PathStep | src/main/java/com/gaspar/pdfextractor/CommandLineArguments.java:240-258 | accepted iff mode single is set, the file name's extension is exactly `pdf` and no path was given; then the path is added. A root path, which has no file name, fails with NoFileName before the extension test |
| Config.RegexStep | src/main/java/com/gaspar/pdfextractor/CommandLineArguments.java:265-284 | accepted iff mode regex is set, the token has a value, the pattern compiles and no pattern was given; then the pattern is added |
| Config.OverwriteStep | src/main/java/com/gaspar/pdfextractor/CommandLineArguments.java:291-310 | accepted iff it is the first overwrite and the value is all/none/select; then it is added |
| Config.PathTypeStep | src/main/java/com/gaspar/pdfextractor/CommandLineArguments.java:317-334 | accepted iff it is the first path type, a path or folder is present and the value is relative/absolute; then it is added |
| Config.LogfileStep | src/main/java/com/gaspar/pdfextractor/CommandLineArguments.java:341-354 | accepted iff it is the first logfile and has a value; the value (`auto` or a path) is stored as given |
| Config.FlagStep | src/main/java/com/gaspar/pdfextractor/CommandLineArguments.java:97-108 | `-recursive`/`-mute` are accepted iff not yet present, and store an empty value |
| Config.Step | src/main/java/com/gaspar/pdfextractor/CommandLineArguments.java:86-116 | a token naming no option fails with UnknownArgument of that token; otherwise the step succeeds iff the named option's rules hold, and then adds that one option and changes nothing else |
| Config.Handler | src/main/java/com/gaspar/pdfextractor/CommandLineArguments.java:87-112 | the handler for an option accepts the token iff that option's rules hold, and then adds just that option's stored value |
| Config.ParseTokens | src/main/java/com/gaspar/pdfextractor/CommandLineArguments.java:74-77 | the token loop, ending at the first failing token; its properties are ConfigProperties.FailurePersists, PrefixSucceeds, LastStep, ParsedKey and ParsedOnce |
| Config.ModeCheck | src/main/java/com/gaspar/pdfextractor/CommandLineArguments.java:124-134 | the first block of applyDefaultValues; ConfigProperties.ModeCheckIff states when it passes |
| Config.FolderFormCheck | src/main/java/com/gaspar/pdfextractor/CommandLineArguments.java:146-152 | the folder check of applyDefaultValues; ConfigProperties.FolderFormCheckIff states when it passes |
| Config.PathCheck | src/main/java/com/gaspar/pdfextractor/CommandLineArguments.java:154-165 | the path check of applyDefaultValues; ConfigProperties.PathCheckIff states when it passes |
| Config.ApplyDefaults | src/main/java/com/gaspar/pdfextractor/CommandLineArguments.java:123-168 | applyDefaultValues in its order: mode check, defaults, folder check, path check; ConfigProperties.DefaultsResolve states when it succeeds and what it yields |
| Config.Resolve | src/main/java/com/gaspar/pdfextractor/CommandLineArguments.java:73-79 | the whole constructor: the token loop, then applyDefaultValues; ConfigProperties.ResolveSound and ResolvedValues state what a success holds |
| Config.Defaulted | src/main/java/com/gaspar/pdfextractor/CommandLineArguments.java:124-145 | the given options are kept; mode, overwrite, path type and folder are always present, defaulting to all, none, relative, and `.` or the working directory by path type |
| ConfigProperties.FailurePersists | src/main/java/com/gaspar/pdfextractor/CommandLineArguments.java:73-79 | once a token fails, the whole parse fails with that error |
| ConfigProperties.PrefixSucceeds | src/main/java/com/gaspar/pdfextractor/CommandLineArguments.java:73-79 | a successful parse succeeds on every prefix of the tokens |
| ConfigProperties.LastStep | src/main/java/com/gaspar/pdfextractor/CommandLineArguments.java:75-77 | the parse of a token list is the step of its last token on the parse of the rest |
| ConfigProperties.StepAt | src/main/java/com/gaspar/pdfextractor/CommandLineArguments.java:75-77 | parsing one more token is one step on the map parsed so far |
| ConfigProperties.GivenValueNone | src/main/java/com/gaspar/pdfextractor/CommandLineArguments.java:86-116 | an option has no given value iff no token dispatches to it |
| ConfigProperties.GivenValueFrom | src/main/java/com/gaspar/pdfextractor/CommandLineArguments.java:86-116 | a given value is the stored value of some token that names the option |
| ConfigProperties.ParsedKey | src/main/java/com/gaspar/pdfextractor/CommandLineArguments.java:73-79 | after the token loop, an option is in the map iff a token gave it, with that token's value |
| ConfigProperties.ParsedMap | src/main/java/com/gaspar/pdfextractor/CommandLineArguments.java:73-79 | the same for all options at once |
| ConfigProperties.NotNamed | src/main/java/com/gaspar/pdfextractor/CommandLineArguments.java:73-79 | an option missing from the parsed map was named by no token |
| ConfigProperties.ParsedOnce | src/main/java/com/gaspar/pdfextractor/CommandLineArguments.java:98-108 | in a successful parse every token names an option and no two tokens name the same one |
| ConfigProperties.LastIsNew | src/main/java/com/gaspar/pdfextractor/CommandLineArguments.java:98-108 | the last token of a successful parse names an option that no earlier token named |
| ConfigProperties.StepPreservesInvariant | src/main/java/com/gaspar/pdfextractor/CommandLineArguments.java:175-354 | every accepted token keeps the partial invariant: values in their sets, path only under mode single, pattern only under mode regex, folder only under all/regex, path type only after a path or folder |
| ConfigProperties.ParsedInvariant | src/main/java/com/gaspar/pdfextractor/CommandLineArguments.java:73-79 | the partial invariant holds after the token loop |
| ConfigProperties.ModeCheckIff | src/main/java/com/gaspar/pdfextractor/CommandLineArguments.java:124-134 | the mode check passes iff, after defaulting, mode single goes with a path and mode regex with a pattern, in both directions |
| ConfigProperties.DefaultedValues | src/main/java/com/gaspar/pdfextractor/CommandLineArguments.java:135-145 | after defaulting, mode, overwrite and path type hold allowed values and a path or pattern keeps its checks |
| ConfigProperties.DefaultedWithMode | src/main/java/com/gaspar/pdfextractor/CommandLineArguments.java:124-125 | putting the default mode in first leaves the defaults unchanged |
| ConfigProperties.FolderFormCheckIff | src/main/java/com/gaspar/pdfextractor/CommandLineArguments.java:146-152 | the folder check passes iff the folder is absolute exactly when the path type is absolute |
| ConfigProperties.PathCheckIff | src/main/java/com/gaspar/pdfextractor/CommandLineArguments.java:154-165 | the path check passes iff any path is absolute exactly when the path type is absolute, and exists |
| ConfigProperties.DefaultsResolve | src/main/java/com/gaspar/pdfextractor/CommandLineArguments.java:123-168 | applyDefaultValues succeeds iff the defaulted map satisfies the final invariant, and then yields exactly that map |
| ConfigProperties.ResolveSound | src/main/java/com/gaspar/pdfextractor/CommandLineArguments.java:73-79 | after successful construction: mode, overwrite, path type and folder are present with allowed values; mode single iff a path, mode regex iff a pattern; folder and path absolute iff the path type is absolute; the path exists and is a PDF; the pattern compiles |
| ConfigProperties.ResolvedValues | src/main/java/com/gaspar/pdfextractor/CommandLineArguments.java:124-145 | after successful construction each defaulted option holds its given value or its default, and every other option is present iff given, with that value |
| ConfigProperties.ResolvedPath | src/main/java/com/gaspar/pdfextractor/CommandLineArguments.java:128-130 | after construction the path is the given one, present iff the mode is single, and an existing PDF |
| ConfigProperties.ResolvedPattern | src/main/java/com/gaspar/pdfextractor/CommandLineArguments.java:131-133 | after construction the pattern is the given one, present iff the mode is regex, and it compiles |
| ConfigProperties.AdmittedAt | src/main/java/com/gaspar/pdfextractor/CommandLineArguments.java:75-77 | in a successful parse each token names an option whose rules held on the map before it |
| ConfigProperties.StoredBefore | src/main/java/com/gaspar/pdfextractor/CommandLineArguments.java:75-77 | every entry of a parsed map was stored by an earlier token naming it |
| ConfigProperties.PathAfterSingleMode | src/main/java/com/gaspar/pdfextractor/CommandLineArguments.java:241-245 | an accepted `-path` is preceded by a `-mode=single` token |
| ConfigProperties.RegexAfterRegexMode | src/main/java/com/gaspar/pdfextractor/CommandLineArguments.java:266-270 | an accepted `-regex` is preceded by a `-mode=regex` token |
| ConfigProperties.FolderAfterSearchMode | src/main/java/com/gaspar/pdfextractor/CommandLineArguments.java:216-220 | an accepted `-folder` is preceded by a `-mode=all` or `-mode=regex` token |
| ConfigProperties.PathTypeAfterPathOrFolder | src/main/java/com/gaspar/pdfextractor/CommandLineArguments.java:322-324 | an accepted `-pathType` is preceded by a `-path` or `-folder` token |
| ConfigProperties.UnknownTokenFails | src/main/java/com/gaspar/pdfextractor/CommandLineArguments.java:113-115 | the first token that names no option makes construction fail with UnknownArgument naming that token |
| ConfigProperties.AbsentWhenUnnamed | src/main/java/com/gaspar/pdfextractor/CommandLineArguments.java:75-77 | an option no earlier token named is absent from the map |
| ConfigProperties.ModeMustComeFirst | src/main/java/com/gaspar/pdfextractor/CommandLineArguments.java:212-270 | a `-path`, `-regex` or `-folder` before any `-mode` makes construction fail with ModeRequired for that option |
| ConfigProperties.StepWithoutMode | src/main/java/com/gaspar/pdfextractor/CommandLineArguments.java:241-242 | with no mode parsed, a path, pattern or folder token fails with ModeRequired |
| ConfigProperties.SecondOccurrenceFails | src/main/java/com/gaspar/pdfextractor/CommandLineArguments.java:98-108 | a second token naming an already given option makes construction fail, with Duplicate for folder, overwrite, path type, logfile, recursive and mute, which test for a duplicate before anything else |
| ConfigProperties.StepOnDuplicate | src/main/java/com/gaspar/pdfextractor/CommandLineArguments.java:179-199 | a token naming an option already in the map fails, with Duplicate for folder, overwrite, path type, logfile, recursive and mute, which test for a duplicate first |
| ConfigProperties.PathTypeChecksBeforeValue | src/main/java/com/gaspar/pdfextractor/CommandLineArguments.java:317-333 | a `-pathType` token fails with Duplicate when a path type is present and with PathTypeWithoutPath when no path or folder is, whatever its value; with MissingValue only when both checks pass |
| ConfigProperties.LonePathTypeFails | src/main/java/com/gaspar/pdfextractor/CommandLineArguments.java:322-324 | the command line `-pathType` alone fails with PathTypeWithoutPath |
| ConfigProperties.ValuelessRegexIsRegexError | src/main/java/com/gaspar/pdfextractor/CommandLineArguments.java:272-277 | under mode regex, a `-regex` token without a value fails with the regex error, not the index exception |
| ConfigProperties.RootPathHasNoFileName | src/main/java/com/gaspar/pdfextractor/CommandLineArguments.java:248 | with `/` as separator, `-path=/` under mode single fails with NoFileName, the NullPointerException of `getFileName().toString()` |
| ConfigProperties.SingleModeNeedsPath | src/main/java/com/gaspar/pdfextractor/CommandLineArguments.java:128-130 | mode single without a path fails with SingleModeWithoutPath |
| ConfigProperties.RegexModeNeedsPattern | src/main/java/com/gaspar/pdfextractor/CommandLineArguments.java:131-133 | mode regex without a pattern fails with RegexModeWithoutPattern |
| ConfigProperties.ResolvedKey | src/main/java/com/gaspar/pdfextractor/CommandLineArguments.java:123-145 | after construction an option is present iff it has a default or some token named it |
| ConfigProperties.FlagIffToken | src/main/java/com/gaspar/pdfextractor/CommandLineArguments.java:374-380 | recursive and mute are set iff the exact token appears |
| ConfigProperties.LoggingIffToken | src/main/java/com/gaspar/pdfextractor/CommandLineArguments.java:382-384 | logging is on iff some token starts with `-logfile` |
| ConfigProperties.AutoLoggingIffToken | src/main/java/com/gaspar/pdfextractor/CommandLineArguments.java:386-388 | auto logging is on iff some `-logfile` token has the value `auto` |
| ConfigProperties.AutoLoggingGiven | src/main/java/com/gaspar/pdfextractor/CommandLineArguments.java:386-388 | auto logging comes from a `-logfile` token whose value is `auto` |
| ConfigProperties.AutoLoggingFromToken | src/main/java/com/gaspar/pdfextractor/CommandLineArguments.java:346-349 | a `-logfile=auto` token on a successful command line turns auto logging on |
| ConfigProperties.BareModeIsUnknown | src/main/java/com/gaspar/pdfextractor/CommandLineArguments.java:87 | `-mode` without `=` is an unknown argument, since only `-mode` is matched with its `=` |
| ConfigProperties.PrefixMatchesOption | src/main/java/com/gaspar/pdfextractor/CommandLineArguments.java:91-111 | any text after `-folder`, `-regex`, `-overwrite`, `-logfile` or `-pathType` still dispatches to that option |
| ConfigProperties.KeyedToken | src/main/java/com/gaspar/pdfextractor/CommandLineArguments.java:91-111 | `key=value` for a prefix-matched option names that option and carries the value |
| ConfigProperties.FolderSeparatorDoubled | src/main/java/com/gaspar/pdfextractor/CommandLineArguments.java:230-232 | when the two separators differ, a folder that ends with `File.separator` gets another one |
| ConfigProperties.RelativePathUnderAbsoluteType | src/main/java/com/gaspar/pdfextractor/CommandLineArguments.java:159-161 | mode single, a relative PDF path and `-pathType=absolute` fail with PathIsRelative |
| ConfigProperties.RelativePathDefaults | src/main/java/com/gaspar/pdfextractor/CommandLineArguments.java:146-161 | the defaults pass for the absolute working directory and then reject the relative path |
| ConfigProperties.ReportPdfUnderAbsoluteType | src/main/java/com/gaspar/pdfextractor/CommandLineArguments.java:159-161 | the command line `-mode=single -path=report.pdf -pathType=absolute` fails with PathIsRelative |
| CommandLine.CommandLineArguments.FromArgs | src/main/java/com/gaspar/pdfextractor/CommandLineArguments.java:73-79 | the loop over the tokens and the final pass succeed iff Resolve does, with the same error or the resolved map, and the object keeps its invariant |
| CommandLine.CommandLineArguments.Empty | src/main/java/com/gaspar/pdfextractor/CommandLineArguments.java:74 | the object starts with an empty option map and no tokens |
| CommandLine.CommandLineArguments.ParseAll | src/main/java/com/gaspar/pdfextractor/CommandLineArguments.java:74-77 | the loop over the tokens from an empty map ends with the map ParseTokens yields, or with the error of the first token that fails |
| CommandLine.CommandLineArguments.ParseArgument | src/main/java/com/gaspar/pdfextractor/CommandLineArguments.java:86-116 | the map becomes the result of Step on the old map, or is left unchanged with Step's error |
| CommandLine.CommandLineArguments.ParseMode | src/main/java/com/gaspar/pdfextractor/CommandLineArguments.java:175-205 | the map update or error of ModeStep |
| CommandLine.CommandLineArguments.ParseFolder | src/main/java/com/gaspar/pdfextractor/CommandLineArguments.java:212-233 | the map update or error of FolderStep |
| CommandLine.CommandLineArguments.ParsePath | src/main/java/com/gaspar/pdfextractor/CommandLineArguments.java:240-258 | the map update or error of PathStep |
| CommandLine.CommandLineArguments.ParseRegex | src/main/java/com/gaspar/pdfextractor/CommandLineArguments.java:265-284 | the map update or error of RegexStep |
| CommandLine.CommandLineArguments.ParseOverwrite | src/main/java/com/gaspar/pdfextractor/CommandLineArguments.java:291-310 | the map update or error of OverwriteStep |
| CommandLine.CommandLineArguments.ParsePathType | src/main/java/com/gaspar/pdfextractor/CommandLineArguments.java:317-334 | the map update or error of PathTypeStep |
| CommandLine.CommandLineArguments.ParseLogfile | src/main/java/com/gaspar/pdfextractor/CommandLineArguments.java:341-354 | the map update or error of LogfileStep |
| CommandLine.CommandLineArguments.ApplyDefaultValues | src/main/java/com/gaspar/pdfextractor/CommandLineArguments.java:123-168 | the result of ApplyDefaults; the map is untouched when the mode check fails and defaulted before the later checks otherwise |
| CommandLine.CommandLineArguments.FillDefaults | src/main/java/com/gaspar/pdfextractor/CommandLineArguments.java:135-145 | with a mode present, overwrite, path type and folder are filled in exactly as Defaulted says |
| CommandLine.CommandLineArguments.CheckPaths | src/main/java/com/gaspar/pdfextractor/CommandLineArguments.java:146-165 | changes nothing and returns the folder check's error, or else the path check's outcome |
| CommandLine.CommandLineArguments.GetMode | src/main/java/com/gaspar/pdfextractor/CommandLineArguments.java:356-358 | one of all/single/regex: the given mode, or all |
| CommandLine.CommandLineArguments.GetPath | src/main/java/com/gaspar/pdfextractor/CommandLineArguments.java:360-363 | the given path; present iff the mode is single; then it is an existing PDF |
| CommandLine.CommandLineArguments.GetRegex | src/main/java/com/gaspar/pdfextractor/CommandLineArguments.java:365-368 | the given pattern; present iff the mode is regex; then it compiles |
| CommandLine.CommandLineArguments.GetOverwrite | src/main/java/com/gaspar/pdfextractor/CommandLineArguments.java:370-372 | one of all/none/select: the given policy, or none |
| CommandLine.CommandLineArguments.GetPathType | src/main/java/com/gaspar/pdfextractor/CommandLineArguments.java:395-398 | one of relative/absolute: the given path type, or relative |
| CommandLine.CommandLineArguments.GetFolder | src/main/java/com/gaspar/pdfextractor/CommandLineArguments.java:400-402 | the given folder, or `.`/the working directory by path type; absolute iff the path type is absolute |
| CommandLine.CommandLineArguments.GetLogPath | src/main/java/com/gaspar/pdfextractor/CommandLineArguments.java:390-393 | the given logfile value, absent when no `-logfile` was given |
| CommandLine.CommandLineArguments.IsRecursive | src/main/java/com/gaspar/pdfextractor/CommandLineArguments.java:374-376 | true iff the token `-recursive` was given |
| CommandLine.CommandLineArguments.IsMuted | src/main/java/com/gaspar/pdfextractor/CommandLineArguments.java:378-380 | true iff the token `-mute` was given |
| CommandLine.CommandLineArguments.IsLogging | src/main/java/com/gaspar/pdfextractor/CommandLineArguments.java:382-384 | true iff some token starts with `-logfile` |
| CommandLine.CommandLineArguments.IsAutoLogging | src/main/java/com/gaspar/pdfextractor/CommandLineArguments.java:386-388 | true iff some `-logfile` token has the value `auto` |
| Strings.IndexOf | src/main/java/com/gaspar/pdfextractor/CommandLineArguments.java:176 | the first position of the character, or -1 exactly when it is absent |
| Strings.LastIndexOf | src/main/java/com/gaspar/pdfextractor/TextExtractor.java:68 | the last position of the character, or -1 exactly when it is absent |
| Strings.Split | src/main/java/com/gaspar/pdfextractor/CommandLineArguments.java:176 | at least one field, no field contains the delimiter, and a text without the delimiter is its one field |
| Strings.SplitJoin | src/main/java/com/gaspar/pdfextractor/CommandLineArguments.java:176 | the fields joined with the delimiter give back the text, so the split loses and adds nothing |
| Strings.DropTrailingEmpty | src/main/java/com/gaspar/pdfextractor/CommandLineArguments.java:176 | a prefix of the fields that ends in a non-empty field, with only empty fields removed |
| Strings.SplitAtFirst | src/main/java/com/gaspar/pdfextractor/CommandLineArguments.java:176 | splitting at a delimiter yields the text before it followed by the split of the rest |
| Strings.ValueAfterEquals | src/main/java/com/gaspar/pdfextractor/CommandLineArguments.java:176-177 | `key=value` yields value as field 1 |
| Strings.ValueCutAtEquals | src/main/java/com/gaspar/pdfextractor/CommandLineArguments.java:246 | a value containing `=` is cut at that `=` |
| Strings.NoValue | src/main/java/com/gaspar/pdfextractor/CommandLineArguments.java:296-297 | `key` and `key=` have no field 1 |
| Strings.SplitValue | src/main/java/com/gaspar/pdfextractor/CommandLineArguments.java:176-177 | field 1 of `split("=")`, or None for the index exception; Strings.ValueAfterEquals, ValueCutAtEquals and NoValue state its value |
| Strings.IndexOfLastSeparator | src/main/java/com/gaspar/pdfextractor/TextExtractor.java:68 | the position holds `/` or `\`, no separator comes after it, and it is -1 exactly when the text has no separator |
| Strings.IndexOfExtension | src/main/java/com/gaspar/pdfextractor/TextExtractor.java:68 | the last dot after the last separator, or -1 iff there is none |
| Strings.RemoveExtension | src/main/java/com/gaspar/pdfextractor/TextExtractor.java:68 | the text before the extension dot, or all of it; Strings.ExtensionOf states it for `base.ext` |
| Strings.GetExtension | src/main/java/com/gaspar/pdfextractor/CommandLineArguments.java:249 | the text after the extension dot, or empty; Strings.ExtensionOf states it for `base.ext` |
| Strings.StripTrailing | src/main/java/com/gaspar/pdfextractor/CommandLineArguments.java:248 | a prefix not ending in the character, with only that character removed |
| Strings.StartsWith | src/main/java/com/gaspar/pdfextractor/CommandLineArguments.java:87-111 | `String.startsWith`; Config.DispatchByKey states the tests of parseArgument built from it |
| Strings.EndsWith | src/main/java/com/gaspar/pdfextractor/CommandLineArguments.java:231 | `String.endsWith`; ConfigProperties.FolderSeparatorDoubled and TextExtraction.JoinLastPage use it |
| Strings.FileName | src/main/java/com/gaspar/pdfextractor/CommandLineArguments.java:248 | for a path with a name element (Strings.HasNoFileName is false), the whole last name element: a suffix of the path without trailing separators that holds no separator and is preceded by a separator unless it is the whole of it |
| Strings.RootIsNoPdf | src/main/java/com/gaspar/pdfextractor/CommandLineArguments.java:248 | a path with no name element gives no file name and no extension |
| Strings.HasNoFileName | src/main/java/com/gaspar/pdfextractor/CommandLineArguments.java:248 | a non-empty path made only of separators, for which `getFileName()` is null |
| Strings.ExtensionOf | src/main/java/com/gaspar/pdfextractor/CommandLineArguments.java:249 | for `base.ext` with a plain extension, the extension is ext and removing it leaves base |
| Strings.FileNameOfPlain | src/main/java/com/gaspar/pdfextractor/CommandLineArguments.java:248 | a name without separators is its own file name |
| Tokenizer.CountTokens | src/main/java/com/gaspar/pdfextractor/TextExtractor.java:133-134 | the skip-delimiters/scan-token loop returns exactly the number of token starts |
| Tokenizer.Tokens | src/main/java/com/gaspar/pdfextractor/TextExtractor.java:133-134 | the number of token starts, the reference count that CountTokens is proved equal to; Tokenizer.NoTokens, TokensAppend and OneWord state its properties |
| Tokenizer.NoTokens | src/main/java/com/gaspar/pdfextractor/TextExtractor.java:133-134 | a text has no tokens iff every character is a delimiter |
| Tokenizer.TokensAppend | src/main/java/com/gaspar/pdfextractor/TextExtractor.java:133-134 | texts that meet at a delimiter have exactly the tokens of both |
| Tokenizer.OneWord | src/main/java/com/gaspar/pdfextractor/TextExtractor.java:133-134 | a non-empty text without delimiters is one token |
| Tokenizer.ThreeWords | src/main/java/com/gaspar/pdfextractor/TextExtractor.java:133-134 | `hello world\nfoo` has three tokens |
| TextExtraction.TextPathExtension | src/main/java/com/gaspar/pdfextractor/TextExtractor.java:67-70 | the output path has extension `txt` and the same base as the input |
| TextExtraction.TextPathKeepsDirectory | src/main/java/com/gaspar/pdfextractor/TextExtractor.java:67-70 | the directory part of the path is unchanged |
| TextExtraction.TextPathReplacesExtension | src/main/java/com/gaspar/pdfextractor/TextExtractor.java:67-70 | `base.pdf` becomes `base.txt` |
| TextExtraction.TextPathWithoutExtension | src/main/java/com/gaspar/pdfextractor/TextExtractor.java:67-70 | a path without extension just gets `.txt` |
| TextExtraction.GenerateTextPath | src/main/java/com/gaspar/pdfextractor/TextExtractor.java:67-70 | removeExtension then `.txt`; TextExtraction.TextPathExtension, TextPathKeepsDirectory, TextPathReplacesExtension and TextPathWithoutExtension state its properties |
| TextExtraction.IsYes | src/main/java/com/gaspar/pdfextractor/TextExtractor.java:100 | the answer equals `I` ignoring case; TextExtraction.YesAnswers lists those answers |
| TextExtraction.IsNo | src/main/java/com/gaspar/pdfextractor/TextExtractor.java:102 | the answer equals `N` ignoring case; TextExtraction.NoAnswers lists those answers |
| TextExtraction.UpperCase | src/main/java/com/gaspar/pdfextractor/TextExtractor.java:100-102 | `Character.toUpperCase` on ASCII letters and U+0131; TextExtraction.YesAnswers and NoAnswers state what it accepts |
| TextExtraction.LowerCase | src/main/java/com/gaspar/pdfextractor/TextExtractor.java:100-102 | `Character.toLowerCase` on ASCII letters and U+0130; TextExtraction.YesAnswers and NoAnswers state what it accepts |
| TextExtraction.EqualsIgnoreCase | src/main/java/com/gaspar/pdfextractor/TextExtractor.java:100-102 | `String.equalsIgnoreCase`: same length, each pair equal, equal after upper-casing, or equal after upper- then lower-casing; TextExtraction.YesAnswers and NoAnswers state it against `I` and `N` |
| TextExtraction.Prompts | src/main/java/com/gaspar/pdfextractor/TextExtractor.java:88-98 | the prompt is shown exactly for a readable, unencrypted PDF whose output exists under a policy other than all and none |
| TextExtraction.Expected | src/main/java/com/gaspar/pdfextractor/TextExtractor.java:75-110 | how a run ends, in the method's order of checks; TextExtraction.EncryptedIsSkipped, MissingOutputIsExtracted and ExistingOutputPolicy state its cases, and ExtractText is proved against it |
| TextExtraction.YesAnswers | src/main/java/com/gaspar/pdfextractor/TextExtractor.java:100 | the answers equal to `I` ignoring case are exactly `I`, `i`, U+0130 and U+0131 |
| TextExtraction.NoAnswers | src/main/java/com/gaspar/pdfextractor/TextExtractor.java:102 | the answers equal to `N` ignoring case are exactly `N` and `n` |
| TextExtraction.EncryptedIsSkipped | src/main/java/com/gaspar/pdfextractor/TextExtractor.java:82-85 | an encrypted document is skipped before any prompt, whatever the policy and file |
| TextExtraction.MissingOutputIsExtracted | src/main/java/com/gaspar/pdfextractor/TextExtractor.java:88 | with no output file, every policy extracts and nothing is asked |
| TextExtraction.ExistingOutputPolicy | src/main/java/com/gaspar/pdfextractor/TextExtractor.java:88-110 | with an existing output: all extracts, none skips, select extracts iff the answer is I/i (or its Turkish forms) and is declined iff N/n |
| TextExtraction.JoinLastPage | src/main/java/com/gaspar/pdfextractor/TextExtractor.java:118-123 | the joined text ends with the last page, and a separator comes only between pages |
| TextExtraction.JoinEmpty | src/main/java/com/gaspar/pdfextractor/TextExtractor.java:116-128 | the text is empty iff every page is empty and no separator was placed |
| TextExtraction.JoinTokens | src/main/java/com/gaspar/pdfextractor/TextExtractor.java:118-134 | with a line separator made of delimiters, the word count of the joined text is the sum over the pages |
| TextExtraction.Join | src/main/java/com/gaspar/pdfextractor/TextExtractor.java:116-125 | the pages separated by the line separator, none after the last; TextExtraction.JoinLastPage, JoinEmpty and JoinTokens state its properties, and JoinPages is proved equal to it |
| TextExtraction.JoinPages | src/main/java/com/gaspar/pdfextractor/TextExtractor.java:116-125 | the page loop builds exactly the joined text: the pages in order, with separators only between them |
| TextExtraction.TextExtractor.ExtractText | src/main/java/com/gaspar/pdfextractor/TextExtractor.java:75-150 | the run ends as Expected says; it prompts exactly under select with an existing file; it warns iff the text is empty; the counter grows by the token count of the text, and a skip, whichever way the run ends without extracting, leaves it unchanged; on extraction the file exists and holds the text, or is empty if the write failed; on a skip the file is untouched |
| TextExtraction.TextExtractor.constructor | src/main/java/com/gaspar/pdfextractor/TextExtractor.java:55-60 | the output path is derived from the PDF path |
| TextExtraction.TextFile.constructor | src/main/java/com/gaspar/pdfextractor/TextExtractor.java:87 | the `File textFile` of the output path, with whether it exists and what it holds; TextExtraction.TextExtractor.ExtractText states how lines 137-141 change it |
| TextExtraction.WordCounter.constructor | src/main/java/com/gaspar/pdfextractor/TextExtractor.java:28 | the counter starts at zero |

## Left out

- `App.java`: the Swing interface, the background thread and the file enumeration are not part of this model. A caller creates one `WordCounter` and passes it to every `TextExtractor`, which is how the static counter accumulates across instances.
- `Logger.java` and every log message: the model only reports whether the prompt and the empty-text error message are issued (`prompted`, `emptyWarning`).
- The `toString` report of `CommandLineArguments`: presentation text only.
- The exception messages: each error is a constructor of `ArgError` carrying the token, option or value it names, not the Hungarian text.
- The filesystem and `Pattern.compile`: they are oracles in `Env`, evaluated on the value string. `Paths.get` normalisation beyond trailing separators is not modelled, nor are platform-specific path rules. The root has no file name (`Strings.HasNoFileName`), and the model reports it as `NoFileName`.
- PDF decoding: a document is `Unreadable` or has an encrypted flag and its page texts. A decode error on a single page is not modelled.
- `App.findCurrentDirectory()`: `CommandLineArguments.java:144` calls this method although it is private to `App` (App.java:149), so the source as written would not compile. `Env.workingDirectory` stands for the absolute directory it would return.
- `Scanner` input: the answer line is a parameter, read only when a prompt is issued.
- The write step: delete and create always succeed. A failed write is the `writeFails` parameter, and it leaves the file created and empty. In every case the error is caught and the counter has already grown.
- `getWordCount`: it is the read of `WordCounter.count`.
- TextExtraction.TextExtractor.ExtractText: the counter is an unbounded `nat`, so the 64-bit `long` overflow of `wordCount` is not modelled.
- TextExtraction.YesAnswers: case folding is modelled for ASCII letters, U+0130 and U+0131 only. That is exact for comparisons with `I` and `N`, not for `equalsIgnoreCase` in general.
