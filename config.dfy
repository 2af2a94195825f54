/**
 * Specification of CommandLineArguments: the option handlers as functions on
 * the option map, the token loop, the default values and the final checks.
 * The class in module CommandLine is proved against these functions.
 */
module Config {
  import opened Wrappers
  import opened Strings

  /** The keys of the option map. */
  datatype Opt = Mode | Folder | Path | PathType | Regex | Recursive | Overwrite | Mute | Logfile

  /** The command-line spelling of each key. */
  function Key(o: Opt): string {
    match o
    case Mode => "-mode"
    case Folder => "-folder"
    case Path => "-path"
    case PathType => "-pathType"
    case Regex => "-regex"
    case Recursive => "-recursive"
    case Overwrite => "-overwrite"
    case Mute => "-mute"
    case Logfile => "-logfile"
  }

  const ModeAll := "all"
  const ModeSingle := "single"
  const ModeRegex := "regex"
  const OverwriteAll := "all"
  const OverwriteNone := "none"
  const OverwriteSelect := "select"
  const PathTypeRelative := "relative"
  const PathTypeAbsolute := "absolute"
  const LogAuto := "auto"

  const ModeValues: set<string> := {ModeAll, ModeSingle, ModeRegex}
  const OverwriteValues: set<string> := {OverwriteAll, OverwriteNone, OverwriteSelect}
  const PathTypeValues: set<string> := {PathTypeRelative, PathTypeAbsolute}

  /**
   * What the parser asks of the platform: `File.exists`, `File.isDirectory`,
   * `File.isAbsolute`, whether `Pattern.compile` accepts a pattern,
   * `File.separatorChar`, `File.pathSeparatorChar` and the absolute working
   * directory that `App.findCurrentDirectory` returns.
   */
  datatype Env = Env(
    fileExists: string -> bool,
    isDirectory: string -> bool,
    isAbsolute: string -> bool,
    regexCompiles: string -> bool,
    separator: char,
    pathSeparator: char,
    workingDirectory: string)

  /** The `arguments` map of the source. */
  type Args = map<Opt, string>

  /**
   * The IllegalArgumentException (or index exception) each check throws.
   * `InvalidRegex(None)` is the regex error that parseRegex throws when reading
   * the missing value fails inside its try block. `NoFileName` is the
   * NullPointerException of `getFileName().toString()` on a root path.
   */
  datatype ArgError =
    | UnknownArgument(token: string)
    | MissingValue(token: string)
    | Duplicate(option: Opt)
    | InvalidValue(option: Opt, value: string)
    | ModeRequired(option: Opt)
    | WrongMode(option: Opt)
    | NotADirectory(folder: string)
    | FolderNotFound(folder: string)
    | NotAPdf(path: string)
    | NoFileName(path: string)
    | InvalidRegex(regex: Option<string>)
    | PathTypeWithoutPath
    | SingleModeWithoutPath
    | RegexModeWithoutPattern
    | FolderIsAbsolute
    | FolderIsRelative
    | PathIsAbsolute
    | PathIsRelative
    | PathNotFound

  /**
   * The branch of `parseArgument` a token takes. Only `-mode` is matched
   * together with its `=`; `-recursive` and `-mute` must match exactly; all
   * other options are recognised by prefix.
   */
  function Dispatch(arg: string): Option<Opt>
  {
    if StartsWith(arg, "-mode=") then Some(Mode)
    else if StartsWith(arg, "-path") && !StartsWith(arg, "-pathType") then Some(Path)
    else if StartsWith(arg, "-folder") then Some(Folder)
    else if StartsWith(arg, "-regex") then Some(Regex)
    else if StartsWith(arg, "-overwrite") then Some(Overwrite)
    else if arg == "-recursive" then Some(Recursive)
    else if arg == "-mute" then Some(Mute)
    else if StartsWith(arg, "-logfile") then Some(Logfile)
    else if StartsWith(arg, "-pathType") then Some(PathType)
    else None
  }

  /** Each option is recognised by its own key, whatever the order of the tests. */
  lemma DispatchByKey(arg: string)
    ensures Dispatch(arg).Some? ==> StartsWith(arg, Key(Dispatch(arg).value))
    ensures Dispatch(arg) == Some(Mode) <==> StartsWith(arg, Key(Mode) + "=")
    ensures Dispatch(arg) == Some(Path) <==> StartsWith(arg, Key(Path)) && !StartsWith(arg, Key(PathType))
    ensures Dispatch(arg) == Some(PathType) <==> StartsWith(arg, Key(PathType))
    ensures Dispatch(arg) == Some(Folder) <==> StartsWith(arg, Key(Folder))
    ensures Dispatch(arg) == Some(Regex) <==> StartsWith(arg, Key(Regex))
    ensures Dispatch(arg) == Some(Overwrite) <==> StartsWith(arg, Key(Overwrite))
    ensures Dispatch(arg) == Some(Logfile) <==> StartsWith(arg, Key(Logfile))
    ensures Dispatch(arg) == Some(Recursive) <==> arg == Key(Recursive)
    ensures Dispatch(arg) == Some(Mute) <==> arg == Key(Mute)
  {
    DispatchByPathKeys(arg);
    DispatchByOtherKeys(arg);
  }

  /** The mode and the two options whose keys start with `-path`. */
  lemma DispatchByPathKeys(arg: string)
    ensures Dispatch(arg).Some? ==> StartsWith(arg, Key(Dispatch(arg).value))
    ensures Dispatch(arg) == Some(Mode) <==> StartsWith(arg, Key(Mode) + "=")
    ensures Dispatch(arg) == Some(Path) <==> StartsWith(arg, Key(Path)) && !StartsWith(arg, Key(PathType))
    ensures Dispatch(arg) == Some(PathType) <==> StartsWith(arg, Key(PathType))
  {
    assert forall o :: StartsWith(arg, Key(o)) ==> arg[1] == Key(o)[1];
    if StartsWith(arg, "-mode=") {
      StartsWithPart(arg, "-mode", "=");
    }
  }

  /** The options other than the mode and the two `-path` options. */
  lemma DispatchByOtherKeys(arg: string)
    ensures Dispatch(arg) == Some(Folder) <==> StartsWith(arg, Key(Folder))
    ensures Dispatch(arg) == Some(Regex) <==> StartsWith(arg, Key(Regex))
    ensures Dispatch(arg) == Some(Overwrite) <==> StartsWith(arg, Key(Overwrite))
    ensures Dispatch(arg) == Some(Logfile) <==> StartsWith(arg, Key(Logfile))
    ensures Dispatch(arg) == Some(Recursive) <==> arg == Key(Recursive)
    ensures Dispatch(arg) == Some(Mute) <==> arg == Key(Mute)
  {
    assert forall o :: StartsWith(arg, Key(o)) ==> arg[1] == Key(o)[1];
    assert StartsWith(arg, Key(Regex)) ==> arg[3] == 'g';
  }

  /** The `-path` value names a file whose extension is exactly "pdf". */
  predicate HasPdfExtension(path: string, env: Env) {
    GetExtension(FileName(path, env.separator)) == "pdf"
  }

  /** parseFolder appends `File.separator` unless the value ends with `File.pathSeparator`. */
  function NormalizeFolder(folder: string, env: Env): string {
    if EndsWith(folder, [env.pathSeparator]) then folder else folder + [env.separator]
  }

  /** The value a successful handler stores for option `o` read from token `arg`. */
  function Stored(o: Opt, arg: string, env: Env): string {
    var v := SplitValue(arg).GetOr("");
    match o
    case Recursive => ""
    case Mute => ""
    case Folder => NormalizeFolder(v, env)
    case _ => v
  }

  /**
   * The rules of the handlers, stated without their order of checks: what must
   * hold of the map parsed so far and of the token for option `o` to be accepted.
   */
  predicate Admissible(m: Args, o: Opt, arg: string, env: Env) {
    var v := SplitValue(arg);
    o !in m &&
    match o
    case Mode => v.Some? && v.value in ModeValues
    case Path => Mode in m && m[Mode] == ModeSingle && v.Some? && HasPdfExtension(v.value, env)
    case Folder =>
      Mode in m && (m[Mode] == ModeAll || m[Mode] == ModeRegex) &&
      v.Some? && env.isDirectory(v.value) && env.fileExists(v.value)
    case Regex => Mode in m && m[Mode] == ModeRegex && v.Some? && env.regexCompiles(v.value)
    case Overwrite => v.Some? && v.value in OverwriteValues
    case PathType => (Path in m || Folder in m) && v.Some? && v.value in PathTypeValues
    case Logfile => v.Some?
    case Recursive => true
    case Mute => true
  }

  /** parseMode */
  function ModeStep(m: Args, arg: string, env: Env): (r: Result<Args, ArgError>)
    ensures r.Success? <==> Admissible(m, Mode, arg, env)
    ensures r.Success? ==> r.value == m[Mode := Stored(Mode, arg, env)]
  {
    var v := SplitValue(arg);
    if v.None? then Failure(MissingValue(arg))
    else if v.value !in ModeValues then Failure(InvalidValue(Mode, v.value))
    else if Mode in m then Failure(Duplicate(Mode))
    else Success(m[Mode := v.value])
  }

  /** parseFolder */
  function FolderStep(m: Args, arg: string, env: Env): (r: Result<Args, ArgError>)
    ensures r.Success? <==> Admissible(m, Folder, arg, env)
    ensures r.Success? ==> r.value == m[Folder := Stored(Folder, arg, env)]
  {
    if Folder in m then Failure(Duplicate(Folder))
    else if Mode !in m then Failure(ModeRequired(Folder))
    else if m[Mode] != ModeAll && m[Mode] != ModeRegex then Failure(WrongMode(Folder))
    else
      var v := SplitValue(arg);
      if v.None? then Failure(MissingValue(arg))
      else if !env.isDirectory(v.value) then Failure(NotADirectory(v.value))
      else if !env.fileExists(v.value) then Failure(FolderNotFound(v.value))
      else Success(m[Folder := NormalizeFolder(v.value, env)])
  }

  /** parsePath */
  function PathStep(m: Args, arg: string, env: Env): (r: Result<Args, ArgError>)
    ensures r.Success? <==> Admissible(m, Path, arg, env)
    ensures r.Success? ==> r.value == m[Path := Stored(Path, arg, env)]
  {
    if Mode !in m then Failure(ModeRequired(Path))
    else if m[Mode] != ModeSingle then Failure(WrongMode(Path))
    else
      var v := SplitValue(arg);
      if v.None? then Failure(MissingValue(arg))
      else if HasNoFileName(v.value, env.separator) then
        RootIsNoPdf(v.value, env.separator);
        Failure(NoFileName(v.value))
      else if !HasPdfExtension(v.value, env) then Failure(NotAPdf(v.value))
      else if Path in m then Failure(Duplicate(Path))
      else Success(m[Path := v.value])
  }

  /** parseRegex: the value is read inside the try block, so a missing one is a regex error. */
  function RegexStep(m: Args, arg: string, env: Env): (r: Result<Args, ArgError>)
    ensures r.Success? <==> Admissible(m, Regex, arg, env)
    ensures r.Success? ==> r.value == m[Regex := Stored(Regex, arg, env)]
  {
    if Mode !in m then Failure(ModeRequired(Regex))
    else if m[Mode] != ModeRegex then Failure(WrongMode(Regex))
    else
      var v := SplitValue(arg);
      if v.None? then Failure(InvalidRegex(None))
      else if !env.regexCompiles(v.value) then Failure(InvalidRegex(v))
      else if Regex in m then Failure(Duplicate(Regex))
      else Success(m[Regex := v.value])
  }

  /** parseOverwrite */
  function OverwriteStep(m: Args, arg: string, env: Env): (r: Result<Args, ArgError>)
    ensures r.Success? <==> Admissible(m, Overwrite, arg, env)
    ensures r.Success? ==> r.value == m[Overwrite := Stored(Overwrite, arg, env)]
  {
    if Overwrite in m then Failure(Duplicate(Overwrite))
    else
      var v := SplitValue(arg);
      if v.None? then Failure(MissingValue(arg))
      else if v.value !in OverwriteValues then Failure(InvalidValue(Overwrite, v.value))
      else Success(m[Overwrite := v.value])
  }

  /** parsePathType: the value is read only after the duplicate and path/folder checks. */
  function PathTypeStep(m: Args, arg: string, env: Env): (r: Result<Args, ArgError>)
    ensures r.Success? <==> Admissible(m, PathType, arg, env)
    ensures r.Success? ==> r.value == m[PathType := Stored(PathType, arg, env)]
  {
    if PathType in m then Failure(Duplicate(PathType))
    else if Path !in m && Folder !in m then Failure(PathTypeWithoutPath)
    else
      var v := SplitValue(arg);
      if v.None? then Failure(MissingValue(arg))
      else if v.value !in PathTypeValues then Failure(InvalidValue(PathType, v.value))
      else Success(m[PathType := v.value])
  }

  /** parseLogfile: "auto" and a file path are both stored as given. */
  function LogfileStep(m: Args, arg: string, env: Env): (r: Result<Args, ArgError>)
    ensures r.Success? <==> Admissible(m, Logfile, arg, env)
    ensures r.Success? ==> r.value == m[Logfile := Stored(Logfile, arg, env)]
  {
    if Logfile in m then Failure(Duplicate(Logfile))
    else
      var v := SplitValue(arg);
      if v.None? then Failure(MissingValue(arg))
      else Success(m[Logfile := v.value])
  }

  /** The inline handling of `-recursive` and `-mute`. */
  function FlagStep(m: Args, o: Opt, env: Env): (r: Result<Args, ArgError>)
    requires o == Recursive || o == Mute
    ensures r.Success? <==> Admissible(m, o, "", env)
    ensures r.Success? ==> r.value == m[o := Stored(o, "", env)]
  {
    if o in m then Failure(Duplicate(o)) else Success(m[o := ""])
  }

  /** The handler parseArgument runs for a token that names option `o`. */
  function Handler(m: Args, o: Opt, arg: string, env: Env): (r: Result<Args, ArgError>)
    ensures r.Success? <==> Admissible(m, o, arg, env)
    ensures r.Success? ==> r.value == m[o := Stored(o, arg, env)]
  {
    match o
    case Mode => ModeStep(m, arg, env)
    case Path => PathStep(m, arg, env)
    case Folder => FolderStep(m, arg, env)
    case Regex => RegexStep(m, arg, env)
    case Overwrite => OverwriteStep(m, arg, env)
    case Recursive => FlagStep(m, Recursive, env)
    case Mute => FlagStep(m, Mute, env)
    case Logfile => LogfileStep(m, arg, env)
    case PathType => PathTypeStep(m, arg, env)
  }

  /**
   * parseArgument: one token. It succeeds exactly when the token names an
   * option whose rules hold, and then adds that one option to the map.
   */
  function Step(m: Args, arg: string, env: Env): (r: Result<Args, ArgError>)
    ensures Dispatch(arg).None? ==> r == Failure(UnknownArgument(arg))
    ensures r.Success? <==> Dispatch(arg).Some? && Admissible(m, Dispatch(arg).value, arg, env)
    ensures r.Success? ==>
      r.value == m[Dispatch(arg).value := Stored(Dispatch(arg).value, arg, env)]
  {
    match Dispatch(arg)
    case None => Failure(UnknownArgument(arg))
    case Some(o) => Handler(m, o, arg, env)
  }

  /** A token that names `o` is handed to the handler of `o`. */
  lemma StepIsHandler(m: Args, arg: string, o: Opt, env: Env)
    requires Dispatch(arg) == Some(o)
    ensures Step(m, arg, env) == Handler(m, o, arg, env)
  {
  }

  /** The constructor's loop over the tokens, stopping at the first exception. */
  function ParseTokens(args: seq<string>, env: Env): Result<Args, ArgError>
    decreases |args|
  {
    if args == [] then Success(map[])
    else
      match ParseTokens(args[..|args| - 1], env)
      case Failure(e) => Failure(e)
      case Success(m) => Step(m, args[|args| - 1], env)
  }

  /** The map with every default of applyDefaultValues filled in, before its checks. */
  function Defaulted(m: Args, env: Env): (d: Args)
    ensures d.Keys == m.Keys + {Mode, Overwrite, PathType, Folder}
    ensures forall o :: o in m ==> d[o] == m[o]
    ensures Mode !in m ==> d[Mode] == ModeAll
    ensures Overwrite !in m ==> d[Overwrite] == OverwriteNone
    ensures PathType !in m ==> d[PathType] == PathTypeRelative
    ensures Folder !in m ==>
      d[Folder] == if d[PathType] == PathTypeRelative then "." else env.workingDirectory
  {
    var m1 := if Mode in m then m else m[Mode := ModeAll];
    var m2 := if Overwrite in m1 then m1 else m1[Overwrite := OverwriteNone];
    var m3 := if PathType in m2 then m2 else m2[PathType := PathTypeRelative];
    if Folder in m3 then m3
    else m3[Folder := if m3[PathType] == PathTypeRelative then "." else env.workingDirectory]
  }

  /** applyDefaultValues, first block: single and regex modes need their option. */
  function ModeCheck(m: Args): Outcome<ArgError> {
    if Mode in m && m[Mode] == ModeSingle && Path !in m then Fail(SingleModeWithoutPath)
    else if Mode in m && m[Mode] == ModeRegex && Regex !in m then Fail(RegexModeWithoutPattern)
    else Pass
  }

  /** applyDefaultValues, folder check: its form must agree with the path type. */
  function FolderFormCheck(d: Args, env: Env): Outcome<ArgError>
    requires PathType in d && Folder in d
  {
    if d[PathType] == PathTypeRelative && env.isAbsolute(d[Folder]) then Fail(FolderIsAbsolute)
    else if d[PathType] == PathTypeAbsolute && !env.isAbsolute(d[Folder]) then Fail(FolderIsRelative)
    else Pass
  }

  /** applyDefaultValues, path check: its form must agree with the path type and the file must exist. */
  function PathCheck(d: Args, env: Env): Outcome<ArgError>
    requires PathType in d
  {
    if Path !in d then Pass
    else if d[PathType] == PathTypeRelative && env.isAbsolute(d[Path]) then Fail(PathIsAbsolute)
    else if d[PathType] == PathTypeAbsolute && !env.isAbsolute(d[Path]) then Fail(PathIsRelative)
    else if !env.fileExists(d[Path]) then Fail(PathNotFound)
    else Pass
  }

  /** applyDefaultValues: the mode check, the defaults, then the form and path checks. */
  function ApplyDefaults(m: Args, env: Env): Result<Args, ArgError> {
    match ModeCheck(m)
    case Fail(e) => Failure(e)
    case Pass =>
      var d := Defaulted(m, env);
      match FolderFormCheck(d, env)
      case Fail(e) => Failure(e)
      case Pass =>
        match PathCheck(d, env)
        case Fail(e) => Failure(e)
        case Pass => Success(d)
  }

  /** The whole constructor: every token in order, then applyDefaultValues. */
  function Resolve(args: seq<string>, env: Env): Result<Args, ArgError> {
    match ParseTokens(args, env)
    case Failure(e) => Failure(e)
    case Success(m) => ApplyDefaults(m, env)
  }

  /** What holds of the map after any sequence of accepted tokens. */
  predicate PartialInvariant(m: Args, env: Env) {
    && (Mode in m ==> m[Mode] in ModeValues)
    && (Overwrite in m ==> m[Overwrite] in OverwriteValues)
    && (PathType in m ==> m[PathType] in PathTypeValues && (Path in m || Folder in m))
    && (Path in m ==> Mode in m && m[Mode] == ModeSingle && HasPdfExtension(m[Path], env))
    && (Regex in m ==> Mode in m && m[Mode] == ModeRegex && env.regexCompiles(m[Regex]))
    && (Folder in m ==> Mode in m && (m[Mode] == ModeAll || m[Mode] == ModeRegex))
  }

  /** Mode single goes with a path and mode regex with a pattern, and only they. */
  predicate ModesMatch(m: Args)
    requires Mode in m
  {
    (m[Mode] == ModeSingle <==> Path in m) && (m[Mode] == ModeRegex <==> Regex in m)
  }

  /** The folder is absolute exactly when the path type is absolute. */
  predicate FolderFormMatches(m: Args, env: Env)
    requires PathType in m && Folder in m
  {
    env.isAbsolute(m[Folder]) <==> m[PathType] == PathTypeAbsolute
  }

  /** A stored path is absolute exactly when the path type is, and names an existing file. */
  predicate PathValid(m: Args, env: Env)
    requires PathType in m
  {
    Path in m ==>
      (env.isAbsolute(m[Path]) <==> m[PathType] == PathTypeAbsolute) && env.fileExists(m[Path])
  }

  /** The invariant of a successfully constructed configuration. */
  predicate ResolvedInvariant(m: Args, env: Env) {
    && Mode in m && Overwrite in m && PathType in m && Folder in m
    && m[Mode] in ModeValues && m[Overwrite] in OverwriteValues && m[PathType] in PathTypeValues
    && ModesMatch(m)
    && FolderFormMatches(m, env)
    && PathValid(m, env)
    && (Path in m ==> HasPdfExtension(m[Path], env))
    && (Regex in m ==> env.regexCompiles(m[Regex]))
  }

  /** The value stored for `o` by the last token of `args` that names `o`. */
  function GivenValue(args: seq<string>, o: Opt, env: Env): Option<string>
    decreases |args|
  {
    if args == [] then None
    else if Dispatch(args[|args| - 1]) == Some(o) then Some(Stored(o, args[|args| - 1], env))
    else GivenValue(args[..|args| - 1], o, env)
  }
}
