/**
 * The class CommandLineArguments: an option map that the handlers update in
 * place, one token at a time, followed by applyDefaultValues. Every method is
 * proved against its specification function in module Config, and every
 * getter states what it returns in terms of the command line.
 */
module CommandLine {
  import opened Wrappers
  import opened Strings
  import opened Config
  import opened ConfigProperties

  class CommandLineArguments {
    /** The option map of the source. */
    var arguments: Args
    /** The platform the options are checked against. */
    const env: Env
    /** The command line a successfully built object was made from. */
    ghost var tokens: seq<string>

    /** What every object handed out by FromArgs satisfies. */
    ghost predicate Valid()
      reads this
    {
      Resolve(tokens, env) == Success(arguments)
    }

    /** The start of the Java constructor: an empty map. */
    constructor Empty(env: Env)
      ensures this.env == env && arguments == map[] && tokens == []
    {
      this.env := env;
      arguments := map[];
      tokens := [];
    }

    /**
     * The Java constructor: every token through parseArgument, then
     * applyDefaultValues. An exception becomes a Failure carrying its cause.
     */
    static method FromArgs(args: seq<string>, env: Env) returns (r: Result<CommandLineArguments, ArgError>)
      ensures r.Success? <==> Resolve(args, env).Success?
      ensures r.Failure? ==> r.error == Resolve(args, env).error
      ensures r.Success? ==>
        fresh(r.value) && r.value.env == env && r.value.tokens == args &&
        r.value.arguments == Resolve(args, env).value && r.value.Valid()
    {
      var c := new CommandLineArguments.Empty(env);
      var parsed := c.ParseAll(args);
      if parsed.Fail? {
        return Failure(parsed.error);
      }
      var out := c.ApplyDefaultValues();
      if out.Fail? {
        return Failure(out.error);
      }
      c.tokens := args;
      r := Success(c);
    }

    /** The constructor's loop: parseArgument on each token until one throws. */
    method ParseAll(args: seq<string>) returns (out: Outcome<ArgError>)
      requires arguments == map[]
      modifies this`arguments
      ensures out.Pass? ==> ParseTokens(args, env) == Success(arguments)
      ensures out.Fail? ==> ParseTokens(args, env) == Failure(out.error)
    {
      var i := 0;
      assert args[..0] == [];
      while i < |args|
        invariant 0 <= i <= |args|
        invariant ParseTokens(args[..i], env) == Success(arguments)
      {
        StepAt(args, i, env);
        out := ParseArgument(args[i]);
        if out.Fail? {
          FailurePersists(args, i + 1, env);
          return;
        }
        i := i + 1;
      }
      assert args[..i] == args;
      out := Pass;
    }

    /** parseArgument: the handler of the option the token names, the flags handled inline. */
    method ParseArgument(arg: string) returns (out: Outcome<ArgError>)
      modifies this`arguments
      ensures out.Pass? ==> Step(old(arguments), arg, env) == Success(arguments)
      ensures out.Fail? ==> Step(old(arguments), arg, env) == Failure(out.error) && arguments == old(arguments)
    {
      var d := Dispatch(arg);
      match d
      case None =>
        out := Fail(UnknownArgument(arg));
      case Some(o) =>
        StepIsHandler(arguments, arg, o, env);
        match o
        case Mode => out := ParseMode(arg);
        case Path => out := ParsePath(arg);
        case Folder => out := ParseFolder(arg);
        case Regex => out := ParseRegex(arg);
        case Overwrite => out := ParseOverwrite(arg);
        case Recursive =>
          if Recursive !in arguments {
            arguments := arguments[Recursive := ""];
            out := Pass;
          } else {
            out := Fail(Duplicate(Recursive));
          }
        case Mute =>
          if Mute !in arguments {
            arguments := arguments[Mute := ""];
            out := Pass;
          } else {
            out := Fail(Duplicate(Mute));
          }
        case Logfile => out := ParseLogfile(arg);
        case PathType => out := ParsePathType(arg);
    }

    /** parseMode */
    method ParseMode(arg: string) returns (out: Outcome<ArgError>)
      modifies this`arguments
      ensures out.Pass? ==> ModeStep(old(arguments), arg, env) == Success(arguments)
      ensures out.Fail? ==> ModeStep(old(arguments), arg, env) == Failure(out.error) && arguments == old(arguments)
    {
      var split := SplitValue(arg);
      if split.None? {
        return Fail(MissingValue(arg));
      }
      var value := split.value;
      if value == ModeAll || value == ModeSingle || value == ModeRegex {
        if Mode !in arguments {
          arguments := arguments[Mode := value];
          out := Pass;
        } else {
          out := Fail(Duplicate(Mode));
        }
      } else {
        out := Fail(InvalidValue(Mode, value));
      }
    }

    /** parseFolder */
    method ParseFolder(arg: string) returns (out: Outcome<ArgError>)
      modifies this`arguments
      ensures out.Pass? ==> FolderStep(old(arguments), arg, env) == Success(arguments)
      ensures out.Fail? ==> FolderStep(old(arguments), arg, env) == Failure(out.error) && arguments == old(arguments)
    {
      if Folder in arguments {
        return Fail(Duplicate(Folder));
      }
      if Mode !in arguments {
        return Fail(ModeRequired(Folder));
      } else if arguments[Mode] != ModeAll && arguments[Mode] != ModeRegex {
        return Fail(WrongMode(Folder));
      }
      var split := SplitValue(arg);
      if split.None? {
        return Fail(MissingValue(arg));
      }
      var folder := split.value;
      if !env.isDirectory(folder) {
        return Fail(NotADirectory(folder));
      }
      if !env.fileExists(folder) {
        return Fail(FolderNotFound(folder));
      }
      var folderName := folder;
      if !EndsWith(folderName, [env.pathSeparator]) {
        folderName := folderName + [env.separator];
      }
      arguments := arguments[Folder := folderName];
      out := Pass;
    }

    /** parsePath */
    method ParsePath(arg: string) returns (out: Outcome<ArgError>)
      modifies this`arguments
      ensures out.Pass? ==> PathStep(old(arguments), arg, env) == Success(arguments)
      ensures out.Fail? ==> PathStep(old(arguments), arg, env) == Failure(out.error) && arguments == old(arguments)
    {
      if Mode !in arguments {
        return Fail(ModeRequired(Path));
      } else if arguments[Mode] != ModeSingle {
        return Fail(WrongMode(Path));
      }
      var split := SplitValue(arg);
      if split.None? {
        return Fail(MissingValue(arg));
      }
      if HasNoFileName(split.value, env.separator) {
        return Fail(NoFileName(split.value));
      }
      var fileName := FileName(split.value, env.separator);
      if GetExtension(fileName) != "pdf" {
        return Fail(NotAPdf(split.value));
      }
      if Path !in arguments {
        arguments := arguments[Path := split.value];
        out := Pass;
      } else {
        out := Fail(Duplicate(Path));
      }
    }

    /** parseRegex: reading the value and compiling it share one try block. */
    method ParseRegex(arg: string) returns (out: Outcome<ArgError>)
      modifies this`arguments
      ensures out.Pass? ==> RegexStep(old(arguments), arg, env) == Success(arguments)
      ensures out.Fail? ==> RegexStep(old(arguments), arg, env) == Failure(out.error) && arguments == old(arguments)
    {
      if Mode !in arguments {
        return Fail(ModeRequired(Regex));
      } else if arguments[Mode] != ModeRegex {
        return Fail(WrongMode(Regex));
      }
      var split := SplitValue(arg);
      if split.None? {
        return Fail(InvalidRegex(None));
      }
      if !env.regexCompiles(split.value) {
        return Fail(InvalidRegex(split));
      }
      if Regex !in arguments {
        arguments := arguments[Regex := split.value];
        out := Pass;
      } else {
        out := Fail(Duplicate(Regex));
      }
    }

    /** parseOverwrite */
    method ParseOverwrite(arg: string) returns (out: Outcome<ArgError>)
      modifies this`arguments
      ensures out.Pass? ==> OverwriteStep(old(arguments), arg, env) == Success(arguments)
      ensures out.Fail? ==> OverwriteStep(old(arguments), arg, env) == Failure(out.error) && arguments == old(arguments)
    {
      if Overwrite in arguments {
        return Fail(Duplicate(Overwrite));
      }
      var split := SplitValue(arg);
      if split.None? {
        return Fail(MissingValue(arg));
      }
      var value := split.value;
      if value == OverwriteAll || value == OverwriteNone || value == OverwriteSelect {
        arguments := arguments[Overwrite := value];
        out := Pass;
      } else {
        out := Fail(InvalidValue(Overwrite, value));
      }
    }

    /** parsePathType: the split is built first, but its value is read only after the checks. */
    method ParsePathType(arg: string) returns (out: Outcome<ArgError>)
      modifies this`arguments
      ensures out.Pass? ==> PathTypeStep(old(arguments), arg, env) == Success(arguments)
      ensures out.Fail? ==> PathTypeStep(old(arguments), arg, env) == Failure(out.error) && arguments == old(arguments)
    {
      var split := SplitValue(arg);
      if PathType in arguments {
        return Fail(Duplicate(PathType));
      }
      if Path !in arguments && Folder !in arguments {
        return Fail(PathTypeWithoutPath);
      }
      if split.None? {
        return Fail(MissingValue(arg));
      }
      var value := split.value;
      if value == PathTypeRelative || value == PathTypeAbsolute {
        arguments := arguments[PathType := value];
        out := Pass;
      } else {
        out := Fail(InvalidValue(PathType, value));
      }
    }

    /** parseLogfile: "auto" and a file path are both stored as given. */
    method ParseLogfile(arg: string) returns (out: Outcome<ArgError>)
      modifies this`arguments
      ensures out.Pass? ==> LogfileStep(old(arguments), arg, env) == Success(arguments)
      ensures out.Fail? ==> LogfileStep(old(arguments), arg, env) == Failure(out.error) && arguments == old(arguments)
    {
      if Logfile in arguments {
        return Fail(Duplicate(Logfile));
      }
      var split := SplitValue(arg);
      if split.None? {
        return Fail(MissingValue(arg));
      }
      arguments := arguments[Logfile := split.value];
      out := Pass;
    }

    /**
     * applyDefaultValues. A failure of the mode check leaves the map as it
     * was; a later failure leaves the defaults that were already put in.
     */
    method ApplyDefaultValues() returns (out: Outcome<ArgError>)
      modifies this`arguments
      ensures out.Pass? ==> ApplyDefaults(old(arguments), env) == Success(arguments)
      ensures out.Fail? ==> ApplyDefaults(old(arguments), env) == Failure(out.error)
      ensures ModeCheck(old(arguments)).Fail? ==> arguments == old(arguments)
      ensures ModeCheck(old(arguments)).Pass? ==> arguments == Defaulted(old(arguments), env)
    {
      if Mode !in arguments {
        arguments := arguments[Mode := ModeAll];
      } else {
        if arguments[Mode] == ModeSingle && Path !in arguments {
          return Fail(SingleModeWithoutPath);
        }
        if arguments[Mode] == ModeRegex && Regex !in arguments {
          return Fail(RegexModeWithoutPattern);
        }
      }
      DefaultedWithMode(old(arguments), env);
      FillDefaults();
      out := CheckPaths();
    }

    /** The defaults of overwrite, path type and folder, once a mode is present. */
    method FillDefaults()
      requires Mode in arguments
      modifies this`arguments
      ensures arguments == Defaulted(old(arguments), env)
    {
      if Overwrite !in arguments {
        arguments := arguments[Overwrite := OverwriteNone];
      }
      if PathType !in arguments {
        arguments := arguments[PathType := PathTypeRelative];
      }
      if Folder !in arguments {
        var pathType := arguments[PathType];
        arguments := arguments[Folder := if pathType == PathTypeRelative then "." else env.workingDirectory];
      }
    }

    /** The folder and path checks of applyDefaultValues, once the defaults are in place. */
    method CheckPaths() returns (out: Outcome<ArgError>)
      requires PathType in arguments && Folder in arguments
      ensures FolderFormCheck(arguments, env).Fail? ==> out == FolderFormCheck(arguments, env)
      ensures FolderFormCheck(arguments, env).Pass? ==> out == PathCheck(arguments, env)
    {
      var folder := arguments[Folder];
      if arguments[PathType] == PathTypeRelative && env.isAbsolute(folder) {
        return Fail(FolderIsAbsolute);
      }
      if arguments[PathType] == PathTypeAbsolute && !env.isAbsolute(folder) {
        return Fail(FolderIsRelative);
      }
      if Path in arguments {
        var path := arguments[Path];
        if arguments[PathType] == PathTypeRelative && env.isAbsolute(path) {
          return Fail(PathIsAbsolute);
        }
        if arguments[PathType] == PathTypeAbsolute && !env.isAbsolute(path) {
          return Fail(PathIsRelative);
        }
        if !env.fileExists(path) {
          return Fail(PathNotFound);
        }
      }
      out := Pass;
    }

    /** getMode: the given mode, or `all`. */
    function GetMode(): (r: string)
      reads this
      requires Valid()
      ensures r in ModeValues
      ensures r == GivenValue(tokens, Mode, env).GetOr(ModeAll)
    {
      ResolveSound(tokens, env);
      ResolvedValues(tokens, env);
      arguments[Mode]
    }

    /** getPath: the given path (null in the source when there is none); present exactly in single mode. */
    function GetPath(): (r: Option<string>)
      reads this
      requires Valid()
      ensures r == GivenValue(tokens, Path, env)
      ensures r.Some? <==> GetMode() == ModeSingle
      ensures r.Some? ==> HasPdfExtension(r.value, env) && env.fileExists(r.value)
    {
      ResolvedPath(tokens, env);
      if Path in arguments then Some(arguments[Path]) else None
    }

    /** getRegex: the given pattern (null when there is none); present exactly in regex mode. */
    function GetRegex(): (r: Option<string>)
      reads this
      requires Valid()
      ensures r == GivenValue(tokens, Regex, env)
      ensures r.Some? <==> GetMode() == ModeRegex
      ensures r.Some? ==> env.regexCompiles(r.value)
    {
      ResolvedPattern(tokens, env);
      if Regex in arguments then Some(arguments[Regex]) else None
    }

    /** getOverwrite: the given policy, or `none`. */
    function GetOverwrite(): (r: string)
      reads this
      requires Valid()
      ensures r in OverwriteValues
      ensures r == GivenValue(tokens, Overwrite, env).GetOr(OverwriteNone)
    {
      ResolveSound(tokens, env);
      ResolvedValues(tokens, env);
      arguments[Overwrite]
    }

    /** getPathType: the given path type, or `relative`; never null. */
    function GetPathType(): (r: string)
      reads this
      requires Valid()
      ensures r in PathTypeValues
      ensures r == GivenValue(tokens, PathType, env).GetOr(PathTypeRelative)
    {
      ResolveSound(tokens, env);
      ResolvedValues(tokens, env);
      arguments[PathType]
    }

    /**
     * getFolder: the given folder with its separator, or `.` for a relative
     * and the working directory for an absolute path type; its form agrees
     * with the path type.
     */
    function GetFolder(): (r: string)
      reads this
      requires Valid()
      ensures r == GivenValue(tokens, Folder, env).GetOr(
        if GetPathType() == PathTypeRelative then "." else env.workingDirectory)
      ensures env.isAbsolute(r) <==> GetPathType() == PathTypeAbsolute
    {
      ResolveSound(tokens, env);
      ResolvedValues(tokens, env);
      arguments[Folder]
    }

    /** getLogPath: the `-logfile` value (null when there is none). */
    function GetLogPath(): (r: Option<string>)
      reads this
      requires Valid()
      ensures r == GivenValue(tokens, Logfile, env)
    {
      ResolvedValues(tokens, env);
      if Logfile in arguments then Some(arguments[Logfile]) else None
    }

    /** isRecursive */
    function IsRecursive(): (r: bool)
      reads this
      requires Valid()
      ensures r <==> Key(Recursive) in tokens
    {
      FlagIffToken(tokens, Recursive, env);
      Recursive in arguments
    }

    /** isMuted */
    function IsMuted(): (r: bool)
      reads this
      requires Valid()
      ensures r <==> Key(Mute) in tokens
    {
      FlagIffToken(tokens, Mute, env);
      Mute in arguments
    }

    /** isLogging */
    function IsLogging(): (r: bool)
      reads this
      requires Valid()
      ensures r <==> exists i :: 0 <= i < |tokens| && StartsWith(tokens[i], Key(Logfile))
    {
      LoggingIffToken(tokens, env);
      Logfile in arguments
    }

    /** isAutoLogging */
    function IsAutoLogging(): (r: bool)
      reads this
      requires Valid()
      ensures r <==> exists i :: (0 <= i < |tokens| && StartsWith(tokens[i], Key(Logfile)) &&
        SplitValue(tokens[i]) == Some(LogAuto))
    {
      AutoLoggingIffToken(tokens, env);
      Logfile in arguments && arguments[Logfile] == LogAuto
    }
  }
}
