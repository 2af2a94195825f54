/** Properties of the command-line specification in module Config. */
module ConfigProperties {
  import opened Wrappers
  import opened Strings
  import opened Config

  lemma LastOfPrefix(args: seq<string>, k: nat)
    requires k < |args|
    ensures args[..k + 1][..k] == args[..k] && args[..k + 1][k] == args[k]
  {
  }

  /** The last token of a successfully parsed list was accepted by its handler. */
  lemma LastStep(args: seq<string>, env: Env)
    requires args != [] && ParseTokens(args, env).Success?
    ensures ParseTokens(args[..|args| - 1], env).Success?
    ensures Step(ParseTokens(args[..|args| - 1], env).value, args[|args| - 1], env) == ParseTokens(args, env)
  {
  }

  /** The loop is fail-fast: once a prefix of the tokens fails, the whole run fails the same way. */
  lemma {:induction false} FailurePersists(args: seq<string>, k: nat, env: Env)
    requires k <= |args| && ParseTokens(args[..k], env).Failure?
    ensures ParseTokens(args, env) == ParseTokens(args[..k], env)
    decreases |args| - k
  {
    if k == |args| {
      assert args[..k] == args;
    } else {
      LastOfPrefix(args, k);
      FailedPrefix(args[..k + 1], env);
      FailurePersists(args, k + 1, env);
    }
  }

  /** A failure before the last token is the failure of the whole list. */
  lemma FailedPrefix(args: seq<string>, env: Env)
    requires args != [] && ParseTokens(args[..|args| - 1], env).Failure?
    ensures ParseTokens(args, env) == ParseTokens(args[..|args| - 1], env)
  {
  }

  /** Every prefix of a successfully parsed token list parses successfully. */
  lemma PrefixSucceeds(args: seq<string>, k: nat, env: Env)
    requires k <= |args| && ParseTokens(args, env).Success?
    ensures ParseTokens(args[..k], env).Success?
  {
    if ParseTokens(args[..k], env).Failure? {
      FailurePersists(args, k, env);
    }
  }

  /** No token names `o` exactly when `GivenValue` has nothing for `o`. */
  lemma {:induction false} GivenValueNone(args: seq<string>, o: Opt, env: Env)
    ensures GivenValue(args, o, env).None? <==>
      forall i :: 0 <= i < |args| ==> Dispatch(args[i]) != Some(o)
    decreases |args|
  {
    if args != [] {
      var n := |args|;
      GivenValueNone(args[..n - 1], o, env);
      assert forall i :: 0 <= i < n - 1 ==> args[..n - 1][i] == args[i];
    }
  }

  /** A given value comes from a token that names the option. */
  lemma {:induction false} GivenValueFrom(args: seq<string>, o: Opt, env: Env)
    requires GivenValue(args, o, env).Some?
    ensures exists i ::
      0 <= i < |args| && Dispatch(args[i]) == Some(o) && Stored(o, args[i], env) == GivenValue(args, o, env).value
    decreases |args|
  {
    var n := |args|;
    if Dispatch(args[n - 1]) != Some(o) {
      GivenValueFrom(args[..n - 1], o, env);
      var i :| 0 <= i < n - 1 && Dispatch(args[..n - 1][i]) == Some(o) &&
        Stored(o, args[..n - 1][i], env) == GivenValue(args[..n - 1], o, env).value;
      assert args[..n - 1][i] == args[i];
    }
  }

  /** The parsed map holds option `o` exactly when a token names it, with the value that token stored. */
  lemma {:induction false} ParsedKey(args: seq<string>, o: Opt, env: Env)
    requires ParseTokens(args, env).Success?
    ensures o in ParseTokens(args, env).value <==> GivenValue(args, o, env).Some?
    ensures o in ParseTokens(args, env).value ==>
      ParseTokens(args, env).value[o] == GivenValue(args, o, env).value
    decreases |args|
  {
    if args != [] {
      LastStep(args, env);
      ParsedKey(args[..|args| - 1], o, env);
    }
  }

  /**
   * The parsed map holds exactly the options the tokens name, each with the
   * value its token stored.
   */
  lemma ParsedMap(args: seq<string>, env: Env)
    requires ParseTokens(args, env).Success?
    ensures forall o :: (o in ParseTokens(args, env).value <==> GivenValue(args, o, env).Some?)
    ensures forall o :: o in ParseTokens(args, env).value ==>
      ParseTokens(args, env).value[o] == GivenValue(args, o, env).value
  {
    forall o | true
      ensures o in ParseTokens(args, env).value <==> GivenValue(args, o, env).Some?
      ensures o in ParseTokens(args, env).value ==>
        ParseTokens(args, env).value[o] == GivenValue(args, o, env).value
    {
      ParsedKey(args, o, env);
    }
  }

  /** An option missing from the parsed map is named by no token. */
  lemma NotNamed(args: seq<string>, o: Opt, env: Env)
    requires ParseTokens(args, env).Success? && o !in ParseTokens(args, env).value
    ensures forall i :: 0 <= i < |args| ==> Dispatch(args[i]) != Some(o)
  {
    ParsedKey(args, o, env);
    GivenValueNone(args, o, env);
  }

  /** After construction the path is the given one, present exactly in mode single, and an existing pdf. */
  lemma ResolvedPath(args: seq<string>, env: Env)
    requires Resolve(args, env).Success?
    ensures var r := Resolve(args, env).value;
      && Mode in r
      && GivenValue(args, Path, env) == (if Path in r then Some(r[Path]) else None)
      && (Path in r <==> r[Mode] == ModeSingle)
      && (Path in r ==> HasPdfExtension(r[Path], env) && env.fileExists(r[Path]))
  {
    ResolveSound(args, env);
    ResolvedValues(args, env);
  }

  /** After construction the pattern is the given one, present exactly in mode regex, and it compiles. */
  lemma ResolvedPattern(args: seq<string>, env: Env)
    requires Resolve(args, env).Success?
    ensures var r := Resolve(args, env).value;
      && Mode in r
      && GivenValue(args, Regex, env) == (if Regex in r then Some(r[Regex]) else None)
      && (Regex in r <==> r[Mode] == ModeRegex)
      && (Regex in r ==> env.regexCompiles(r[Regex]))
  {
    ResolveSound(args, env);
    ResolvedValues(args, env);
  }

  /** The last token of a successful parse names an option no earlier token named. */
  lemma LastIsNew(args: seq<string>, env: Env)
    requires args != [] && ParseTokens(args, env).Success?
    ensures Dispatch(args[|args| - 1]).Some?
    ensures forall i :: 0 <= i < |args| - 1 ==> Dispatch(args[i]) != Dispatch(args[|args| - 1])
  {
    var p := args[..|args| - 1];
    LastStep(args, env);
    NotNamed(p, Dispatch(args[|args| - 1]).value, env);
    assert forall i :: 0 <= i < |p| ==> p[i] == args[i];
  }

  /** Tokens naming distinct options stay distinct when one more token names a new option. */
  lemma DistinctExtended(args: seq<string>)
    requires args != []
    requires var p := args[..|args| - 1];
      (forall i :: 0 <= i < |p| ==> Dispatch(p[i]).Some?) &&
      (forall i, j :: 0 <= i < j < |p| ==> Dispatch(p[i]) != Dispatch(p[j]))
    requires Dispatch(args[|args| - 1]).Some?
    requires forall i :: 0 <= i < |args| - 1 ==> Dispatch(args[i]) != Dispatch(args[|args| - 1])
    ensures forall i :: 0 <= i < |args| ==> Dispatch(args[i]).Some?
    ensures forall i, j :: 0 <= i < j < |args| ==> Dispatch(args[i]) != Dispatch(args[j])
  {
    var p := args[..|args| - 1];
    assert forall i :: 0 <= i < |p| ==> p[i] == args[i];
  }

  /** In a successfully parsed token list every token names an option, and no two name the same one. */
  lemma {:induction false} ParsedOnce(args: seq<string>, env: Env)
    requires ParseTokens(args, env).Success?
    ensures forall i :: 0 <= i < |args| ==> Dispatch(args[i]).Some?
    ensures forall i, j :: 0 <= i < j < |args| ==> Dispatch(args[i]) != Dispatch(args[j])
    decreases |args|
  {
    if args != [] {
      PrefixSucceeds(args, |args| - 1, env);
      ParsedOnce(args[..|args| - 1], env);
      LastIsNew(args, env);
      DistinctExtended(args);
    }
  }

  /** Each accepted token keeps the rules of the parsed map. */
  lemma StepPreservesInvariant(m: Args, arg: string, env: Env)
    requires PartialInvariant(m, env) && Step(m, arg, env).Success?
    ensures PartialInvariant(Step(m, arg, env).value, env)
  {
  }

  /** Whatever the tokens, a successful token loop leaves a map that keeps the rules. */
  lemma {:induction false} ParsedInvariant(args: seq<string>, env: Env)
    requires ParseTokens(args, env).Success?
    ensures PartialInvariant(ParseTokens(args, env).value, env)
    decreases |args|
  {
    if args != [] {
      var n := |args|;
      ParsedInvariant(args[..n - 1], env);
      StepPreservesInvariant(ParseTokens(args[..n - 1], env).value, args[n - 1], env);
    }
  }

  /** The mode check passes exactly when the defaulted map pairs modes and options. */
  lemma ModeCheckIff(m: Args, env: Env)
    requires PartialInvariant(m, env)
    ensures ModeCheck(m).Pass? <==> ModesMatch(Defaulted(m, env))
  {
    var d := Defaulted(m, env);
    if Mode !in m {
      assert Path !in m && Regex !in m;
    }
  }

  /** The defaulted map holds the four defaulted options with values from their sets. */
  lemma DefaultedValues(m: Args, env: Env)
    requires PartialInvariant(m, env)
    ensures var d := Defaulted(m, env);
      && d[Mode] in ModeValues && d[Overwrite] in OverwriteValues && d[PathType] in PathTypeValues
      && (Path in d ==> HasPdfExtension(d[Path], env))
      && (Regex in d ==> env.regexCompiles(d[Regex]))
  {
  }

  /** The folder check passes exactly when the folder's form matches the path type. */
  lemma FolderFormCheckIff(d: Args, env: Env)
    requires PathType in d && Folder in d && d[PathType] in PathTypeValues
    ensures FolderFormCheck(d, env).Pass? <==> FolderFormMatches(d, env)
  {
  }

  /** The path check passes exactly when the stored path is valid. */
  lemma PathCheckIff(d: Args, env: Env)
    requires PathType in d && d[PathType] in PathTypeValues
    ensures PathCheck(d, env).Pass? <==> PathValid(d, env)
  {
  }

  /** Putting the default mode in first does not change the defaults. */
  lemma DefaultedWithMode(m: Args, env: Env)
    ensures Mode !in m ==> Defaulted(m[Mode := ModeAll], env) == Defaulted(m, env)
  {
  }

  /**
   * applyDefaultValues succeeds exactly when the defaulted map satisfies the
   * final invariant, and then it returns that map.
   */
  lemma DefaultsResolve(m: Args, env: Env)
    requires PartialInvariant(m, env)
    ensures ApplyDefaults(m, env).Success? <==> ResolvedInvariant(Defaulted(m, env), env)
    ensures ApplyDefaults(m, env).Success? ==> ApplyDefaults(m, env).value == Defaulted(m, env)
  {
    var d := Defaulted(m, env);
    ModeCheckIff(m, env);
    DefaultedValues(m, env);
    FolderFormCheckIff(d, env);
    PathCheckIff(d, env);
  }

  /** After successful construction the configuration satisfies the final invariant. */
  lemma ResolveSound(args: seq<string>, env: Env)
    requires Resolve(args, env).Success?
    ensures ResolvedInvariant(Resolve(args, env).value, env)
  {
    ParsedInvariant(args, env);
    DefaultsResolve(ParseTokens(args, env).value, env);
  }

  /**
   * After successful construction the four defaulted options hold the given
   * value or their default, and every other option is present exactly when
   * a token names it.
   */
  lemma ResolvedValues(args: seq<string>, env: Env)
    requires Resolve(args, env).Success?
    ensures var r := Resolve(args, env).value;
      && r[Mode] == GivenValue(args, Mode, env).GetOr(ModeAll)
      && r[Overwrite] == GivenValue(args, Overwrite, env).GetOr(OverwriteNone)
      && r[PathType] == GivenValue(args, PathType, env).GetOr(PathTypeRelative)
      && r[Folder] == GivenValue(args, Folder, env).GetOr(
           if r[PathType] == PathTypeRelative then "." else env.workingDirectory)
    ensures var r := Resolve(args, env).value;
      forall o :: o != Mode && o != Overwrite && o != PathType && o != Folder ==>
        (o in r <==> GivenValue(args, o, env).Some?) &&
        (o in r ==> r[o] == GivenValue(args, o, env).value)
  {
    var m := ParseTokens(args, env).value;
    ParsedMap(args, env);
    ParsedInvariant(args, env);
    DefaultsResolve(m, env);
  }

  /** Each token of a successful parse met its option's rules against the map built before it. */
  lemma AdmittedAt(args: seq<string>, i: nat, env: Env)
    requires ParseTokens(args, env).Success? && i < |args|
    ensures ParseTokens(args[..i], env).Success? && Dispatch(args[i]).Some?
    ensures Admissible(ParseTokens(args[..i], env).value, Dispatch(args[i]).value, args[i], env)
  {
    PrefixSucceeds(args, i + 1, env);
    LastStep(args[..i + 1], env);
    LastOfPrefix(args, i);
  }

  /** An option in the map built from the first `i` tokens was stored by one of them. */
  lemma StoredBefore(args: seq<string>, i: nat, o: Opt, env: Env)
    requires i <= |args| && ParseTokens(args[..i], env).Success?
    requires o in ParseTokens(args[..i], env).value
    ensures exists j :: (0 <= j < i && Dispatch(args[j]) == Some(o) &&
      Stored(o, args[j], env) == ParseTokens(args[..i], env).value[o])
  {
    ParsedKey(args[..i], o, env);
    GivenValueFrom(args[..i], o, env);
    var j :| 0 <= j < i && Dispatch(args[..i][j]) == Some(o) &&
      Stored(o, args[..i][j], env) == GivenValue(args[..i], o, env).value;
    assert args[..i][j] == args[j];
  }

  /** An accepted `-path` comes after a `-mode=single`. */
  lemma PathAfterSingleMode(args: seq<string>, i: nat, env: Env)
    requires ParseTokens(args, env).Success? && i < |args| && Dispatch(args[i]) == Some(Path)
    ensures exists j :: 0 <= j < i && Dispatch(args[j]) == Some(Mode) && SplitValue(args[j]) == Some(ModeSingle)
  {
    AdmittedAt(args, i, env);
    StoredBefore(args, i, Mode, env);
  }

  /** An accepted `-regex` comes after a `-mode=regex`. */
  lemma RegexAfterRegexMode(args: seq<string>, i: nat, env: Env)
    requires ParseTokens(args, env).Success? && i < |args| && Dispatch(args[i]) == Some(Regex)
    ensures exists j :: 0 <= j < i && Dispatch(args[j]) == Some(Mode) && SplitValue(args[j]) == Some(ModeRegex)
  {
    AdmittedAt(args, i, env);
    StoredBefore(args, i, Mode, env);
  }

  /** An accepted `-folder` comes after a `-mode=all` or a `-mode=regex`. */
  lemma FolderAfterSearchMode(args: seq<string>, i: nat, env: Env)
    requires ParseTokens(args, env).Success? && i < |args| && Dispatch(args[i]) == Some(Folder)
    ensures exists j :: (0 <= j < i && Dispatch(args[j]) == Some(Mode) &&
      (SplitValue(args[j]) == Some(ModeAll) || SplitValue(args[j]) == Some(ModeRegex)))
  {
    AdmittedAt(args, i, env);
    StoredBefore(args, i, Mode, env);
  }

  /** An accepted `-pathType` comes after a `-path` or a `-folder`. */
  lemma PathTypeAfterPathOrFolder(args: seq<string>, i: nat, env: Env)
    requires ParseTokens(args, env).Success? && i < |args| && Dispatch(args[i]) == Some(PathType)
    ensures exists j :: 0 <= j < i && (Dispatch(args[j]) == Some(Path) || Dispatch(args[j]) == Some(Folder))
  {
    AdmittedAt(args, i, env);
    var m := ParseTokens(args[..i], env).value;
    if Path in m {
      StoredBefore(args, i, Path, env);
    } else {
      StoredBefore(args, i, Folder, env);
    }
  }

  /** The map after `i + 1` tokens is one more step from the map after `i`. */
  lemma StepAt(args: seq<string>, i: nat, env: Env)
    requires i < |args| && ParseTokens(args[..i], env).Success?
    ensures ParseTokens(args[..i + 1], env) == Step(ParseTokens(args[..i], env).value, args[i], env)
  {
    LastOfPrefix(args, i);
  }

  /** The first token that names no option stops the run with an error naming that token. */
  lemma UnknownTokenFails(args: seq<string>, i: nat, env: Env)
    requires i < |args| && ParseTokens(args[..i], env).Success? && Dispatch(args[i]).None?
    ensures Resolve(args, env) == Failure(UnknownArgument(args[i]))
  {
    StepAt(args, i, env);
    FailurePersists(args, i + 1, env);
  }

  /** An option no token names is not in the parsed map. */
  lemma AbsentWhenUnnamed(args: seq<string>, i: nat, o: Opt, env: Env)
    requires i <= |args| && ParseTokens(args[..i], env).Success?
    requires forall j :: 0 <= j < i ==> Dispatch(args[j]) != Some(o)
    ensures o !in ParseTokens(args[..i], env).value
  {
    assert forall j :: 0 <= j < i ==> args[..i][j] == args[j];
    ParsedKey(args[..i], o, env);
    GivenValueNone(args[..i], o, env);
  }

  /** A `-path`, `-regex` or `-folder` met before any `-mode` stops the run. */
  lemma ModeMustComeFirst(args: seq<string>, i: nat, env: Env)
    requires i < |args| && ParseTokens(args[..i], env).Success?
    requires Dispatch(args[i]) == Some(Path) || Dispatch(args[i]) == Some(Regex) || Dispatch(args[i]) == Some(Folder)
    requires forall j :: 0 <= j < i ==> Dispatch(args[j]) != Some(Mode)
    ensures Resolve(args, env) == Failure(ModeRequired(Dispatch(args[i]).value))
  {
    AbsentWhenUnnamed(args, i, Mode, env);
    ParsedInvariant(args[..i], env);
    StepWithoutMode(ParseTokens(args[..i], env).value, args[i], env);
    StepAt(args, i, env);
    FailurePersists(args, i + 1, env);
  }

  /** One step of `-path`, `-regex` or `-folder` against a map with no mode. */
  lemma StepWithoutMode(m: Args, arg: string, env: Env)
    requires PartialInvariant(m, env) && Mode !in m
    requires Dispatch(arg) == Some(Path) || Dispatch(arg) == Some(Regex) || Dispatch(arg) == Some(Folder)
    ensures Step(m, arg, env) == Failure(ModeRequired(Dispatch(arg).value))
  {
  }

  /**
   * A second token for an option already parsed stops the run; for the
   * options that test it first, the error is the duplicate error.
   */
  lemma SecondOccurrenceFails(args: seq<string>, j: nat, i: nat, env: Env)
    requires j < i < |args| && ParseTokens(args[..i], env).Success?
    requires Dispatch(args[j]).Some? && Dispatch(args[i]) == Dispatch(args[j])
    ensures Resolve(args, env).Failure?
    ensures Dispatch(args[i]).value in {Folder, Overwrite, PathType, Logfile, Recursive, Mute} ==>
      Resolve(args, env) == Failure(Duplicate(Dispatch(args[i]).value))
  {
    var o := Dispatch(args[i]).value;
    var m := ParseTokens(args[..i], env).value;
    assert args[..i][j] == args[j];
    if o !in m {
      NotNamed(args[..i], o, env);
      assert false;
    }
    StepOnDuplicate(m, args[i], env);
    StepAt(args, i, env);
    FailurePersists(args, i + 1, env);
  }

  /** One step for an option already in the map. */
  lemma StepOnDuplicate(m: Args, arg: string, env: Env)
    requires Dispatch(arg).Some? && Dispatch(arg).value in m
    ensures Step(m, arg, env).Failure?
    ensures Dispatch(arg).value in {Folder, Overwrite, PathType, Logfile, Recursive, Mute} ==>
      Step(m, arg, env) == Failure(Duplicate(Dispatch(arg).value))
  {
  }

  /**
   * parsePathType reads its value last: a duplicate, or a `-pathType` before
   * any `-path` or `-folder`, fails the same way with or without a value.
   */
  lemma PathTypeChecksBeforeValue(m: Args, arg: string, env: Env)
    requires Dispatch(arg) == Some(PathType)
    ensures PathType in m ==> Step(m, arg, env) == Failure(Duplicate(PathType))
    ensures PathType !in m && Path !in m && Folder !in m ==>
      Step(m, arg, env) == Failure(PathTypeWithoutPath)
    ensures PathType !in m && (Path in m || Folder in m) && SplitValue(arg).None? ==>
      Step(m, arg, env) == Failure(MissingValue(arg))
  {
    StepIsHandler(m, arg, PathType, env);
  }

  /** A lone `-pathType` fails because no `-path` or `-folder` came before it. */
  lemma LonePathTypeFails(env: Env)
    ensures Resolve(["-pathType"], env) == Failure(PathTypeWithoutPath)
  {
    DispatchByKey("-pathType");
    assert ["-pathType"][..0] == [];
    PathTypeChecksBeforeValue(map[], "-pathType", env);
  }

  /**
   * parseRegex reads its value inside the try block that compiles it, so a
   * `-regex` token without a value fails with the regex error.
   */
  lemma ValuelessRegexIsRegexError(m: Args, arg: string, env: Env)
    requires Dispatch(arg) == Some(Regex) && SplitValue(arg).None?
    requires Mode in m && m[Mode] == ModeRegex
    ensures Step(m, arg, env) == Failure(InvalidRegex(None))
  {
    StepIsHandler(m, arg, Regex, env);
  }

  /** `-mode=single` without a `-path` fails in applyDefaultValues. */
  lemma SingleModeNeedsPath(args: seq<string>, env: Env)
    requires ParseTokens(args, env).Success?
    requires GivenValue(args, Mode, env) == Some(ModeSingle) && GivenValue(args, Path, env).None?
    ensures Resolve(args, env) == Failure(SingleModeWithoutPath)
  {
    ParsedKey(args, Mode, env);
    ParsedKey(args, Path, env);
  }

  /** `-mode=regex` without a `-regex` fails in applyDefaultValues. */
  lemma RegexModeNeedsPattern(args: seq<string>, env: Env)
    requires ParseTokens(args, env).Success?
    requires GivenValue(args, Mode, env) == Some(ModeRegex) && GivenValue(args, Regex, env).None?
    ensures Resolve(args, env) == Failure(RegexModeWithoutPattern)
  {
    ParsedKey(args, Mode, env);
    ParsedKey(args, Regex, env);
  }

  /** An option is in the resolved map exactly when a token names it or a default supplies it. */
  lemma ResolvedKey(args: seq<string>, o: Opt, env: Env)
    requires Resolve(args, env).Success?
    ensures o in Resolve(args, env).value <==>
      o in {Mode, Overwrite, PathType, Folder} || exists i :: 0 <= i < |args| && Dispatch(args[i]) == Some(o)
  {
    var m := ParseTokens(args, env).value;
    ParsedInvariant(args, env);
    DefaultsResolve(m, env);
    ParsedKey(args, o, env);
    GivenValueNone(args, o, env);
  }

  /** isRecursive and isMuted: the flag is set exactly when its token appears verbatim. */
  lemma FlagIffToken(args: seq<string>, o: Opt, env: Env)
    requires Resolve(args, env).Success? && (o == Recursive || o == Mute)
    ensures o in Resolve(args, env).value <==> Key(o) in args
  {
    ResolvedKey(args, o, env);
    forall i | 0 <= i < |args|
      ensures Dispatch(args[i]) == Some(o) <==> args[i] == Key(o)
    {
      DispatchByKey(args[i]);
    }
  }

  /** The tokens that name `-logfile` are those that start with it. */
  lemma LogfileTokens(args: seq<string>)
    ensures forall i :: 0 <= i < |args| ==> (Dispatch(args[i]) == Some(Logfile) <==> StartsWith(args[i], Key(Logfile)))
  {
    forall i | 0 <= i < |args|
      ensures Dispatch(args[i]) == Some(Logfile) <==> StartsWith(args[i], Key(Logfile))
    {
      DispatchByKey(args[i]);
    }
  }

  /** isLogging: some token starts with `-logfile`. */
  lemma LoggingIffToken(args: seq<string>, env: Env)
    requires Resolve(args, env).Success?
    ensures Logfile in Resolve(args, env).value <==>
      exists i :: 0 <= i < |args| && StartsWith(args[i], Key(Logfile))
  {
    ResolvedKey(args, Logfile, env);
    LogfileTokens(args);
  }

  /** isAutoLogging: the `-logfile` token carries the value `auto`. */
  lemma AutoLoggingIffToken(args: seq<string>, env: Env)
    requires Resolve(args, env).Success?
    ensures (Logfile in Resolve(args, env).value && Resolve(args, env).value[Logfile] == LogAuto) <==>
      exists i :: 0 <= i < |args| && StartsWith(args[i], Key(Logfile)) && SplitValue(args[i]) == Some(LogAuto)
  {
    var r := Resolve(args, env).value;
    if Logfile in r && r[Logfile] == LogAuto {
      AutoLoggingGiven(args, env);
    }
    if i :| 0 <= i < |args| && StartsWith(args[i], Key(Logfile)) && SplitValue(args[i]) == Some(LogAuto) {
      AutoLoggingFromToken(args, i, env);
    }
  }

  /** Auto logging comes from a `-logfile` token whose value is `auto`. */
  lemma AutoLoggingGiven(args: seq<string>, env: Env)
    requires Resolve(args, env).Success?
    requires Logfile in Resolve(args, env).value && Resolve(args, env).value[Logfile] == LogAuto
    ensures exists i :: 0 <= i < |args| && StartsWith(args[i], Key(Logfile)) && SplitValue(args[i]) == Some(LogAuto)
  {
    ResolvedValues(args, env);
    GivenValueFrom(args, Logfile, env);
    LogfileTokens(args);
  }

  /** A `-logfile=auto` token in a successful command line turns auto logging on. */
  lemma AutoLoggingFromToken(args: seq<string>, i: nat, env: Env)
    requires Resolve(args, env).Success? && i < |args|
    requires StartsWith(args[i], Key(Logfile)) && SplitValue(args[i]) == Some(LogAuto)
    ensures Logfile in Resolve(args, env).value && Resolve(args, env).value[Logfile] == LogAuto
  {
    LogfileTokens(args);
    ParsedOnce(args, env);
    ResolvedValues(args, env);
    GivenValueNone(args, Logfile, env);
    GivenValueFrom(args, Logfile, env);
    var j :| 0 <= j < |args| && Dispatch(args[j]) == Some(Logfile) &&
      Stored(Logfile, args[j], env) == GivenValue(args, Logfile, env).value;
    assert i == j;
  }

  /** A bare `-mode` names no option: only `-mode=` is matched together with its `=`. */
  lemma BareModeIsUnknown(env: Env)
    ensures Resolve(["-mode"], env) == Failure(UnknownArgument("-mode"))
  {
    DispatchByKey("-mode");
    assert !StartsWith("-mode", "-mode=");
    assert ["-mode"][..0] == [];
  }

  /** Every other option is matched on its prefix alone: `-folderX=...` is a folder token. */
  lemma PrefixMatchesOption(o: Opt, rest: string)
    requires o != Mode && o != Path && o != Recursive && o != Mute
    ensures Dispatch(Key(o) + rest) == Some(o)
  {
    var arg := Key(o) + rest;
    assert arg[..|Key(o)|] == Key(o);
    DispatchByKey(arg);
  }

  /** `key=value` for an option matched by prefix names that option and carries the value. */
  lemma KeyedToken(o: Opt, v: string)
    requires o != Mode && o != Path && o != Recursive && o != Mute
    requires v != "" && '=' !in v
    ensures Dispatch(Key(o) + "=" + v) == Some(o) && SplitValue(Key(o) + "=" + v) == Some(v)
  {
    PrefixMatchesOption(o, "=" + v);
    assert Key(o) + "=" + v == Key(o) + ("=" + v);
    ValueAfterEquals(Key(o), v);
  }

  /**
   * parseFolder tests for `File.pathSeparator` (the list separator) where
   * `File.separator` is meant, so a folder already ending with the separator
   * gets a second one on any platform where the two differ.
   */
  lemma FolderSeparatorDoubled(folder: string, env: Env)
    requires env.separator != env.pathSeparator && EndsWith(folder, [env.separator])
    ensures NormalizeFolder(folder, env) == folder + [env.separator]
    ensures EndsWith(NormalizeFolder(folder, env), [env.separator, env.separator])
  {
    var n := NormalizeFolder(folder, env);
    assert n[|n| - 2..] == [env.separator, env.separator];
  }

  /** How `-mode=single` is read. */
  lemma SingleModeToken()
    ensures Dispatch("-mode=single") == Some(Mode) && SplitValue("-mode=single") == Some(ModeSingle)
  {
    var t := "-mode=single";
    assert t[..6] == "-mode=";
    DispatchByKey(t);
    assert "-mode" + "=" + "single" == t;
    ValueAfterEquals("-mode", "single");
  }

  /** How `-path=p` is read. */
  lemma PathToken(p: string)
    requires p != "" && '=' !in p
    ensures Dispatch("-path=" + p) == Some(Path) && SplitValue("-path=" + p) == Some(p)
  {
    var t := "-path=" + p;
    assert t[..5] == "-path" && t[5] == '=';
    DispatchByKey(t);
    assert "-path" + "=" + p == t;
    ValueAfterEquals("-path", p);
  }

  /**
   * Under mode single, `-path=/` on a system whose separator is `/` fails
   * because the root has no file name, before the extension is looked at.
   */
  lemma RootPathHasNoFileName(env: Env)
    requires env.separator == '/'
    ensures PathStep(map[Mode := ModeSingle], "-path=/", env) == Failure(NoFileName("/"))
  {
    PathToken("/");
    assert "-path=" + "/" == "-path=/";
    assert StripTrailing("/", '/') == StripTrailing("", '/');
  }

  /** How `-pathType=absolute` is read. */
  lemma AbsoluteTypeToken()
    ensures Dispatch("-pathType=absolute") == Some(PathType)
    ensures SplitValue("-pathType=absolute") == Some(PathTypeAbsolute)
  {
    KeyedToken(PathType, "absolute");
    assert Key(PathType) + "=" + "absolute" == "-pathType=absolute";
  }

  /** Three accepted tokens in a row. */
  lemma ParseThree(a: string, b: string, c: string, m1: Args, m2: Args, m3: Args, env: Env)
    requires Step(map[], a, env) == Success(m1) && Step(m1, b, env) == Success(m2)
    requires Step(m2, c, env) == Success(m3)
    ensures ParseTokens([a, b, c], env) == Success(m3)
  {
    var args := [a, b, c];
    assert args[..0] == [];
    StepAt(args, 0, env);
    StepAt(args, 1, env);
    StepAt(args, 2, env);
    assert args[..3] == args;
  }

  /** A token naming `o` with value `v` that meets the rules against `m` adds just that entry. */
  lemma AcceptedStep(m: Args, o: Opt, arg: string, v: string, env: Env)
    requires o != Folder && o != Recursive && o != Mute
    requires Dispatch(arg) == Some(o) && SplitValue(arg) == Some(v) && Admissible(m, o, arg, env)
    ensures Step(m, arg, env) == Success(m[o := v])
  {
  }

  /** `-mode=single` on an empty map, then a pdf path, are both accepted. */
  lemma SingleModeThenPath(mode: string, path: string, env: Env)
    requires Dispatch(mode) == Some(Mode) && SplitValue(mode) == Some(ModeSingle)
    requires Dispatch(path) == Some(Path) && SplitValue(path).Some?
    requires HasPdfExtension(SplitValue(path).value, env)
    ensures Step(map[], mode, env) == Success(map[Mode := ModeSingle])
    ensures Step(map[Mode := ModeSingle], path, env) ==
      Success(map[Mode := ModeSingle, Path := SplitValue(path).value])
  {
    AcceptedStep(map[], Mode, mode, ModeSingle, env);
    AcceptedStep(map[Mode := ModeSingle], Path, path, SplitValue(path).value, env);
  }

  /** Mode single, a pdf path and an absolute path type are parsed into their three entries. */
  lemma SinglePathTokens(mode: string, path: string, pathType: string, env: Env)
    requires Dispatch(mode) == Some(Mode) && SplitValue(mode) == Some(ModeSingle)
    requires Dispatch(path) == Some(Path) && SplitValue(path).Some?
    requires Dispatch(pathType) == Some(PathType) && SplitValue(pathType) == Some(PathTypeAbsolute)
    requires HasPdfExtension(SplitValue(path).value, env)
    ensures ParseTokens([mode, path, pathType], env) ==
      Success(map[Mode := ModeSingle, Path := SplitValue(path).value, PathType := PathTypeAbsolute])
  {
    var m2 := map[Mode := ModeSingle, Path := SplitValue(path).value];
    SingleModeThenPath(mode, path, env);
    AcceptedStep(m2, PathType, pathType, PathTypeAbsolute, env);
    ParseThree(mode, path, pathType, map[Mode := ModeSingle], m2, m2[PathType := PathTypeAbsolute], env);
  }

  /**
   * A relative pdf path under an absolute path type: the folder defaults to
   * the absolute working directory and passes, and the path check then fails.
   */
  lemma RelativePathUnderAbsoluteType(mode: string, path: string, pathType: string, env: Env)
    requires Dispatch(mode) == Some(Mode) && SplitValue(mode) == Some(ModeSingle)
    requires Dispatch(path) == Some(Path) && SplitValue(path).Some?
    requires Dispatch(pathType) == Some(PathType) && SplitValue(pathType) == Some(PathTypeAbsolute)
    requires HasPdfExtension(SplitValue(path).value, env) && !env.isAbsolute(SplitValue(path).value)
    requires env.isAbsolute(env.workingDirectory)
    ensures Resolve([mode, path, pathType], env) == Failure(PathIsRelative)
  {
    SinglePathTokens(mode, path, pathType, env);
    RelativePathDefaults(SplitValue(path).value, env);
  }

  /** applyDefaultValues on a single mode, a relative path and an absolute path type. */
  lemma RelativePathDefaults(p: string, env: Env)
    requires env.isAbsolute(env.workingDirectory) && !env.isAbsolute(p)
    ensures ApplyDefaults(map[Mode := ModeSingle, Path := p, PathType := PathTypeAbsolute], env) ==
      Failure(PathIsRelative)
  {
    var m := map[Mode := ModeSingle, Path := p, PathType := PathTypeAbsolute];
    assert Defaulted(m, env) == m[Overwrite := OverwriteNone][Folder := env.workingDirectory];
  }

  /** The example of the path type check: `report.pdf` given as an absolute path. */
  lemma ReportPdfUnderAbsoluteType(env: Env)
    requires env.separator !in "report.pdf"
    requires env.isAbsolute(env.workingDirectory) && !env.isAbsolute("report.pdf")
    ensures Resolve(["-mode=single", "-path=report.pdf", "-pathType=absolute"], env) == Failure(PathIsRelative)
  {
    SingleModeToken();
    ReportPathToken();
    ReportIsPdf(env);
    AbsoluteTypeToken();
    RelativePathUnderAbsoluteType("-mode=single", "-path=report.pdf", "-pathType=absolute", env);
  }

  /** How `-path=report.pdf` is read. */
  lemma ReportPathToken()
    ensures Dispatch("-path=report.pdf") == Some(Path) && SplitValue("-path=report.pdf") == Some("report.pdf")
  {
    PathToken("report.pdf");
    assert "-path=" + "report.pdf" == "-path=report.pdf";
  }

  /** `report.pdf` passes the pdf test. */
  lemma ReportIsPdf(env: Env)
    requires env.separator !in "report.pdf"
    ensures HasPdfExtension("report.pdf", env)
  {
    FileNameOfPlain("report.pdf", env.separator);
    ReportExtension();
  }

  /** The extension of `report.pdf`. */
  lemma ReportExtension()
    ensures GetExtension("report.pdf") == "pdf"
  {
    assert "report" + "." + "pdf" == "report.pdf";
    ExtensionOf("report", "pdf");
  }
}
