/**
 * What the program does before it runs a command: `prepare_logger` picks
 * the logger configuration through three fallbacks and sets the log level
 * from `LOGGING_LEVEL`; `PID_FILE` names the file beside the executable;
 * and `main` turns the outcome into the process's exit status.
 * Whether a configuration file initialises the logger, what the embedded
 * asset holds, and what the command returns come in as parameters.
 */
module Startup {
  import opened Wrappers
  import opened Paths
  import opened ExecDir

  // ---------------------------------------------------------------------
  // The log level

  /** `log::LevelFilter`. */
  datatype LevelFilter = Off | Error | Warn | Info | Debug | Trace

  /** The name `prepare_logger` matches for each level, and the default `"off"`. */
  function LevelName(l: LevelFilter): string
  {
    match l
    case Off => "off"
    case Error => "error"
    case Warn => "warn"
    case Info => "info"
    case Debug => "debug"
    case Trace => "trace"
  }

  /** U+212A KELVIN SIGN, the one non-ASCII character whose lowercase form is an ASCII letter. */
  const KelvinSign: char := '\U{212A}'

  /**
   * `char::to_lowercase` as far as the level names can tell: ASCII capitals
   * become small letters and the Kelvin sign becomes `k`; every other
   * character is kept (its lowercase form, if different, is not an ASCII
   * letter, so it cannot make a level name match).
   */
  function LowerChar(c: char): char
  {
    if 'A' <= c <= 'Z' then (c as int + 32) as char
    else if c == KelvinSign then 'k'
    else c
  }

  /** `str::to_lowercase`, character by character. */
  function ToLowercase(s: string): string
  {
    seq(|s|, i requires 0 <= i < |s| => LowerChar(s[i]))
  }

  /**
   * The level `prepare_logger` sets: `LOGGING_LEVEL` (none when it is unset
   * or not Unicode, which reads as `"off"`), lowercased and matched against
   * the five level names; anything else turns logging off.
   */
  function SelectLevel(loggingLevel: Option<string>): LevelFilter
  {
    var name := match loggingLevel case None => "off" case Some(s) => s;
    var lower := ToLowercase(name);
    if lower == "trace" then Trace
    else if lower == "debug" then Debug
    else if lower == "info" then Info
    else if lower == "warn" then Warn
    else if lower == "error" then Error
    else Off
  }

  /** `c` is the small ASCII letter `x` written in either case (or, for `k`, as the Kelvin sign). */
  predicate SameLetter(c: char, x: char)
    requires 'a' <= x <= 'z'
  {
    c == x || c as int == x as int - 32 || (x == 'k' && c == KelvinSign)
  }

  /** `s` spells `name`, a word of small ASCII letters, in any mix of cases. */
  predicate MatchesIgnoringCase(s: string, name: string)
    requires forall i :: 0 <= i < |name| ==> 'a' <= name[i] <= 'z'
  {
    |s| == |name| && forall i :: 0 <= i < |s| ==> SameLetter(s[i], name[i])
  }

  /** Lowercasing a character gives a small letter exactly when the character is that letter in some case. */
  lemma LowerCharIsLetter(c: char, x: char)
    requires 'a' <= x <= 'z'
    ensures LowerChar(c) == x <==> SameLetter(c, x)
  {
  }

  /** Lowercasing gives a word of small letters exactly when the text spells it in some mix of cases. */
  lemma ToLowercaseMatches(s: string, name: string)
    requires forall i :: 0 <= i < |name| ==> 'a' <= name[i] <= 'z'
    ensures ToLowercase(s) == name <==> MatchesIgnoringCase(s, name)
  {
    var lower := ToLowercase(s);
    forall i | 0 <= i < |s| && i < |name| ensures lower[i] == name[i] <==> SameLetter(s[i], name[i]) {
      LowerCharIsLetter(s[i], name[i]);
    }
    if MatchesIgnoringCase(s, name) {
      assert lower == name;
    }
  }

  /** Lowercasing twice is lowercasing once: what `to_lowercase` gives has no capitals left. */
  lemma ToLowercaseIdempotent(s: string)
    ensures ToLowercase(ToLowercase(s)) == ToLowercase(s)
  {
    var lower := ToLowercase(s);
    forall i | 0 <= i < |s| ensures LowerChar(lower[i]) == lower[i] {
      assert lower[i] == LowerChar(s[i]);
    }
  }

  /**
   * Each of the five levels is selected exactly when `LOGGING_LEVEL` spells
   * its name, whatever the case of its letters.
   */
  lemma SelectLevelIgnoresCase(s: string, l: LevelFilter)
    requires l != Off
    ensures SelectLevel(Some(s)) == l <==> MatchesIgnoringCase(s, LevelName(l))
  {
    ToLowercaseMatches(s, LevelName(l));
  }

  /**
   * Logging is off exactly when `LOGGING_LEVEL` spells none of the five
   * names, and in particular when it is unset.
   */
  lemma SelectLevelOff(loggingLevel: Option<string>)
    ensures loggingLevel.None? ==> SelectLevel(loggingLevel) == Off
    ensures loggingLevel.Some? ==>
      (SelectLevel(loggingLevel) == Off <==>
        forall l :: l != Off ==> !MatchesIgnoringCase(loggingLevel.value, LevelName(l)))
  {
    if loggingLevel.Some? {
      var s := loggingLevel.value;
      forall l | l != Off ensures SelectLevel(loggingLevel) == l <==> MatchesIgnoringCase(s, LevelName(l)) {
        SelectLevelIgnoresCase(s, l);
      }
      var r := SelectLevel(loggingLevel);
      if r != Off {
        SelectLevelIgnoresCase(s, r);
      }
    }
  }

  /** Every level's own name selects it, `"off"` included. */
  lemma LevelNameSelects(l: LevelFilter)
    ensures SelectLevel(Some(LevelName(l))) == l
  {
    var name := LevelName(l);
    assert ToLowercase(name) == name;
  }

  // ---------------------------------------------------------------------
  // The logger configuration

  /** Where the logger configuration was read from. */
  datatype ConfigSource = ConfigFile(path: Path) | Embedded

  /** How `prepare_logger` ended. */
  datatype LoggerOutcome =
    | Ready(source: ConfigSource, level: LevelFilter)  // returned Ok after setting the level
    | InitFailed                                       // `init_raw_config` failed, returned by `?`
    | Panicked                                         // an `unwrap` failed

  /** The configuration file's name. */
  const ConfigFileName: string := "log4rs.yml"

  /** `log4rs.yml` in the current directory, a relative path. */
  const CwdConfig: Path := Path(false, [FromString(ConfigFileName)])

  /** `log4rs.yml` beside the executable: none when the executable's path has no parent (the `unwrap` panics). */
  function ExeDirConfig(exe: Path): Option<Path>
  {
    match Parent(exe)
    case None => None
    case Some(dir) => Some(Join(dir, ConfigFileName))
  }

  /**
   * `prepare_logger`. `initFile` says whether `log4rs::init_file` succeeds
   * on a path; `currentExe` is the answer of `current_exe` (none when it
   * failed); `embeddedParses` says whether the embedded `log4rs.yaml` is
   * there, is UTF-8 and parses (its three `unwrap`s); `rawInitOk` whether
   * `init_raw_config` accepts it; `loggingLevel` is `LOGGING_LEVEL`.
   * `tried` lists the configurations tried, in order.
   */
  method PrepareLogger(initFile: Path -> bool, currentExe: Option<Path>, embeddedParses: bool,
                       rawInitOk: bool, loggingLevel: Option<string>)
    returns (tried: seq<ConfigSource>, outcome: LoggerOutcome)
    // the current directory's file comes first, and each later one only after the ones before failed
    ensures 1 <= |tried| <= 3 && tried[0] == ConfigFile(CwdConfig)
    ensures forall i :: 0 <= i < |tried| - 1 ==> tried[i].ConfigFile? && !initFile(tried[i].path)
    // the executable's directory is tried when the first file failed and `current_exe` answered
    ensures |tried| >= 2 && tried[1].ConfigFile? <==>
      !initFile(CwdConfig) && currentExe.Some? && ExeDirConfig(currentExe.value).Some?
    ensures |tried| >= 2 && tried[1].ConfigFile? ==> tried[1].path == ExeDirConfig(currentExe.value).value
    // the embedded configuration is the last resort
    ensures Embedded in tried <==>
      && !initFile(CwdConfig)
      && (currentExe.Some? ==> ExeDirConfig(currentExe.value).Some? && !initFile(ExeDirConfig(currentExe.value).value))
    ensures Embedded in tried ==> tried[|tried| - 1] == Embedded
    // how it ends
    ensures outcome.Panicked? <==>
      || (!initFile(CwdConfig) && currentExe.Some? && ExeDirConfig(currentExe.value).None?)
      || (Embedded in tried && !embeddedParses)
    ensures outcome.InitFailed? <==> Embedded in tried && embeddedParses && !rawInitOk
    ensures outcome.Ready? ==>
      && outcome.source == tried[|tried| - 1]
      && (outcome.source.ConfigFile? ==> initFile(outcome.source.path))
      && outcome.level == SelectLevel(loggingLevel)
  {
    tried := [ConfigFile(CwdConfig)];
    var initLog := initFile(CwdConfig);
    if !initLog && currentExe.Some? {
      var exeDir := Parent(currentExe.value);
      if exeDir.None? {
        outcome := Panicked;
        return;
      }
      var config := Join(exeDir.value, ConfigFileName);
      tried := tried + [ConfigFile(config)];
      initLog := initFile(config);
    }
    if !initLog {
      tried := tried + [Embedded];
      if !embeddedParses {
        outcome := Panicked;
        return;
      }
      if !rawInitOk {
        outcome := InitFailed;
        return;
      }
    }
    outcome := Ready(tried[|tried| - 1], SelectLevel(loggingLevel));
  }

  // ---------------------------------------------------------------------
  // The PID file

  /** The PID file's name. */
  const PidFileName: string := "fs-proxy.pid"

  /** `PID_FILE`: the PID file beside `EXECUTABLE_DIRECTORY`, or its bare name when that path is not UTF-8. */
  function PidFile(lookup: Result<Path, DirError>): string
  {
    FileBeside(ExecutableDirectoryPath(lookup), PidFileName)
  }

  /**
   * `PID_FILE` is always the text of `EXECUTABLE_DIRECTORY` followed by the
   * file name: the fallback to the bare name is never taken. The directory
   * text is "." when the executable's directory could not be found.
   */
  lemma PidFileBesideExecutable(lookup: Result<Path, DirError>)
    ensures var dir := ExecutableDirectoryPath(lookup);
      PidFile(lookup) == ExecutableDirectoryText(lookup) + DecodeLossy(Separator(dir)) + PidFileName
    ensures lookup.Err? ==> PidFile(lookup) == "./" + PidFileName
  {
    FileBesideExecutableDirectory(lookup, PidFileName);
    ExecutableDirectoryPathNamesText(lookup);
  }

  /** The PID file and the `.env` file lie in the same directory and are different files. */
  lemma PidFileBesideEnvFile(lookup: Result<Path, DirError>)
    ensures var dir := ExecutableDirectoryPath(lookup);
      var prefix := ExecutableDirectoryText(lookup) + DecodeLossy(Separator(dir));
      && PidFile(lookup) == prefix + PidFileName
      && EnvFilePath(dir) == prefix + EnvFileName
      && PidFile(lookup) != EnvFilePath(dir)
  {
    var dir := ExecutableDirectoryPath(lookup);
    PidFileBesideExecutable(lookup);
    FileBesideExecutableDirectory(lookup, EnvFileName);
    assert |PidFile(lookup)| != |EnvFilePath(dir)|;
  }

  // ---------------------------------------------------------------------
  // The exit status

  /** What `Cli::parse` does: parse the arguments, or print help or an error and exit. */
  datatype CliOutcome = Parsed | InfoShown | UsageError

  /**
   * The process's exit status. A failed logger setup makes `main` return an
   * error (status 1) before the arguments are parsed; a panic ends the
   * process with status 101; `clap` exits with 0 after help or version
   * output and with 2 on a usage error; a failed command calls `exit(1)`.
   */
  function ExitStatus(logger: LoggerOutcome, cli: CliOutcome, commandOk: bool): (code: int)
    ensures code in {0, 1, 2, 101}
    ensures code == 0 <==> logger.Ready? && (cli == InfoShown || (cli == Parsed && commandOk))
    ensures code == 1 <==> logger.InitFailed? || (logger.Ready? && cli == Parsed && !commandOk)
    ensures code == 2 <==> logger.Ready? && cli == UsageError
    ensures code == 101 <==> logger.Panicked?
  {
    match logger
    case Panicked => 101
    case InitFailed => 1
    case Ready(_, _) =>
      match cli
      case InfoShown => 0
      case UsageError => 2
      case Parsed => if commandOk then 0 else 1
  }
}
