/**
 * Where the program keeps its files: the directory of its own executable
 * (`get_executable_directory`), the process-wide `EXECUTABLE_DIRECTORY`
 * text computed from it once, and the path of a file named beside it.
 * What the operating system answers (`current_exe`, `is_symlink`,
 * `canonicalize`) comes in as parameters.
 */
module ExecDir {
  import opened Wrappers
  import opened Paths

  /** Why the executable's directory could not be found. */
  datatype DirError = CurrentExeFailed | NoParent

  /** The path whose parent is taken: the canonical path of a symlinked executable, if it could be computed, else the path as reported. */
  function ResolvedExe(exe: Path, isSymlink: bool, canonical: Option<Path>): Path
  {
    if isSymlink && canonical.Some? then canonical.value else exe
  }

  /**
   * `get_executable_directory`. `currentExe` is the answer of `current_exe`
   * (none when it failed), `isSymlink` that of `is_symlink`, and `canonical`
   * that of `canonicalize`, which is only consulted for a symlink.
   */
  function ExecutableDirectory(currentExe: Option<Path>, isSymlink: bool, canonical: Option<Path>): Result<Path, DirError>
  {
    match currentExe
    case None => Err(CurrentExeFailed)
    case Some(exe) =>
      match Parent(ResolvedExe(exe, isSymlink, canonical))
      case None => Err(NoParent)
      case Some(dir) => Ok(dir)
  }

  /** The directory `EXECUTABLE_DIRECTORY` falls back to. */
  const CurrentDirectory: Path := Path(false, [FromString(".")])

  /** `EXECUTABLE_DIRECTORY`: the directory's lossy text, or "." when it could not be found. */
  function ExecutableDirectoryText(lookup: Result<Path, DirError>): string
  {
    match lookup
    case Ok(dir) => ToStringLossy(dir)
    case Err(_) => "."
  }

  /** `PathBuf::from(&*EXECUTABLE_DIRECTORY)`: the path that text names. */
  function ExecutableDirectoryPath(lookup: Result<Path, DirError>): Path
  {
    match lookup
    case Ok(dir) => Lossy(dir)
    case Err(_) => CurrentDirectory
  }

  /** `dir.join(name).to_str().unwrap_or(name)`: a file beside `dir`, or the bare name when the joined path is not UTF-8. */
  function FileBeside(dir: Path, name: string): string
  {
    match ToStr(Join(dir, name))
    case Some(s) => s
    case None => name
  }

  /** The name of the environment file. */
  const EnvFileName: string := ".env"

  /** The path of the environment file, as `write_to_default_env_file` and `parse_env_file` compute it. */
  function EnvFilePath(dir: Path): string
  {
    FileBeside(dir, EnvFileName)
  }

  // ---------------------------------------------------------------------
  // Lemmas

  /**
   * The directory found holds the (resolved) executable: it is its parent,
   * so pushing the executable's file name onto it gives the executable back.
   * Lookup fails exactly when `current_exe` fails or the path has no parent.
   */
  lemma ExecutableDirectoryHoldsExe(currentExe: Option<Path>, isSymlink: bool, canonical: Option<Path>)
    ensures currentExe.None? ==> ExecutableDirectory(currentExe, isSymlink, canonical) == Err(CurrentExeFailed)
    ensures currentExe.Some? ==>
      var exe := ResolvedExe(currentExe.value, isSymlink, canonical);
      var r := ExecutableDirectory(currentExe, isSymlink, canonical);
      && (r.Ok? <==> exe.parts != [])
      && (r.Err? ==> r.error == NoParent)
      && (r.Ok? ==> exe == Push(r.value, exe.parts[|exe.parts| - 1]))
  {
    if currentExe.Some? {
      var exe := ResolvedExe(currentExe.value, isSymlink, canonical);
      var r := ExecutableDirectory(currentExe, isSymlink, canonical);
      if r.Ok? {
        ParentUndoesPush(exe, r.value);
      }
    }
  }

  /**
   * The path built from `EXECUTABLE_DIRECTORY` writes out as that very text,
   * and it is the directory itself whenever the directory's name is UTF-8.
   */
  lemma ExecutableDirectoryPathNamesText(lookup: Result<Path, DirError>)
    ensures ToStr(ExecutableDirectoryPath(lookup)) == Some(ExecutableDirectoryText(lookup))
    ensures lookup.Ok? && HasUnicodeParts(lookup.value) ==> ExecutableDirectoryPath(lookup) == lookup.value
    ensures lookup.Err? ==> ExecutableDirectoryText(lookup) == "."
  {
    match lookup {
      case Ok(dir) =>
        LossyToStr(dir);
        if HasUnicodeParts(dir) {
          LossyOfUnicode(dir);
        }
      case Err(_) =>
        var o := AsOsStr(CurrentDirectory);
        assert JoinParts(CurrentDirectory.parts) == FromString(".");
        assert o == [Char('.')];
        assert DecodeLossy(o) == ".";
    }
  }

  /** A file beside a UTF-8 directory is the directory's text, the separator and the name. */
  lemma FileBesideUnicode(dir: Path, name: string)
    requires IsUnicode(AsOsStr(dir))
    ensures FileBeside(dir, name) == DecodeLossy(AsOsStr(dir)) + DecodeLossy(Separator(dir)) + name
  {
    ToStrJoin(dir, name);
  }

  /** Beside a directory whose name is not UTF-8, only the bare name is left. */
  lemma FileBesideNotUnicode(dir: Path, name: string)
    requires !IsUnicode(AsOsStr(dir))
    ensures FileBeside(dir, name) == name
  {
    var o := AsOsStr(dir);
    var i :| 0 <= i < |o| && !o[i].Char?;
    AsOsStrPush(dir, FromString(name));
    assert AsOsStr(Join(dir, name))[i] == o[i];
  }

  /**
   * Beside `EXECUTABLE_DIRECTORY` the fallback to the bare name is never
   * taken: that text is already UTF-8, so the joined path always is too.
   */
  lemma FileBesideExecutableDirectory(lookup: Result<Path, DirError>, name: string)
    ensures var dir := ExecutableDirectoryPath(lookup);
      FileBeside(dir, name) == ExecutableDirectoryText(lookup) + DecodeLossy(Separator(dir)) + name
  {
    var dir := ExecutableDirectoryPath(lookup);
    ExecutableDirectoryPathNamesText(lookup);
    FileBesideUnicode(dir, name);
  }
}
