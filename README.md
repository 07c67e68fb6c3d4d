# fs-proxy start-up and `.env` handling, in Dafny

fs-proxy is a small command-line program. When it starts it:

- sets up its logger;
- works out the directory its executable lives in;
- keeps two files there: a PID file and a `.env` file of `key=value` settings.

This project models that core and proves what it promises:

- **Finding the executable's directory** (`ExecDir`):
  - `get_executable_directory` follows a symlinked executable to its canonical path and takes the parent.
  - `EXECUTABLE_DIRECTORY` is that directory's lossy text, or `"."` when it cannot be found.
  - The `.env` path is `EXECUTABLE_DIRECTORY` joined with `.env`, falling back to the bare name when the path is not UTF-8.
  - A proof shows the fallback can never be taken.
- **Paths** (`Paths`) are values:
  - a path is an optional root plus components;
  - a component is an OS string, whose units may be invalid UTF-8;
  - `parent`, `join`/`push`, `to_str` and `to_string_lossy` are modelled.
- **String primitives** (`Text`) follow the meaning Rust's standard library gives them:
  - `trim` and `trim_matches` strip every leading and trailing match;
  - whitespace is the Unicode White_Space set;
  - `find` returns the first position;
  - `BufRead::lines` splits at `\n` and drops a `\r` only before a `\n`.
- **Reading `.env`** (`EnvFile`): `parse_env_file` is the iterator pipeline over the file's lines, as functions:
  - trim each line;
  - drop blank lines and `#` comments;
  - split at the first `=` and trim both halves;
  - strip `"` and then `'` from the value;
  - collect into a map in which a later key overrides an earlier one.
- **Writing `.env`** (`EnvFile.FileSystem`): `write_to_env_file` is a method on a file-system object whose `files` map (path to text) it updates in place.
  - The file is opened for appending and created when missing.
  - A loop appends one `key=value\n` line per entry, in the map's iteration order.
  - The caller does not choose that order: the loop picks any key not yet written, and the order taken is returned as a ghost value.
- **Start-up** (`Startup`):
  - `prepare_logger` is a method. It tries `log4rs.yml` in the current directory, then `log4rs.yml` beside the executable, then the embedded `log4rs.yaml`. It then sets the level named by `LOGGING_LEVEL`, matched regardless of case, with `"off"` as the default.
  - `PID_FILE` is the PID file's path.
  - `main` turns the outcome into the process's exit status.

These results come in as parameters, because the model has no way to compute them:

- the operating system's answers: `current_exe`, `is_symlink`, `canonicalize`;
- whether a file opens or a write succeeds;
- whether log4rs accepts a configuration;
- what the command returns.

## Model

| member | source | states |
|---|---|---|
| `Text.Find` | src/util/mod.rs:106 | `find('=')` gives the position of the first `=`, and nothing exactly when the line has none |
| `Text.LinesHaveNoNewline` | src/util/mod.rs:101 | the lines read never contain `\n`, and a text has no lines only when it is empty |
| `Text.StripStartShape` | src/util/mod.rs:103 | trimming the front leaves a suffix that does not start with whitespace, and everything removed is whitespace |
| `Text.StripEndShape` | src/util/mod.rs:103 | trimming the back leaves a prefix that does not end with whitespace, and everything removed is whitespace |
| `Text.StripCommutes` | src/util/mod.rs:103 | trimming the front and the back may happen in either order |
| `Text.LinesAppend` | src/util/mod.rs:101 | a text that ends its last line splits into its own lines followed by the lines of what follows it |
| `Paths.ParentUndoesPush` | src/util/mod.rs:30-32 | `parent` is defined exactly for paths with a last component, and undoes pushing it |
| `Paths.LossyToStr` | src/util/mod.rs:13 | the path rebuilt from the lossy text is valid UTF-8 and reads back as that same text |
| `Paths.FromStringRoundTrip` | src/util/mod.rs:58-61 | a file name given as a Rust string is valid UTF-8 in the path and reads back unchanged |
| `Paths.ReplaceInvalidKeepsText` | src/util/mod.rs:13 | `to_string_lossy`'s replacement gives valid UTF-8 with the same lossy text and leaves valid text alone |
| `Paths.AsOsStrLossy` | src/util/mod.rs:13 | the path built from the lossy text is the original path with every invalid unit replaced |
| `Paths.ToStrJoin` | src/util/mod.rs:58-61 | joining a UTF-8 directory with a name reads as the directory, a separator (none after a root or an empty path) and the name |
| `ExecDir.ExecutableDirectoryHoldsExe` | src/util/mod.rs:18-35 | lookup fails exactly when `current_exe` fails or the resolved path has no parent; otherwise the directory holds the resolved executable |
| `ExecDir.ExecutableDirectoryPathNamesText` | src/util/mod.rs:11-15 | the path built from `EXECUTABLE_DIRECTORY` writes out as that text; it is `"."` after a failed lookup and the directory itself when that is UTF-8 |
| `ExecDir.FileBesideUnicode` | src/util/mod.rs:58-62 | beside a UTF-8 directory the joined path is the directory's text, the separator and the name |
| `ExecDir.FileBesideNotUnicode` | src/util/mod.rs:58-62 | beside a directory that is not UTF-8 only the bare name is left |
| `ExecDir.FileBesideExecutableDirectory` | src/util/mod.rs:58-62 | beside `EXECUTABLE_DIRECTORY` the fallback to the bare `.env` is never taken |
| `EnvFile.ParseLineSkips` | src/util/mod.rs:103-106 | a line gives no entry exactly when it is blank, a `#` comment after optional whitespace, or has no `=` |
| `EnvFile.ParseLineSplit` | src/util/mod.rs:105-114 | a non-comment line splits at its first `=` into the trimmed key and the trimmed, unquoted value, whatever follows |
| `EnvFile.ParseFormattedLine` | src/util/mod.rs:105-114 | a `key=value` line of a plain entry parses back as exactly that entry |
| `EnvFile.LinesOfFormattedLine` | src/util/mod.rs:49 | the line written for a plain entry reads back as one line, `key=value` |
| `EnvFile.EntriesAppend` | src/util/mod.rs:103-116 | the filter and `filter_map` steps work line by line |
| `EnvFile.CollectAppend` | src/util/mod.rs:117 | collecting more entries overrides the earlier ones key by key |
| `EnvFile.ParseEnvAppend` | src/util/mod.rs:100-117 | parsing two stretches of lines gives the first map overridden by the second |
| `EnvFile.SkippedLineHasNoEffect` | src/util/mod.rs:103-106 | a line that gives no entry can be removed from anywhere in the file without changing the result |
| `EnvFile.EntriesFromLines` | src/util/mod.rs:103-116 | the entries are exactly what the lines contribute |
| `EnvFile.CollectLookup` | src/util/mod.rs:117 | a key is in the collected map exactly when some entry has it, and its value comes from the last such entry |
| `EnvFile.ParsedKeys` | src/util/mod.rs:100-117 | a key is in the parsed map exactly when some line of the file defines it |
| `EnvFile.LaterLineWins` | src/util/mod.rs:117 | when several lines define a key, its value is the one the last of them gives |
| `EnvFile.FileSystem.WriteToEnvFile` | src/util/mod.rs:37-53 | a failed open changes nothing; otherwise the file is created if missing and its old text is kept as a prefix; each entry's line is appended, in an order that lists each key once; the call succeeds exactly when no write fails, and then every key is written; after a successful open every failure is a write error, and the write that failed is the one after the lines already appended |
| `EnvFile.FileSystem.WriteLines` | src/util/mod.rs:48-51 | the loop appends the entries' lines in the order taken; a failed write stops it after exactly as many lines as came before it |
| `EnvFile.FileSystem.WriteToDefaultEnvFile` | src/util/mod.rs:55-64 | the same writer, aimed at the `.env` beside `EXECUTABLE_DIRECTORY`, with the same promises: a failed open changes nothing and writes nothing; the old text stays a prefix; success exactly when no write fails, and then every key is written; otherwise a write error after exactly the lines before the failing write |
| `EnvFile.RemainingStep` | src/util/mod.rs:48 | each turn of the loop writes a key not written before |
| `EnvFile.WrittenCount` | src/util/mod.rs:48 | keys written once each are as many as the lines written |
| `EnvFile.LinesOfRender` | src/util/mod.rs:48-51 | for plain entries, the written text is one `key=value` line per entry, in the order written |
| `EnvFile.ParseRender` | src/util/mod.rs:48-51 | parsing what was written defines exactly the written keys, each with its own value |
| `EnvFile.WriteThenParse` | src/util/mod.rs:37-53 | round trip: the lines written for a plain map, in any iteration order, parse back to that map |
| `EnvFile.ParseAfterAppend` | src/util/mod.rs:135-153 | after appending to a `.env` that ends its last line, parsing gives the old settings overridden by the new; a new file written with an empty map parses as the empty map |
| `EnvFile.AppendToUnterminatedLine` | src/util/mod.rs:44-51 | the writer does not end an unterminated last line before appending, so a one-line file without its `\n` and the first entry written read as one line |
| `EnvFile.AppendedEntryJoinsOldValue` | src/util/mod.rs:44-51 | appending one entry to an unterminated `a=b` line defines only the old key, whose value now holds the new line's text: the new entry is lost (its key survives only when it is the old key, with the merged value) |
| `Startup.ToLowercaseMatches` | src/main.rs:57 | lowercasing gives a level name exactly when the text spells that name in some mix of cases |
| `Startup.ToLowercaseIdempotent` | src/main.rs:57 | lowercased text has no capitals left: lowercasing it again changes nothing |
| `Startup.SelectLevelIgnoresCase` | src/main.rs:57-62 | each of `trace`, `debug`, `info`, `warn` and `error` is selected exactly when `LOGGING_LEVEL` spells its name in any case |
| `Startup.SelectLevelOff` | src/main.rs:56-63 | logging is off when `LOGGING_LEVEL` is unset, and exactly when it spells none of the five names |
| `Startup.LevelNameSelects` | src/main.rs:56-63 | every level's own name, `"off"` included, selects that level |
| `Startup.PrepareLogger` | src/main.rs:37-66 | the current directory's `log4rs.yml` is tried first; the one beside the executable only after that fails and `current_exe` answers; the embedded configuration only after both fail; the unwraps panic; a rejected embedded configuration is returned as an error; on success the level is the one `LOGGING_LEVEL` selects |
| `Startup.PidFileBesideExecutable` | src/main.rs:13-14 | `PID_FILE` is always `EXECUTABLE_DIRECTORY`, a separator and `fs-proxy.pid`; the bare-name fallback is never taken |
| `Startup.PidFileBesideEnvFile` | src/main.rs:13-14 | the PID file and `.env` lie in the same directory and are different files |
| `Startup.ExitStatus` | src/main.rs:17-29 | the exit status is 0 exactly when the logger is ready and the command succeeds (or only help was shown); it is 1 exactly when logger set-up returned an error or the command failed; it is 2 on a usage error and 101 on a panic |

## Left out

- Paths are Unix paths: the separator is `/`, and Windows drive and UNC prefixes are not modelled. On Windows the program joins with `\`, so after a failed lookup `PID_FILE` is `.\fs-proxy.pid` there rather than the `./fs-proxy.pid` that `Startup.PidFileBesideExecutable` gives.
- `Paths.Path` does not require its components to be non-empty and free of `/`. The operating system never returns such paths, and the text the model gives for them differs from `std::path`'s.
- The process supervisor is not part of this model. It starts, stops and polls a process through the PID file, and it lives in the `cmd` module, whose source is not available. Only the PID file's path is modelled; `handle_command`'s result is an input.
- `src/web/mod.rs` is not part of this model. It holds asynchronous HTTP handlers, a timer that exits the process, and calls to the clock and the process id.
- `read_env_to_hashmap` is not modelled. It calls the `dotenv` crate, which changes the process environment, and then copies every environment variable.
- Reading stops at the first line that is not valid UTF-8 (`map_while(Result::ok)`), but `EnvFile.ParseEnvFile` parses the whole text. This is an I/O concern.
- Text is a sequence of characters, not bytes. `find` gives a byte offset in the source and a character offset here; both name the same character.
- `EnvFile.ParseEnvFile`: every failure to open the file is treated as the file being absent. Permission and other I/O errors are not told apart.
- `EnvFile.FileSystem.WriteToEnvFile`: a failing `write_all` appends nothing of its line. A partial write of that line is not modelled.
- `EnvFile.FileSystem.WriteLines`: same as above; a failing write appends nothing of its line.
- `Startup.LowerChar`: lowercasing is modelled for ASCII capitals and the Kelvin sign only. Other characters are kept. Their real lowercase forms are not ASCII letters (U+0130 lowercases to `i` followed by a combining dot), so no level name can match either way.
- `Startup.PrepareLogger`: log4rs is reduced to its outcomes. Whether a file initialises the logger is an input, and so is whether the embedded asset is present, is UTF-8 and parses. The configuration itself and the loggers it builds are not modelled.
- The command line is reduced to what `clap` does with it: parse it, print help or version and exit with 0, or exit with 2 on a usage error.
- `Startup.ExitStatus`: the command is assumed to return, not panic. A `handle_command` that panics, or an `eprintln!` at src/main.rs:26 that fails, would end with status 101 after a ready logger, which the model does not allow.
- Panics are modelled as the unwinding default, which gives status 101. A build with `panic = "abort"` would end differently.
