/**
 * The `.env` file beside the executable: `parse_env_file` reads it as a map
 * from keys to values, and `write_to_env_file` appends `key=value` lines to it.
 * The file system is a map from path to file text; reading turns the text
 * into lines as `BufRead::lines` does.
 */
module EnvFile {
  import opened Wrappers
  import opened Text
  import opened Paths
  import opened ExecDir

  /** What can go wrong when the file is opened, read or written. */
  datatype IoError = NotFound | OpenFailed | WriteFailed

  /** `trim_matches('"')` and then `trim_matches('\'')`: the quotes around a value. */
  function Unquote(v: string): string
  {
    TrimMatches(TrimMatches(v, '"'), '\'')
  }

  /** A trimmed line the `filter` keeps: not empty and not a `#` comment. */
  predicate IsEntryLine(t: string)
  {
    t != [] && t[0] != '#'
  }

  /**
   * The `filter_map` step on a trimmed line: split at the first `=` into
   * the trimmed key and the trimmed, unquoted value; nothing without `=`.
   */
  function SplitEntry(t: string): Option<(string, string)>
  {
    match Find(t, '=')
    case None => None
    case Some(p) => Some((Trim(t[..p]), Unquote(Trim(t[p + 1..]))))
  }

  /** The entry one line of the file contributes, if any. */
  function ParseLine(line: string): Option<(string, string)>
  {
    var t := Trim(line);
    if IsEntryLine(t) then SplitEntry(t) else None
  }

  /** The `map`, `filter` and `filter_map` steps: what each line contributes, line by line. */
  function Parsed(lines: seq<string>): seq<Option<(string, string)>>
  {
    seq(|lines|, i requires 0 <= i < |lines| => ParseLine(lines[i]))
  }

  /** The contributions that are entries, in order. */
  function Somes(parsed: seq<Option<(string, string)>>): seq<(string, string)>
  {
    if parsed == [] then []
    else
      Somes(parsed[..|parsed| - 1])
        + match parsed[|parsed| - 1] case None => [] case Some(kv) => [kv]
  }

  /** The entries of the lines, in order: the iterator pipeline before `collect`. */
  function Entries(lines: seq<string>): seq<(string, string)>
  {
    Somes(Parsed(lines))
  }

  /** `collect` into a map: insert the entries from first to last. */
  function Collect(entries: seq<(string, string)>): map<string, string>
  {
    if entries == [] then map[]
    else Collect(entries[..|entries| - 1])[entries[|entries| - 1].0 := entries[|entries| - 1].1]
  }

  /** The map the parser returns for the lines of the file. */
  function ParseEnv(lines: seq<string>): map<string, string>
  {
    Collect(Entries(lines))
  }

  /** `parse_env_file`: open the `.env` beside `dir` and parse its lines. */
  function ParseEnvFile(files: map<string, string>, dir: Path): Result<map<string, string>, IoError>
  {
    var path := EnvFilePath(dir);
    if path in files then Ok(ParseEnv(Lines(files[path]))) else Err(NotFound)
  }

  /** The line `write_to_env_file` writes for one entry. */
  function FormatLine(key: string, value: string): string
  {
    key + "=" + value + "\n"
  }

  /** The text written for the entries of `env` taken in the order `order`. */
  function Render(env: map<string, string>, order: seq<string>): string
    requires forall i :: 0 <= i < |order| ==> order[i] in env
  {
    if order == [] then ""
    else Render(env, order[..|order| - 1]) + FormatLine(order[|order| - 1], env[order[|order| - 1]])
  }

  /** Rendering one more key appends its line. */
  lemma RenderSnoc(env: map<string, string>, order: seq<string>, k: string)
    requires forall i :: 0 <= i < |order| ==> order[i] in env
    requires k in env
    ensures Render(env, order + [k]) == Render(env, order) + FormatLine(k, env[k])
  {
    assert (order + [k])[..|order|] == order;
  }

  /** A second update of the same path replaces the first. */
  lemma UpdateTwice(m: map<string, string>, path: string, first: string, second: string)
    ensures m[path := first][path := second] == m[path := second]
  {
  }

  /** The text of the file at `path`, or nothing when it does not exist yet. */
  function Existing(files: map<string, string>, path: string): string
  {
    if path in files then files[path] else ""
  }

  predicate NoDuplicates(order: seq<string>)
  {
    forall i, j :: 0 <= i < j < |order| ==> order[i] != order[j]
  }

  /** `order` lists every key of `env` once: one iteration order of the map. */
  ghost predicate Enumerates(order: seq<string>, env: map<string, string>)
  {
    NoDuplicates(order) && (forall k :: k in env <==> k in order)
  }

  /** Every character is whitespace. */
  ghost predicate IsBlank(line: string)
  {
    forall i :: 0 <= i < |line| ==> IsWhitespace(line[i])
  }

  /** The first character that is not whitespace is `#`. */
  ghost predicate IsComment(line: string)
  {
    exists i :: 0 <= i < |line| && line[i] == '#' && forall j :: 0 <= j < i ==> IsWhitespace(line[j])
  }

  /** A comment starts with `#` or with whitespace. */
  lemma CommentStart(line: string)
    ensures IsComment(line) ==> line != [] && (line[0] == '#' || IsWhitespace(line[0]))
  {
    if IsComment(line) {
      var i :| 0 <= i < |line| && line[i] == '#' && forall j :: 0 <= j < i ==> IsWhitespace(line[j]);
      assert i == 0 || IsWhitespace(line[0]);
    }
  }

  /** A line whose first character after the leading whitespace is `#` is a comment. */
  lemma CommentAfterWhitespace(line: string)
    ensures var u := StripStart(line, Whitespace); u != [] && u[0] == '#' ==> IsComment(line)
  {
    StripStartShape(line, Whitespace);
    var u := StripStart(line, Whitespace);
    if u != [] && u[0] == '#' {
      assert line[|line| - |u|] == u[0];
    }
  }

  /** A key that, written as `key=…`, reads back as itself. */
  predicate IsPlainKey(k: string)
  {
    '=' !in k && '\n' !in k
    && (k == [] || (!IsWhitespace(k[0]) && !IsWhitespace(k[|k| - 1]) && k[0] != '#'))
  }

  /** A value that, written as `…=value`, reads back as itself. */
  predicate IsPlainValue(v: string)
  {
    '\n' !in v
    && (v == [] || (!IsWhitespace(v[0]) && !IsWhitespace(v[|v| - 1])
                    && v[0] != '"' && v[|v| - 1] != '"' && v[0] != '\'' && v[|v| - 1] != '\''))
  }

  predicate IsPlainEnv(env: map<string, string>)
  {
    forall k :: k in env ==> IsPlainKey(k) && IsPlainValue(env[k])
  }

  // ---------------------------------------------------------------------
  // The writer

  /** The keys listed in `order`. */
  ghost function Written(order: seq<string>): set<string>
  {
    set x | x in order
  }

  /**
   * Part way through the writer's loop: `order` lists the keys written so
   * far, once each, and `rest` holds the keys of `env` still to write.
   */
  ghost predicate Remaining(env: map<string, string>, rest: set<string>, order: seq<string>)
  {
    && NoDuplicates(order)
    && (forall i :: 0 <= i < |order| ==> order[i] in env)
    && rest <= env.Keys
    && (forall i :: 0 <= i < |order| ==> order[i] !in rest)
    && |order| + |rest| == |env|
  }

  /** Writing one more entry moves its key from `rest` to the end of `order`. */
  lemma RemainingStep(env: map<string, string>, rest: set<string>, order: seq<string>, k: string)
    requires Remaining(env, rest, order) && k in rest
    ensures Remaining(env, rest - {k}, order + [k])
  {
    var o := order + [k];
    forall i, j | 0 <= i < j < |o| ensures o[i] != o[j] {
      if j < |order| { assert o[i] == order[i] && o[j] == order[j]; }
      else { assert o[i] == order[i]; }
    }
  }

  /** A list without duplicates has as many distinct keys as entries. */
  lemma {:induction false} WrittenCount(order: seq<string>)
    requires NoDuplicates(order)
    ensures |Written(order)| == |order|
    decreases |order|
  {
    if order != [] {
      var init, last := order[..|order| - 1], order[|order| - 1];
      assert order == init + [last];
      assert NoDuplicates(init) by {
        forall i, j | 0 <= i < j < |init| ensures init[i] != init[j] {
          assert init[i] == order[i] && init[j] == order[j];
        }
      }
      WrittenCount(init);
      assert Written(order) == Written(init) + {last};
      assert last !in Written(init) by {
        forall i | 0 <= i < |init| ensures init[i] != last {
          assert init[i] == order[i];
        }
      }
    }
  }

  /** With nothing left to write, `order` enumerates `env`. */
  lemma RemainingDone(env: map<string, string>, order: seq<string>)
    requires Remaining(env, {}, order)
    ensures Enumerates(order, env)
  {
    var keys, w := env.Keys, Written(order);
    WrittenCount(order);
    assert w <= keys;
    assert keys + w == keys && keys * w == w && w - keys == {};
    assert |keys - w| == 0;
    forall k | k in env ensures k in order {
      assert k !in keys - w;
    }
  }

  /** The files the program can open, by path, with their text. */
  class FileSystem {
    var files: map<string, string>

    constructor (files: map<string, string>)
      ensures this.files == files
    {
      this.files := files;
    }

    /**
     * `write_to_env_file`: open `path` for appending, creating it when it
     * is missing, and write one `key=value\n` line per entry in the map's
     * iteration order, which the caller does not choose (`order` records
     * it). `openOk` says whether the open succeeds; `failAt`, when set, is
     * the index of the write that fails, which ends the loop with an error.
     */
    method WriteToEnvFile(env: map<string, string>, path: string, openOk: bool, failAt: Option<nat>)
      returns (r: Result<(), IoError>, ghost order: seq<string>)
      modifies this
      ensures NoDuplicates(order) && forall i :: 0 <= i < |order| ==> order[i] in env
      ensures !openOk ==> r == Err(OpenFailed) && files == old(files) && order == []
      ensures openOk ==> files == old(files)[path := Existing(old(files), path) + Render(env, order)]
      ensures path in old(files) ==> path in files && old(files)[path] <= files[path]
      ensures r == Ok(()) <==> openOk && (failAt.None? || failAt.value >= |env|)
      ensures r == Ok(()) ==> Enumerates(order, env)
      ensures openOk && r != Ok(()) ==> r == Err(WriteFailed)
      ensures r == Err(WriteFailed) ==> failAt == Some(|order|) && |order| < |env|
    {
      order := [];
      if !openOk {
        r := Err(OpenFailed);
        return;
      }
      var before := Existing(files, path);
      files := files[path := before];
      r, order := WriteLines(env, path, before, failAt);
      UpdateTwice(old(files), path, before, before + Render(env, order));
    }

    /**
     * The loop of `write_to_env_file`, once the file at `path` is open and
     * holds `before`: each entry's line goes to the end of the file as it
     * is written, so a failed write leaves the lines before it in place.
     */
    method WriteLines(env: map<string, string>, path: string, before: string, failAt: Option<nat>)
      returns (r: Result<(), IoError>, ghost order: seq<string>)
      requires path in files && files[path] == before
      modifies this
      ensures NoDuplicates(order) && forall i :: 0 <= i < |order| ==> order[i] in env
      ensures files == old(files)[path := before + Render(env, order)]
      ensures r == Ok(()) <==> failAt.None? || failAt.value >= |env|
      ensures r == Ok(()) ==> Enumerates(order, env)
      ensures r != Ok(()) ==> r == Err(WriteFailed) && failAt == Some(|order|) && |order| < |env|
    {
      order := [];
      var rest := env.Keys;
      var written: nat := 0;
      assert Render(env, order) == "" && before + "" == before;
      while rest != {}
        invariant written == |order|
        invariant Remaining(env, rest, order)
        invariant files == old(files)[path := before + Render(env, order)]
        invariant failAt.Some? ==> failAt.value >= written
        decreases |rest|
      {
        var k :| k in rest;
        if failAt.Some? && failAt.value == written {
          r := Err(WriteFailed);
          return;
        }
        assert files[path] == before + Render(env, order);
        RenderSnoc(env, order, k);
        var text := files[path] + FormatLine(k, env[k]);
        assert text == before + Render(env, order + [k]);
        UpdateTwice(old(files), path, before + Render(env, order), text);
        files := files[path := text];
        RemainingStep(env, rest, order, k);
        order := order + [k];
        written := written + 1;
        rest := rest - {k};
      }
      RemainingDone(env, order);
      r := Ok(());
    }

    /** `write_to_default_env_file`: the same, into the `.env` beside `EXECUTABLE_DIRECTORY`. */
    method WriteToDefaultEnvFile(env: map<string, string>, lookup: Result<Path, DirError>, openOk: bool, failAt: Option<nat>)
      returns (r: Result<(), IoError>, ghost order: seq<string>)
      modifies this
      ensures var path := EnvFilePath(ExecutableDirectoryPath(lookup));
        && NoDuplicates(order) && (forall i :: 0 <= i < |order| ==> order[i] in env)
        && (!openOk ==> r == Err(OpenFailed) && files == old(files) && order == [])
        && (openOk ==> files == old(files)[path := Existing(old(files), path) + Render(env, order)])
        && (path in old(files) ==> path in files && old(files)[path] <= files[path])
        && (r == Ok(()) <==> openOk && (failAt.None? || failAt.value >= |env|))
        && (r == Ok(()) ==> Enumerates(order, env))
        && (openOk && r != Ok(()) ==> r == Err(WriteFailed))
        && (r == Err(WriteFailed) ==> failAt == Some(|order|) && |order| < |env|)
    {
      r, order := WriteToEnvFile(env, EnvFilePath(ExecutableDirectoryPath(lookup)), openOk, failAt);
    }
  }

  // ---------------------------------------------------------------------
  // Lemmas about single lines

  /**
   * A line contributes no entry exactly when it is blank, a comment, or
   * has no `=` at all.
   */
  lemma ParseLineSkips(line: string)
    ensures ParseLine(line).None? <==> IsBlank(line) || IsComment(line) || '=' !in line
  {
    var u := StripStart(line, Whitespace);
    var a := |line| - |u|;
    var t := StripEnd(u, Whitespace);
    StripStartShape(line, Whitespace);
    StripEndShape(u, Whitespace);
    assert t == Trim(line);
    assert t == [] <==> IsBlank(line) by {
      if t == [] {
        assert |u| == 0;
      } else {
        assert line[a] == u[0] == t[0];
      }
    }
    if t != [] {
      assert line[a] == t[0];
      assert t[0] == '#' <==> IsComment(line) by {
        if IsComment(line) {
          var i :| 0 <= i < |line| && line[i] == '#' && forall j :: 0 <= j < i ==> IsWhitespace(line[j]);
          assert i == a;
        }
      }
      assert '=' in t <==> '=' in line by {
        if '=' in line {
          var i :| 0 <= i < |line| && line[i] == '=';
          assert a <= i < a + |t| by {
            assert i >= a ==> line[i] == u[i - a];
          }
          assert t[i - a] == line[i];
        }
        if '=' in t {
          var i :| 0 <= i < |t| && t[i] == '=';
          assert line[a + i] == t[i];
        }
      }
    }
  }

  /**
   * A line that is not a comment splits at its first `=`: the key is the
   * trimmed text before it and the value the trimmed, unquoted text after
   * it, whatever further `=` the value holds.
   */
  lemma ParseLineSplit(pre: string, post: string)
    requires '=' !in pre
    requires !IsComment(pre)
    ensures ParseLine(pre + "=" + post) == Some((Trim(pre), Unquote(Trim(post))))
  {
    var line := pre + "=" + post;
    var u := StripStart(pre, Whitespace);
    var a := |pre| - |u|;
    StripStartShape(pre, Whitespace);
    assert StripStart(line, Whitespace) == u + "=" + post by {
      assert line == pre + ("=" + post);
      StripStartAppend(pre, "=" + post, Whitespace);
    }
    var t := u + "=" + StripEnd(post, Whitespace);
    assert Trim(line) == t by {
      StripEndPrepend(u + "=", post, Whitespace);
    }
    assert t[0] != '#' by {
      CommentAfterWhitespace(pre);
    }
    assert Find(t, '=') == Some(|u|) by {
      forall k | 0 <= k < |u| ensures t[k] != '=' {
        assert t[k] == u[k] == pre[a + k];
      }
      FindIsFirst(t, '=', |u|);
    }
    assert t[..|u|] == u;
    assert Trim(u) == Trim(pre) by {
      assert StripStart(u, Whitespace) == u;
    }
    assert t[|u| + 1..] == StripEnd(post, Whitespace);
    TrimOfStripEnd(post);
  }

  /** The line written for a plain entry is one line of the file, the entry's `key=value`. */
  lemma LinesOfFormattedLine(k: string, v: string)
    requires IsPlainKey(k) && IsPlainValue(v)
    ensures Lines(FormatLine(k, v)) == [k + "=" + v]
  {
    var line := k + "=" + v;
    assert '\n' !in line by {
      forall i | 0 <= i < |line| ensures line[i] != '\n' {
        if i < |k| { assert line[i] == k[i]; }
        else if i > |k| { assert line[i] == v[i - |k| - 1]; }
      }
    }
    assert line[|line| - 1] != '\r' by {
      if v != [] { assert line[|line| - 1] == v[|v| - 1]; }
    }
    assert FormatLine(k, v) == line + "\n";
    LinesOfOneLine(line);
  }

  /** The line written for a plain entry parses back as that entry. */
  lemma ParseFormattedLine(k: string, v: string)
    requires IsPlainKey(k) && IsPlainValue(v)
    ensures ParseLine(k + "=" + v) == Some((k, v))
  {
    assert !IsComment(k) by {
      CommentStart(k);
    }
    ParseLineSplit(k, v);
    StripUnchanged(k, Whitespace);
    StripUnchanged(v, Whitespace);
    StripUnchanged(v, Exactly('"'));
    assert TrimMatches(v, '"') == v;
    StripUnchanged(v, Exactly('\''));
    assert TrimMatches(v, '\'') == v;
  }

  // ---------------------------------------------------------------------
  // Lemmas about the whole file

  /** The `map` step works line by line. */
  lemma ParsedAppend(l1: seq<string>, l2: seq<string>)
    ensures Parsed(l1 + l2) == Parsed(l1) + Parsed(l2)
  {
    var l, r := Parsed(l1 + l2), Parsed(l1) + Parsed(l2);
    forall i | 0 <= i < |l| ensures l[i] == r[i] {
      if i < |l1| { assert (l1 + l2)[i] == l1[i]; } else { assert (l1 + l2)[i] == l2[i - |l1|]; }
    }
  }

  /** Keeping the entries works piece by piece. */
  lemma {:induction false} SomesAppend(p1: seq<Option<(string, string)>>, p2: seq<Option<(string, string)>>)
    ensures Somes(p1 + p2) == Somes(p1) + Somes(p2)
    decreases |p2|
  {
    if p2 == [] {
      assert p1 + p2 == p1;
    } else {
      var init := p2[..|p2| - 1];
      assert (p1 + p2)[..|p1 + p2| - 1] == p1 + init;
      assert (p1 + p2)[|p1 + p2| - 1] == p2[|p2| - 1];
      SomesAppend(p1, init);
    }
  }

  /** An entry is kept exactly when some line contributed it. */
  lemma {:induction false} SomesMembers(parsed: seq<Option<(string, string)>>, e: (string, string))
    ensures e in Somes(parsed) <==> Some(e) in parsed
    decreases |parsed|
  {
    if parsed != [] {
      var init := parsed[..|parsed| - 1];
      SomesMembers(init, e);
      assert parsed == init + [parsed[|parsed| - 1]];
    }
  }

  /** The filter and filter_map steps work line by line. */
  lemma EntriesAppend(l1: seq<string>, l2: seq<string>)
    ensures Entries(l1 + l2) == Entries(l1) + Entries(l2)
  {
    ParsedAppend(l1, l2);
    SomesAppend(Parsed(l1), Parsed(l2));
  }

  /** One contribution is kept exactly when it is an entry. */
  lemma SomesOfOne(o: Option<(string, string)>)
    ensures Somes([o]) == match o case None => [] case Some(kv) => [kv]
  {
    assert [o][..0] == [];
  }

  /** A single line contributes its own entry, if it has one. */
  lemma EntriesOfLine(line: string)
    ensures Entries([line]) == match ParseLine(line) case None => [] case Some(kv) => [kv]
  {
    assert Parsed([line]) == [ParseLine(line)];
    SomesOfOne(ParseLine(line));
  }

  /** Collecting more entries overrides what was collected before: a later key wins. */
  lemma {:induction false} CollectAppend(e1: seq<(string, string)>, e2: seq<(string, string)>)
    ensures Collect(e1 + e2) == Collect(e1) + Collect(e2)
    decreases |e2|
  {
    if e2 == [] {
      assert e1 + e2 == e1;
    } else {
      var init, last := e2[..|e2| - 1], e2[|e2| - 1];
      assert (e1 + e2)[..|e1 + e2| - 1] == e1 + init;
      assert (e1 + e2)[|e1 + e2| - 1] == last;
      CollectAppend(e1, init);
      var m1, m2 := Collect(e1), Collect(init);
      assert (m1 + m2)[last.0 := last.1] == m1 + m2[last.0 := last.1];
    }
  }

  /** A single entry collects into a map of one key. */
  lemma CollectOfOne(kv: (string, string))
    ensures Collect([kv]) == map[kv.0 := kv.1]
  {
    assert [kv][..0] == [];
  }

  /** Parsing two stretches of lines: the entries of the second override those of the first. */
  lemma ParseEnvAppend(l1: seq<string>, l2: seq<string>)
    ensures ParseEnv(l1 + l2) == ParseEnv(l1) + ParseEnv(l2)
  {
    EntriesAppend(l1, l2);
    CollectAppend(Entries(l1), Entries(l2));
  }

  /** A file of one line defines what that line defines. */
  lemma ParseEnvOfLine(line: string)
    ensures ParseEnv([line]) == match ParseLine(line) case None => map[] case Some(kv) => map[kv.0 := kv.1]
  {
    EntriesOfLine(line);
    match ParseLine(line) {
      case None =>
      case Some(kv) => CollectOfOne(kv);
    }
  }

  /** A line that contributes no entry can be dropped from anywhere in the file. */
  lemma SkippedLineHasNoEffect(before: seq<string>, line: string, after: seq<string>)
    requires ParseLine(line).None?
    ensures ParseEnv(before + [line] + after) == ParseEnv(before + after)
  {
    ParseEnvAppend(before + [line], after);
    ParseEnvAppend(before, [line]);
    ParseEnvAppend(before, after);
    ParseEnvOfLine(line);
    assert ParseEnv(before) + map[] == ParseEnv(before);
  }

  /** The line defines the key `k`. */
  ghost predicate DefinesKey(line: string, k: string)
  {
    ParseLine(line).Some? && ParseLine(line).value.0 == k
  }

  /** The entries are exactly what the lines contribute. */
  lemma EntriesFromLines(lines: seq<string>, e: (string, string))
    ensures e in Entries(lines) <==> exists i :: 0 <= i < |lines| && ParseLine(lines[i]) == Some(e)
  {
    var p := Parsed(lines);
    SomesMembers(p, e);
    if Some(e) in p {
      var i :| 0 <= i < |p| && p[i] == Some(e);
      assert ParseLine(lines[i]) == Some(e);
    }
    if exists i :: 0 <= i < |lines| && ParseLine(lines[i]) == Some(e) {
      var i :| 0 <= i < |lines| && ParseLine(lines[i]) == Some(e);
      assert p[i] == Some(e);
    }
  }

  /** The collected map has exactly the keys of the entries, and the value of the last entry for each. */
  lemma {:induction false} CollectLookup(es: seq<(string, string)>, k: string)
    ensures k in Collect(es) <==> exists i :: 0 <= i < |es| && es[i].0 == k
    ensures k in Collect(es) ==>
      exists i :: 0 <= i < |es| && es[i] == (k, Collect(es)[k]) && forall j :: i < j < |es| ==> es[j].0 != k
    decreases |es|
  {
    if es != [] {
      var n := |es| - 1;
      var init := es[..n];
      CollectLookup(init, k);
      assert forall i :: 0 <= i < n ==> init[i] == es[i];
      if es[n].0 != k && k in Collect(es) {
        var i :| 0 <= i < n && init[i] == (k, Collect(init)[k]) && forall j :: i < j < n ==> init[j].0 != k;
        assert es[i] == (k, Collect(es)[k]);
      }
    }
  }

  /** A key is in the parsed map exactly when some line of the file defines it. */
  lemma ParsedKeys(lines: seq<string>, k: string)
    ensures k in ParseEnv(lines) <==> exists i :: 0 <= i < |lines| && DefinesKey(lines[i], k)
  {
    var es := Entries(lines);
    CollectLookup(es, k);
    if k in ParseEnv(lines) {
      var i :| 0 <= i < |es| && es[i].0 == k;
      EntriesFromLines(lines, es[i]);
      var j :| 0 <= j < |lines| && ParseLine(lines[j]) == Some(es[i]);
      assert DefinesKey(lines[j], k);
    }
    if exists i :: 0 <= i < |lines| && DefinesKey(lines[i], k) {
      var i :| 0 <= i < |lines| && DefinesKey(lines[i], k);
      var e := ParseLine(lines[i]).value;
      EntriesFromLines(lines, e);
      var j :| 0 <= j < |es| && es[j] == e;
    }
  }

  /** When several lines define a key, the value is the one the last of them gives. */
  lemma LaterLineWins(lines: seq<string>, i: nat, k: string, v: string)
    requires i < |lines| && ParseLine(lines[i]) == Some((k, v))
    requires forall j :: i < j < |lines| ==> !DefinesKey(lines[j], k)
    ensures k in ParseEnv(lines) && ParseEnv(lines)[k] == v
  {
    var before, after := lines[..i], lines[i + 1..];
    assert lines == before + [lines[i]] + after;
    ParseEnvAppend(before + [lines[i]], after);
    ParseEnvAppend(before, [lines[i]]);
    ParseEnvOfLine(lines[i]);
    forall j | 0 <= j < |after| ensures !DefinesKey(after[j], k) {
      assert after[j] == lines[i + 1 + j];
    }
    ParsedKeys(after, k);
  }

  /** What the writer emits ends its last line. */
  lemma RenderEndsLine(env: map<string, string>, order: seq<string>)
    requires forall i :: 0 <= i < |order| ==> order[i] in env
    ensures var text := Render(env, order); text == [] || text[|text| - 1] == '\n'
  {
  }

  /** Rendering one more plain entry adds its `key=value` as one more line. */
  lemma LinesOfRenderSnoc(env: map<string, string>, order: seq<string>, k: string)
    requires forall i :: 0 <= i < |order| ==> order[i] in env
    requires k in env && IsPlainKey(k) && IsPlainValue(env[k])
    ensures Lines(Render(env, order + [k])) == Lines(Render(env, order)) + [k + "=" + env[k]]
  {
    RenderSnoc(env, order, k);
    RenderEndsLine(env, order);
    LinesAppend(Render(env, order), FormatLine(k, env[k]));
    LinesOfFormattedLine(k, env[k]);
  }

  /** The writer emits exactly one line per entry, the entry's `key=value`, in the order written. */
  lemma {:induction false} LinesOfRender(env: map<string, string>, order: seq<string>)
    requires forall i :: 0 <= i < |order| ==> order[i] in env
    requires IsPlainEnv(env)
    ensures var lines := Lines(Render(env, order));
      && |lines| == |order|
      && forall i :: 0 <= i < |order| ==> lines[i] == order[i] + "=" + env[order[i]]
    decreases |order|
  {
    if order != [] {
      var init, k := order[..|order| - 1], order[|order| - 1];
      assert order == init + [k];
      LinesOfRender(env, init);
      LinesOfRenderSnoc(env, init, k);
    }
  }

  /**
   * Parsing what the writer emits for plain entries defines exactly the
   * keys it wrote, each with the value it was given.
   */
  lemma {:induction false} ParseRender(env: map<string, string>, order: seq<string>)
    requires forall i :: 0 <= i < |order| ==> order[i] in env
    requires IsPlainEnv(env)
    ensures var m := ParseEnv(Lines(Render(env, order)));
      && (forall x :: x in m <==> x in order)
      && (forall x :: x in m ==> m[x] == env[x])
    decreases |order|
  {
    if order != [] {
      var init, k := order[..|order| - 1], order[|order| - 1];
      assert order == init + [k];
      var line := k + "=" + env[k];
      ParseRender(env, init);
      LinesOfRenderSnoc(env, init, k);
      ParseEnvAppend(Lines(Render(env, init)), [line]);
      assert ParseEnv([line]) == map[k := env[k]] by {
        ParseFormattedLine(k, env[k]);
        ParseEnvOfLine(line);
      }
    }
  }

  /** Round trip: the lines written for one iteration order of plain `env` parse back to `env`. */
  lemma WriteThenParse(env: map<string, string>, order: seq<string>)
    requires Enumerates(order, env)
    requires IsPlainEnv(env)
    ensures ParseEnv(Lines(Render(env, order))) == env
  {
    ParseRender(env, order);
  }

  /**
   * Appending to a `.env` that ends its last line keeps what it defined,
   * except where the new entries replace it; in particular writing an empty
   * map into a new file parses back as the empty map.
   */
  lemma ParseAfterAppend(files: map<string, string>, dir: Path, env: map<string, string>, order: seq<string>)
    requires Enumerates(order, env)
    requires IsPlainEnv(env)
    requires var before := Existing(files, EnvFilePath(dir)); before == [] || before[|before| - 1] == '\n'
    ensures var path := EnvFilePath(dir);
      ParseEnvFile(files[path := Existing(files, path) + Render(env, order)], dir)
        == Ok(ParseEnv(Lines(Existing(files, path))) + env)
    ensures EnvFilePath(dir) !in files && env == map[] ==>
      ParseEnvFile(files[EnvFilePath(dir) := Existing(files, EnvFilePath(dir)) + Render(env, order)], dir) == Ok(map[])
  {
    var before := Existing(files, EnvFilePath(dir));
    LinesAppend(before, Render(env, order));
    ParseEnvAppend(Lines(before), Lines(Render(env, order)));
    WriteThenParse(env, order);
  }

  /**
   * `write_to_env_file` does not end an unterminated last line before it
   * appends, so the first line it writes joins that line: a one-line file
   * without its `\n`, followed by one entry, reads as a single line.
   */
  lemma AppendToUnterminatedLine(before: string, k: string, v: string)
    requires before != [] && '\n' !in before
    requires IsPlainKey(k) && IsPlainValue(v)
    ensures Lines(before + FormatLine(k, v)) == [before + k + "=" + v]
  {
    var line := before + k + "=" + v;
    JoinedLine(before, k, v);
    calc {
      Lines(before + FormatLine(k, v));
      { AppendFormatLine(before, k, v); }
      Lines(line + "\n");
      { LinesOfOneLine(line); }
      [line];
    }
  }

  /** Appending an entry's line appends its key, `=`, its value and `\n`. */
  lemma AppendFormatLine(before: string, k: string, v: string)
    ensures before + FormatLine(k, v) == before + k + "=" + v + "\n"
  {
  }

  /** The text `before` followed by an entry's line, without its `\n`, is one line. */
  lemma JoinedLine(before: string, k: string, v: string)
    requires '\n' !in before
    requires IsPlainKey(k) && IsPlainValue(v)
    ensures var line := before + k + "=" + v;
      '\n' !in line && line[|line| - 1] != '\r'
  {
    var line := before + k + "=" + v;
    NoNewlineJoin(before, k);
    NoNewlineJoin(before + k, "=");
    NoNewlineJoin(before + k + "=", v);
    if v != [] {
      assert line[|line| - 1] == v[|v| - 1];
    } else {
      assert line[|line| - 1] == '=';
    }
  }

  /** Two texts without `\n` joined have none. */
  lemma NoNewlineJoin(x: string, y: string)
    requires '\n' !in x && '\n' !in y
    ensures '\n' !in x + y
  {
    forall i | 0 <= i < |x + y| ensures (x + y)[i] != '\n' {
      if i < |x| { assert (x + y)[i] == x[i]; } else { assert (x + y)[i] == y[i - |x|]; }
    }
  }

  /**
   * Appending one entry to a file whose only line is an unterminated
   * `a=b` loses the new key: the file defines just the old key, and the
   * new line's text becomes part of its value (`A=1` then `B=2` reads as
   * `A` set to `1B=2`).
   */
  lemma AppendedEntryJoinsOldValue(a: string, b: string, k: string, v: string)
    requires '=' !in a && !IsComment(a) && '\n' !in a && '\n' !in b
    requires IsPlainKey(k) && IsPlainValue(v)
    ensures ParseEnv(Lines(a + "=" + b + FormatLine(k, v))) == map[Trim(a) := Unquote(Trim(b + k + "=" + v))]
  {
    var before := a + "=" + b;
    var post := b + k + "=" + v;
    var line := before + k + "=" + v;
    assert Lines(before + FormatLine(k, v)) == [line] by {
      NoNewlineJoin(a, "=");
      NoNewlineJoin(a + "=", b);
      AppendToUnterminatedLine(before, k, v);
    }
    assert ParseEnv([line]) == map[Trim(a) := Unquote(Trim(post))] by {
      assert line == a + "=" + post;
      ParseLineSplit(a, post);
      ParseEnvOfLine(line);
    }
  }
}
