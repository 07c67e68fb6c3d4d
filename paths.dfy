/**
 * File-system paths as `std::path` treats them on Unix: a path is an
 * optional root followed by a sequence of components, and each component
 * is an OS string that need not be valid UTF-8. The separator is `/`;
 * Windows drive and UNC prefixes and the `\` separator are not modelled.
 * `parent`, `join`, `to_str` and `to_string_lossy` are functions over that
 * value.
 */
module Paths {
  import opened Wrappers

  /** One unit of an OS string: a character, or a stretch that is not valid UTF-8. */
  datatype Unit = Char(c: char) | Invalid

  type OsStr = seq<Unit>

  /** What `to_string_lossy` puts in place of text that is not UTF-8. */
  const Replacement: char := '\U{FFFD}'

  /**
   * The components of a path, and whether it starts at the root. The paths
   * the operating system hands out have non-empty components free of `/`;
   * the datatype does not enforce that, and the text written out for a
   * value that breaks it is not what `std::path` would produce.
   */
  datatype Path = Path(rooted: bool, parts: seq<OsStr>)

  /** A Rust `&str` seen as an OS string. */
  function FromString(s: string): OsStr
  {
    seq(|s|, i requires 0 <= i < |s| => Char(s[i]))
  }

  predicate IsUnicode(o: OsStr)
  {
    forall i :: 0 <= i < |o| ==> o[i].Char?
  }

  predicate HasUnicodeParts(p: Path)
  {
    forall i :: 0 <= i < |p.parts| ==> IsUnicode(p.parts[i])
  }

  /** `OsStr::to_string_lossy`: every unit that is not UTF-8 reads as U+FFFD. */
  function DecodeLossy(o: OsStr): string
  {
    seq(|o|, i requires 0 <= i < |o| => if o[i].Char? then o[i].c else Replacement)
  }

  /** The OS string whose text is the lossy decoding of `o`. */
  function ReplaceInvalid(o: OsStr): OsStr
  {
    seq(|o|, i requires 0 <= i < |o| => if o[i].Char? then o[i] else Char(Replacement))
  }

  /** The components written out with `/` between them. */
  function JoinParts(parts: seq<OsStr>): OsStr
  {
    if parts == [] then []
    else if |parts| == 1 then parts[0]
    else JoinParts(parts[..|parts| - 1]) + [Char('/')] + parts[|parts| - 1]
  }

  /** The path as the OS string that names it. */
  function AsOsStr(p: Path): OsStr
  {
    (if p.rooted then [Char('/')] else []) + JoinParts(p.parts)
  }

  /** `Path::parent`: none for the root and for the empty path. */
  function Parent(p: Path): Option<Path>
  {
    if p.parts == [] then None else Some(Path(p.rooted, p.parts[..|p.parts| - 1]))
  }

  /** `PathBuf::push` of one relative component. */
  function Push(p: Path, part: OsStr): Path
  {
    Path(p.rooted, p.parts + [part])
  }

  /** `Path::join` with a file name that is a single component. */
  function Join(p: Path, name: string): Path
  {
    Push(p, FromString(name))
  }

  /** `Path::to_str`: the text of the path, when all of it is UTF-8. */
  function ToStr(p: Path): Option<string>
  {
    var o := AsOsStr(p);
    if IsUnicode(o) then Some(DecodeLossy(o)) else None
  }

  /** `Path::to_string_lossy`. */
  function ToStringLossy(p: Path): string
  {
    DecodeLossy(AsOsStr(p))
  }

  /** Each component with its invalid units replaced. */
  function LossyParts(parts: seq<OsStr>): seq<OsStr>
  {
    seq(|parts|, i requires 0 <= i < |parts| => ReplaceInvalid(parts[i]))
  }

  /** The path named by the lossy text of `p`. */
  function Lossy(p: Path): Path
  {
    Path(p.rooted, LossyParts(p.parts))
  }

  /** What `push` puts between a path and the next component: nothing after a root or an empty path. */
  function Separator(p: Path): OsStr
  {
    if p.parts == [] then [] else [Char('/')]
  }

  // ---------------------------------------------------------------------
  // Lemmas

  /** `parent` undoes `push`, and every path with a parent is its parent pushed with its last component. */
  lemma ParentUndoesPush(q: Path, p: Path)
    ensures Parent(q) == Some(p) <==> q.parts != [] && q == Push(p, q.parts[|q.parts| - 1])
  {
    if q.parts != [] {
      assert q.parts == q.parts[..|q.parts| - 1] + [q.parts[|q.parts| - 1]];
    }
  }

  /** Writing out a pushed path appends the separator and the component. */
  lemma AsOsStrPush(p: Path, part: OsStr)
    ensures AsOsStr(Push(p, part)) == AsOsStr(p) + Separator(p) + part
  {
    var ps := p.parts + [part];
    assert ps[..|ps| - 1] == p.parts;
    if p.parts == [] {
      assert JoinParts(ps) == part;
    } else {
      assert JoinParts(ps) == JoinParts(p.parts) + [Char('/')] + part;
    }
  }

  /** Components that are all UTF-8 write out as UTF-8. */
  lemma {:induction false} JoinPartsUnicode(parts: seq<OsStr>)
    requires forall i :: 0 <= i < |parts| ==> IsUnicode(parts[i])
    ensures IsUnicode(JoinParts(parts))
    decreases |parts|
  {
    if |parts| > 1 {
      JoinPartsUnicode(parts[..|parts| - 1]);
      var a, b := JoinParts(parts[..|parts| - 1]), parts[|parts| - 1];
      assert IsUnicode(b);
      var j := a + [Char('/')] + b;
      forall i | 0 <= i < |j| ensures j[i].Char? {
        if i < |a| { assert j[i] == a[i]; }
        else if i > |a| { assert j[i] == b[i - |a| - 1]; }
      }
    }
  }

  /** Replacing the invalid units distributes over concatenation. */
  lemma ReplaceInvalidAppend(a: OsStr, b: OsStr)
    ensures ReplaceInvalid(a + b) == ReplaceInvalid(a) + ReplaceInvalid(b)
  {
    var l, r := ReplaceInvalid(a + b), ReplaceInvalid(a) + ReplaceInvalid(b);
    forall i | 0 <= i < |l| ensures l[i] == r[i] {
      if i < |a| { assert (a + b)[i] == a[i]; } else { assert (a + b)[i] == b[i - |a|]; }
    }
  }

  /** A Rust string is valid UTF-8 as an OS string and reads back as itself. */
  lemma FromStringRoundTrip(s: string)
    ensures IsUnicode(FromString(s)) && DecodeLossy(FromString(s)) == s
  {
    var o := FromString(s);
    forall i | 0 <= i < |s| ensures o[i] == Char(s[i]) && DecodeLossy(o)[i] == s[i] {
    }
  }

  /**
   * Replacing the invalid units gives valid UTF-8 with the same lossy text,
   * and leaves text that is already valid as it is.
   */
  lemma ReplaceInvalidKeepsText(o: OsStr)
    ensures IsUnicode(ReplaceInvalid(o))
    ensures DecodeLossy(ReplaceInvalid(o)) == DecodeLossy(o)
    ensures IsUnicode(o) ==> ReplaceInvalid(o) == o
  {
    var r := ReplaceInvalid(o);
    forall i | 0 <= i < |o| ensures r[i].Char? && DecodeLossy(r)[i] == DecodeLossy(o)[i] {
    }
    if IsUnicode(o) {
      forall i | 0 <= i < |o| ensures r[i] == o[i] {
        assert o[i].Char?;
      }
    }
  }

  /** The components of the lossy path, written out, are the written-out path made lossy. */
  lemma {:induction false} JoinPartsLossy(parts: seq<OsStr>)
    ensures JoinParts(LossyParts(parts)) == ReplaceInvalid(JoinParts(parts))
    decreases |parts|
  {
    var lossy := LossyParts(parts);
    if parts == [] {
    } else if |parts| == 1 {
    } else {
      var init := parts[..|parts| - 1];
      assert lossy[..|lossy| - 1] == LossyParts(init);
      JoinPartsLossy(init);
      ReplaceInvalidAppend(JoinParts(init) + [Char('/')], parts[|parts| - 1]);
      ReplaceInvalidAppend(JoinParts(init), [Char('/')]);
    }
  }

  /** The lossy path names the path's own text with every invalid unit replaced. */
  lemma AsOsStrLossy(p: Path)
    ensures AsOsStr(Lossy(p)) == ReplaceInvalid(AsOsStr(p))
  {
    var root: OsStr := if p.rooted then [Char('/')] else [];
    JoinPartsLossy(p.parts);
    ReplaceInvalidAppend(root, JoinParts(p.parts));
    assert ReplaceInvalid(root) == root;
  }

  /** The lossy path is valid UTF-8 and its text is the lossy text of the original path. */
  lemma LossyToStr(p: Path)
    ensures ToStr(Lossy(p)) == Some(ToStringLossy(p))
  {
    AsOsStrLossy(p);
    ReplaceInvalidKeepsText(AsOsStr(p));
  }

  /** A path that is already UTF-8 is its own lossy path. */
  lemma LossyOfUnicode(p: Path)
    requires HasUnicodeParts(p)
    ensures Lossy(p) == p
  {
    forall i | 0 <= i < |p.parts| ensures ReplaceInvalid(p.parts[i]) == p.parts[i] {
      ReplaceInvalidKeepsText(p.parts[i]);
    }
    assert LossyParts(p.parts) == p.parts;
  }

  /** Joining a UTF-8 path with a file name reads as the path's text, the separator and the name. */
  lemma ToStrJoin(p: Path, name: string)
    requires IsUnicode(AsOsStr(p))
    ensures ToStr(Join(p, name)) == Some(DecodeLossy(AsOsStr(p)) + DecodeLossy(Separator(p)) + name)
  {
    var o := AsOsStr(p);
    var j := o + Separator(p) + FromString(name);
    AsOsStrPush(p, FromString(name));
    assert AsOsStr(Join(p, name)) == j;
    forall i | 0 <= i < |j| ensures j[i].Char? {
      if i < |o| { assert j[i] == o[i]; }
      else if i < |o| + |Separator(p)| { assert j[i] == Separator(p)[i - |o|]; }
      else { assert j[i] == FromString(name)[i - |o| - |Separator(p)|]; }
    }
    assert IsUnicode(j);
    var d, e := DecodeLossy(j), DecodeLossy(o) + DecodeLossy(Separator(p)) + name;
    assert |d| == |e|;
    forall i | 0 <= i < |d| ensures d[i] == e[i] {
      if i < |o| { assert j[i] == o[i]; }
      else if i < |o| + |Separator(p)| { assert j[i] == Separator(p)[i - |o|]; }
      else { assert j[i] == FromString(name)[i - |o| - |Separator(p)|]; }
    }
    assert d == e;
  }
}
