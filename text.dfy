/**
 * The string primitives the `.env` parser is built from, with the meaning
 * Rust's standard library gives them: `char::is_whitespace`, `str::trim`,
 * `str::trim_matches(c)`, `str::find(c)` and `BufRead::lines`.
 * Positions are character positions; the Rust code slices at the byte
 * position `find` returns, which names the same character.
 */
module Text {
  import opened Wrappers

  /** The Unicode White_Space property, which `char::is_whitespace` tests. */
  predicate IsWhitespace(c: char)
  {
    ('\t' <= c <= '\r') || c == ' ' || c == '\U{85}' || c == '\U{A0}' || c == '\U{1680}'
    || ('\U{2000}' <= c <= '\U{200A}') || c == '\U{2028}' || c == '\U{2029}'
    || c == '\U{202F}' || c == '\U{205F}' || c == '\U{3000}'
  }

  /** What `trim_matches` removes: whitespace (as `trim` does) or one given character. */
  datatype Pattern = Whitespace | Exactly(c: char)

  predicate Matches(p: Pattern, x: char)
  {
    match p
    case Whitespace => IsWhitespace(x)
    case Exactly(c) => x == c
  }

  /** Drops every leading character that matches `p`. */
  function StripStart(s: string, p: Pattern): string
    decreases |s|
  {
    if s != [] && Matches(p, s[0]) then StripStart(s[1..], p) else s
  }

  /** Drops every trailing character that matches `p`. */
  function StripEnd(s: string, p: Pattern): string
    decreases |s|
  {
    if s != [] && Matches(p, s[|s| - 1]) then StripEnd(s[..|s| - 1], p) else s
  }

  /** Both ends: the shape of `trim_matches`. */
  function Strip(s: string, p: Pattern): string
  {
    StripEnd(StripStart(s, p), p)
  }

  /** `str::trim`. */
  function Trim(s: string): string
  {
    Strip(s, Whitespace)
  }

  /** `str::trim_matches(c)` for a single character `c`. */
  function TrimMatches(s: string, c: char): string
  {
    Strip(s, Exactly(c))
  }

  /** `str::find(c)`: the position of the first `c`, if any. */
  function Find(s: string, c: char): (r: Option<nat>)
    ensures r.Some? ==> r.value < |s| && s[r.value] == c && forall k :: 0 <= k < r.value ==> s[k] != c
    ensures r.None? <==> c !in s
  {
    if s == [] then None
    else if s[0] == c then Some(0)
    else
      assert s == [s[0]] + s[1..];
      match Find(s[1..], c)
      case None => None
      case Some(i) => Some(i + 1)
  }

  /** `BufRead::lines` drops the `\r` of a `\r\n` ending. */
  function DropCarriageReturn(line: string): string
  {
    if line != [] && line[|line| - 1] == '\r' then line[..|line| - 1] else line
  }

  /**
   * `BufRead::lines` over the whole text: split at every `\n`; a final
   * `\n` does not start another line; a `\r` is dropped only before a `\n`.
   */
  function Lines(s: string): seq<string>
    decreases |s|
  {
    if s == [] then []
    else match Find(s, '\n')
      case None => [s]
      case Some(p) => [DropCarriageReturn(s[..p])] + Lines(s[p + 1..])
  }

  // ---------------------------------------------------------------------
  // Lemmas about stripping

  /**
   * What `StripStart` leaves: a suffix of the text, preceded only by
   * matching characters, and not itself starting with one.
   */
  lemma {:induction false} StripStartShape(s: string, p: Pattern)
    ensures var r := StripStart(s, p);
      && |r| <= |s| && r == s[|s| - |r|..]
      && (forall i :: 0 <= i < |s| - |r| ==> Matches(p, s[i]))
      && (r == [] || !Matches(p, r[0]))
    decreases |s|
  {
    if s != [] && Matches(p, s[0]) {
      StripStartShape(s[1..], p);
    }
  }

  /**
   * What `StripEnd` leaves: a prefix of the text, followed only by
   * matching characters, and not itself ending with one.
   */
  lemma {:induction false} StripEndShape(s: string, p: Pattern)
    ensures var r := StripEnd(s, p);
      && |r| <= |s| && r == s[..|r|]
      && (forall i :: |r| <= i < |s| ==> Matches(p, s[i]))
      && (r == [] || !Matches(p, r[|r| - 1]))
    decreases |s|
  {
    if s != [] && Matches(p, s[|s| - 1]) {
      StripEndShape(s[..|s| - 1], p);
    }
  }

  /** Stripping stops at the first character `p` does not match, wherever the text continues. */
  lemma {:induction false} StripStartAppend(a: string, b: string, p: Pattern)
    requires b != [] && !Matches(p, b[0])
    ensures StripStart(a + b, p) == StripStart(a, p) + b
    decreases |a|
  {
    if a == [] {
      assert a + b == b;
    } else if Matches(p, a[0]) {
      assert (a + b)[1..] == a[1..] + b;
      StripStartAppend(a[1..], b, p);
    } else {
      assert (a + b)[0] == a[0];
    }
  }

  /** The mirror image of StripStartAppend. */
  lemma {:induction false} StripEndPrepend(a: string, b: string, p: Pattern)
    requires a != [] && !Matches(p, a[|a| - 1])
    ensures StripEnd(a + b, p) == a + StripEnd(b, p)
    decreases |b|
  {
    if b == [] {
      assert a + b == a;
    } else if Matches(p, b[|b| - 1]) {
      assert (a + b)[..|a + b| - 1] == a + b[..|b| - 1];
      StripEndPrepend(a, b[..|b| - 1], p);
    } else {
      assert (a + b)[|a + b| - 1] == b[|b| - 1];
    }
  }

  /** How a leading character changes the end-stripped text. */
  lemma {:induction false} StripEndCons(c: char, t: string, p: Pattern)
    ensures StripEnd([c] + t, p) == if Matches(p, c) && StripEnd(t, p) == [] then [] else [c] + StripEnd(t, p)
    decreases |t|
  {
    if t == [] {
      assert [c] + t == [c];
      assert [c][..0] == [];
    } else if Matches(p, t[|t| - 1]) {
      assert ([c] + t)[..|t|] == [c] + t[..|t| - 1];
      StripEndCons(c, t[..|t| - 1], p);
    } else {
      assert ([c] + t)[|t|] == t[|t| - 1];
    }
  }

  /** Stripping the front and the back commute, so `trim` may do either first. */
  lemma {:induction false} StripCommutes(s: string, p: Pattern)
    ensures StripStart(StripEnd(s, p), p) == StripEnd(StripStart(s, p), p)
    decreases |s|
  {
    if s != [] {
      assert s == [s[0]] + s[1..];
      StripEndCons(s[0], s[1..], p);
      if Matches(p, s[0]) {
        StripCommutes(s[1..], p);
        var e := StripEnd(s[1..], p);
        if e != [] {
          assert ([s[0]] + e)[1..] == e;
        }
      } else {
        var e := StripEnd(s[1..], p);
        assert ([s[0]] + e)[0] == s[0];
      }
    }
  }

  /** A text that starts and ends with characters `p` does not match is left as it is. */
  lemma StripUnchanged(s: string, p: Pattern)
    requires s == [] || (!Matches(p, s[0]) && !Matches(p, s[|s| - 1]))
    ensures Strip(s, p) == s
  {
  }

  /** Trimming an already end-trimmed text is trimming the text. */
  lemma TrimOfStripEnd(s: string)
    ensures Trim(StripEnd(s, Whitespace)) == Trim(s)
  {
    var e := StripEnd(s, Whitespace);
    StripCommutes(s, Whitespace);
    var m := StripStart(s, Whitespace);
    var em := StripEnd(m, Whitespace);
    assert StripStart(e, Whitespace) == em;
    StripEndShape(m, Whitespace);
    assert StripEnd(em, Whitespace) == em;
  }

  // ---------------------------------------------------------------------
  // Lemmas about finding and splitting lines

  /** The first occurrence is unique: any position with no earlier `c` is it. */
  lemma FindIsFirst(s: string, c: char, i: nat)
    requires i < |s| && s[i] == c
    requires forall k :: 0 <= k < i ==> s[k] != c
    ensures Find(s, c) == Some(i)
  {
    assert c in s;
  }

  /** No line holds a `\n`, and only the empty text has no lines. */
  lemma {:induction false} LinesHaveNoNewline(s: string)
    ensures var r := Lines(s);
      && (forall i :: 0 <= i < |r| ==> '\n' !in r[i])
      && (r == [] <==> s == [])
    decreases |s|
  {
    if s != [] {
      match Find(s, '\n')
      case None =>
      case Some(p) =>
        var line := DropCarriageReturn(s[..p]);
        assert '\n' !in line by {
          forall k | 0 <= k < |line| ensures line[k] != '\n' {
            assert line[k] == s[k];
          }
        }
        LinesHaveNoNewline(s[p + 1..]);
        assert Lines(s) == [line] + Lines(s[p + 1..]);
    }
  }

  /** One step of `Lines`: the text up to the first `\n`, then the lines of the rest. */
  lemma LinesStep(s: string, p: nat)
    requires Find(s, '\n') == Some(p)
    ensures Lines(s) == [DropCarriageReturn(s[..p])] + Lines(s[p + 1..])
  {
  }

  /** The first line of a text is unchanged by what follows its `\n`. */
  lemma LinesOfLongerText(a: string, b: string, p: nat)
    requires Find(a, '\n') == Some(p)
    ensures Lines(a + b) == [DropCarriageReturn(a[..p])] + Lines(a[p + 1..] + b)
  {
    assert Find(a + b, '\n') == Some(p) by {
      forall k | 0 <= k < p ensures (a + b)[k] != '\n' {
        assert (a + b)[k] == a[k];
      }
      FindIsFirst(a + b, '\n', p);
    }
    assert (a + b)[..p] == a[..p];
    assert (a + b)[p + 1..] == a[p + 1..] + b;
    LinesStep(a + b, p);
  }

  /** Text that ends a line splits as its lines followed by the lines of what comes after. */
  lemma {:induction false} LinesAppend(a: string, b: string)
    requires a == [] || a[|a| - 1] == '\n'
    ensures Lines(a + b) == Lines(a) + Lines(b)
    decreases |a|
  {
    if a == [] {
      assert a + b == b;
    } else {
      var p := FindNewline(a);
      var rest := a[p + 1..];
      assert rest == [] || rest[|rest| - 1] == '\n' by {
        if rest != [] { assert rest[|rest| - 1] == a[|a| - 1]; }
      }
      LinesOfLongerText(a, b, p);
      LinesStep(a, p);
      LinesAppend(rest, b);
    }
  }

  /** A text that ends a line has a first `\n`. */
  lemma FindNewline(a: string) returns (p: nat)
    requires a != [] && a[|a| - 1] == '\n'
    ensures Find(a, '\n') == Some(p)
  {
    assert a[|a| - 1] in a;
    p := Find(a, '\n').value;
  }

  /** A line without `\n` and without a final `\r`, written with its `\n`, reads back as itself. */
  lemma LinesOfOneLine(line: string)
    requires '\n' !in line
    requires line == [] || line[|line| - 1] != '\r'
    ensures Lines(line + "\n") == [line]
  {
    FindIsFirst(line + "\n", '\n', |line|);
    assert (line + "\n")[..|line|] == line;
    assert (line + "\n")[|line| + 1..] == [];
  }
}
