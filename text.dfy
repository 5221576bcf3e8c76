/**
  The two string primitives `parse_env` relies on: Python's `str.strip()`
  (with and without an explicit character set) and `str.splitlines()`.
 */
module Text {

  /** The characters for which Python's `str.isspace()` holds; `str.strip()`
      with no argument removes exactly these from both ends. */
  const Whitespace: set<char> := {
    '\t', '\n', '\U{0B}', '\U{0C}', '\r', '\U{1C}', '\U{1D}', '\U{1E}', '\U{1F}', ' ',
    '\U{85}', '\U{A0}', '\U{1680}',
    '\U{2000}', '\U{2001}', '\U{2002}', '\U{2003}', '\U{2004}', '\U{2005}',
    '\U{2006}', '\U{2007}', '\U{2008}', '\U{2009}', '\U{200A}',
    '\U{2028}', '\U{2029}', '\U{202F}', '\U{205F}', '\U{3000}'
  }

  /** The line boundaries recognised by Python's `str.splitlines()`
      (`"\r\n"` counts as one boundary, see SplitLines). */
  predicate IsLineBreak(c: char) {
    || ('\n' <= c <= '\r')
    || ('\U{1C}' <= c <= '\U{1E}')
    || c == '\U{85}' || c == '\U{2028}' || c == '\U{2029}'
  }

  /** Every character of s is dropped. */
  ghost predicate AllOf(s: string, drop: set<char>) {
    forall i :: 0 <= i < |s| ==> s[i] in drop
  }

  /** s neither starts nor ends with a character satisfying drop. */
  ghost predicate Trimmed(s: string, drop: set<char>) {
    s == [] || (s[0] !in drop && s[|s| - 1] !in drop)
  }

  /** Python's `s.lstrip(chars)`, the character set given as a predicate. */
  function LStrip(s: string, drop: set<char>): (r: string)
    ensures |r| <= |s| && r == s[|s| - |r|..]
    ensures r == [] || r[0] !in drop
  {
    if s != [] && s[0] in drop then LStrip(s[1..], drop) else s
  }

  /** Everything LStrip removes is dropped. */
  lemma {:induction false} LStripDrops(s: string, drop: set<char>)
    ensures AllOf(s[..|s| - |LStrip(s, drop)|], drop)
    decreases |s|
  {
    if s != [] && s[0] in drop {
      var k := |s| - |LStrip(s, drop)|;
      LStripDrops(s[1..], drop);
      assert s[..k] == [s[0]] + s[1..][..k - 1];
    }
  }

  /** Python's `s.rstrip(chars)`, the character set given as a predicate. */
  function RStrip(s: string, drop: set<char>): (r: string)
    ensures |r| <= |s| && r == s[..|r|]
    ensures r == [] || r[|r| - 1] !in drop
  {
    if s != [] && s[|s| - 1] in drop then RStrip(s[..|s| - 1], drop) else s
  }

  /** Everything RStrip removes is dropped. */
  lemma {:induction false} RStripDrops(s: string, drop: set<char>)
    ensures AllOf(s[|RStrip(s, drop)|..], drop)
    decreases |s|
  {
    if s != [] && s[|s| - 1] in drop {
      var k := |RStrip(s, drop)|;
      RStripDrops(s[..|s| - 1], drop);
      assert s[k..] == s[..|s| - 1][k..] + [s[|s| - 1]];
    }
  }

  /** r is the block of s starting at i, with only dropped characters
      before and after it. */
  ghost predicate IsBlock(s: string, r: string, i: int, drop: set<char>) {
    0 <= i <= |s| - |r| && r == s[i..i + |r|] && AllOf(s[..i], drop) && AllOf(s[i + |r|..], drop)
  }

  /** Python's `s.strip(chars)`: it neither starts nor ends with a dropped
      character (see StripIsBlock for where it sits in s). */
  function Strip(s: string, drop: set<char>): (r: string)
    ensures Trimmed(r, drop)
  {
    RStrip(LStrip(s, drop), drop)
  }

  /** The result of Strip is a block of s with only dropped characters
      before and after it. */
  lemma StripIsBlock(s: string, drop: set<char>)
    ensures exists i :: IsBlock(s, Strip(s, drop), i, drop)
  {
    var l := LStrip(s, drop);
    LStripDrops(s, drop);
    RStripDrops(l, drop);
    BlockOfStrips(s, l, RStrip(l, drop), drop);
    assert IsBlock(s, Strip(s, drop), |s| - |l|, drop);
  }

  lemma BlockOfStrips(s: string, l: string, r: string, drop: set<char>)
    requires |l| <= |s| && l == s[|s| - |l|..] && AllOf(s[..|s| - |l|], drop)
    requires |r| <= |l| && r == l[..|r|] && AllOf(l[|r|..], drop)
    ensures IsBlock(s, r, |s| - |l|, drop)
  {
    var i := |s| - |l|;
    assert s[i + |r|..] == l[|r|..];
  }

  lemma {:induction false} LStripAfterDropped(p: string, m: string, drop: set<char>)
    requires AllOf(p, drop)
    requires m == [] || m[0] !in drop
    ensures LStrip(p + m, drop) == m
    decreases |p|
  {
    if p != [] {
      assert (p + m)[1..] == p[1..] + m;
      LStripAfterDropped(p[1..], m, drop);
    } else {
      assert p + m == m;
    }
  }

  lemma {:induction false} RStripBeforeDropped(m: string, q: string, drop: set<char>)
    requires AllOf(q, drop)
    requires m == [] || m[|m| - 1] !in drop
    ensures RStrip(m + q, drop) == m
    decreases |q|
  {
    if q != [] {
      assert (m + q)[..|m + q| - 1] == m + q[..|q| - 1];
      RStripBeforeDropped(m, q[..|q| - 1], drop);
    } else {
      assert m + q == m;
    }
  }

  /** Strip is determined by its contract: whatever sits between a run of
      dropped characters on each side, and has none at its own ends, is the
      result. */
  lemma StripUnique(p: string, m: string, q: string, drop: set<char>)
    requires AllOf(p, drop) && AllOf(q, drop) && Trimmed(m, drop)
    ensures Strip(p + m + q, drop) == m
  {
    if m == [] {
      assert p + m + q == p + q;
      assert AllOf(p + q, drop);
      LStripAfterDropped(p + q, [], drop);
      assert p + q + [] == p + q;
      assert RStrip([], drop) == [];
    } else {
      assert p + m + q == p + (m + q);
      LStripAfterDropped(p, m + q, drop);
      RStripBeforeDropped(m, q, drop);
    }
  }

  /** Strip leaves nothing exactly when every character is dropped. */
  lemma StripEmpty(s: string, drop: set<char>)
    ensures Strip(s, drop) == [] <==> AllOf(s, drop)
  {
    if AllOf(s, drop) {
      assert s + [] + [] == s;
      StripUnique(s, [], [], drop);
    } else {
      var r := Strip(s, drop);
      StripIsBlock(s, drop);
      var i :| IsBlock(s, r, i, drop);
      if r == [] {
        EmptyBlock(s, r, i, drop);
      }
    }
  }

  lemma EmptyBlock(s: string, r: string, i: int, drop: set<char>)
    requires IsBlock(s, r, i, drop) && r == []
    ensures AllOf(s, drop)
  {
    forall k | 0 <= k < |s|
      ensures s[k] in drop
    {
      if k < i {
        assert s[k] == s[..i][k];
      } else {
        assert s[k] == s[i..][k - i];
      }
    }
  }

  /** The stripped text starts at the first character that is not dropped. */
  lemma StripStart(s: string, drop: set<char>, i: nat)
    requires i < |s| && AllOf(s[..i], drop) && s[i] !in drop
    ensures Strip(s, drop) != [] && Strip(s, drop)[0] == s[i]
  {
    var r := Strip(s, drop);
    StripIsBlock(s, drop);
    var j :| IsBlock(s, r, j, drop);
    BlockStart(s, r, j, drop, i);
  }

  lemma BlockStart(s: string, r: string, j: int, drop: set<char>, i: nat)
    requires IsBlock(s, r, j, drop) && Trimmed(r, drop)
    requires i < |s| && AllOf(s[..i], drop) && s[i] !in drop
    ensures r != [] && r[0] == s[i]
  {
  }

  /** Strip removes only dropped characters: any other character occurs in
      the result exactly when it occurs in s. */
  lemma StripKeeps(s: string, drop: set<char>, c: char)
    requires c !in drop
    ensures c in Strip(s, drop) <==> c in s
  {
    var r := Strip(s, drop);
    StripIsBlock(s, drop);
    var i :| IsBlock(s, r, i, drop);
    BlockKeeps(s, r, i, drop, c);
  }

  lemma BlockKeeps(s: string, r: string, i: int, drop: set<char>, c: char)
    requires IsBlock(s, r, i, drop) && c !in drop
    ensures c in r <==> c in s
  {
    if c in s {
      var k :| 0 <= k < |s| && s[k] == c;
      if i <= k < i + |r| {
        assert r[k - i] == c;
      }
    }
    if c in r {
      var k :| 0 <= k < |r| && r[k] == c;
      assert s[i + k] == c;
    }
  }

  /** The length of the first line of s: the index of its first line break, or |s|. */
  function LineEnd(s: string): (i: nat)
    ensures i <= |s| && (i < |s| ==> IsLineBreak(s[i]))
  {
    if s == [] || IsLineBreak(s[0]) then 0 else 1 + LineEnd(s[1..])
  }

  /** No line break comes before the one LineEnd finds. */
  lemma {:induction false} LineEndIsLine(s: string)
    ensures IsLine(s[..LineEnd(s)])
    decreases |s|
  {
    if s != [] && !IsLineBreak(s[0]) {
      LineEndIsLine(s[1..]);
      assert s[..LineEnd(s)] == [s[0]] + s[1..][..LineEnd(s[1..])];
    }
  }

  /** A line holds no line break. */
  ghost predicate IsLine(l: string) {
    forall k :: 0 <= k < |l| ==> !IsLineBreak(l[k])
  }

  /** Python's `s.splitlines()`: the empty text has no lines, a final line
      break does not start another line, and `"\r\n"` is a single break. */
  function SplitLines(s: string): seq<string>
    decreases |s|
  {
    if s == [] then []
    else
      var i := LineEnd(s);
      if i == |s| then [s]
      else [s[..i]] + SplitLines(s[NextLine(s, i)..])
  }

  /** Where the line after the break at i starts: `"\r\n"` is one break. */
  function NextLine(s: string, i: nat): (next: nat)
    requires i < |s|
    ensures i < next <= |s|
  {
    if s[i] == '\r' && i + 1 < |s| && s[i + 1] == '\n' then i + 2 else i + 1
  }

  /** Every line splitlines() returns is free of line breaks, and there are
      no more lines than characters. */
  lemma {:induction false} SplitLinesAreLines(s: string)
    ensures forall n :: 0 <= n < |SplitLines(s)| ==> IsLine(SplitLines(s)[n])
    ensures |SplitLines(s)| <= |s|
    decreases |s|
  {
    if s != [] {
      var i := LineEnd(s);
      LineEndIsLine(s);
      if i < |s| {
        var next := NextLine(s, i);
        SplitLinesUnfold(s, i, next);
        SplitLinesAreLines(s[next..]);
      }
    }
  }

  /** A valid line terminator: one break character, or `"\r\n"`. */
  ghost predicate IsTerminator(eol: string) {
    eol == "\r\n" || (|eol| == 1 && IsLineBreak(eol[0]))
  }

  /** The text made of the given lines, each followed by eol. */
  function JoinLines(lines: seq<string>, eol: string): string {
    if lines == [] then [] else lines[0] + eol + JoinLines(lines[1..], eol)
  }

  /** splitlines() undoes joining break-free lines with any terminator. */
  lemma {:induction false} SplitJoinLines(lines: seq<string>, eol: string)
    requires forall n :: 0 <= n < |lines| ==> IsLine(lines[n])
    requires IsTerminator(eol)
    ensures SplitLines(JoinLines(lines, eol)) == lines
  {
    if lines != [] {
      var first, others := lines[0], lines[1..];
      var rest := JoinLines(others, eol);
      assert JoinLines(lines, eol) == first + eol + rest;
      assert IsLine(first);
      if others != [] {
        assert IsLine(others[0]);
        JoinedStart(others, eol);
      }
      SplitFirstLine(first, eol, rest);
      assert forall n :: 0 <= n < |others| ==> IsLine(others[n]);
      SplitJoinLines(others, eol);
      assert lines == [first] + others;
    }
  }

  /** Joined lines start with the first character of the first line, or
      with the terminator when that line is empty: never with a `\n` that
      could follow a lone `\r`. */
  lemma JoinedStart(lines: seq<string>, eol: string)
    requires lines != [] && IsLine(lines[0]) && IsTerminator(eol)
    ensures eol == "\r" ==> JoinLines(lines, eol)[0] != '\n'
  {
    var r := JoinLines(lines, eol);
    assert r == lines[0] + (eol + JoinLines(lines[1..], eol));
    if lines[0] == [] {
      assert r[0] == eol[0];
    } else {
      assert r[0] == lines[0][0];
    }
  }

  /** A break-free line followed by a terminator is the first line (unless
      a lone `\r` is followed by `\n`, which reads as one `\r\n` break). */
  lemma SplitFirstLine(l: string, eol: string, rest: string)
    requires IsLine(l) && IsTerminator(eol)
    requires eol == "\r" && rest != [] ==> rest[0] != '\n'
    ensures SplitLines(l + eol + rest) == [l] + SplitLines(rest)
  {
    var s := l + eol + rest;
    assert s == l + (eol + rest);
    LineEndOfLine(l, eol + rest);
    assert s[..|l|] == l;
    NextAfterTerminator(l, eol, rest);
    assert s[|l| + |eol|..] == rest;
    SplitLinesUnfold(s, |l|, |l| + |eol|);
  }

  /** The text after a terminator starts right after all of it. */
  lemma NextAfterTerminator(l: string, eol: string, rest: string)
    requires IsTerminator(eol)
    requires eol == "\r" && rest != [] ==> rest[0] != '\n'
    ensures NextLine(l + eol + rest, |l|) == |l| + |eol|
  {
    var s := l + eol + rest;
    assert s[|l|] == eol[0];
    if eol == "\r\n" {
      assert s[|l| + 1] == '\n';
    } else if |l| + 1 < |s| {
      assert s[|l| + 1] == rest[0];
    }
  }

  /** A last line with no break after it is returned as it is:
      `"A=1".splitlines() == ["A=1"]`. */
  lemma SplitLastLine(l: string)
    requires IsLine(l) && l != []
    ensures SplitLines(l) == [l]
  {
    LineEndOfWhole(l);
  }

  lemma {:induction false} LineEndOfWhole(l: string)
    requires IsLine(l)
    ensures LineEnd(l) == |l|
    decreases |l|
  {
    if l != [] {
      assert IsLine(l[1..]);
      LineEndOfWhole(l[1..]);
    }
  }

  /** One step of SplitLines: the first line ends at i and the next starts at next. */
  lemma SplitLinesUnfold(s: string, i: nat, next: nat)
    requires i == LineEnd(s) && i < |s|
    requires next == NextLine(s, i)
    ensures SplitLines(s) == [s[..i]] + SplitLines(s[next..])
  {
    assert s != [];
  }

  lemma {:induction false} LineEndOfLine(l: string, rest: string)
    requires IsLine(l)
    requires rest != [] && IsLineBreak(rest[0])
    ensures LineEnd(l + rest) == |l|
    decreases |l|
  {
    if l != [] {
      assert (l + rest)[1..] == l[1..] + rest;
      LineEndOfLine(l[1..], rest);
    } else {
      assert l + rest == rest;
    }
  }
}
