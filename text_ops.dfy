/** String operations the matcher borrows from Python's `str`: `strip()`,
    `lower()`, the `in` substring test, `split(sep)`, and the line-by-line
    iteration of a text file. */
module TextOps {

  /** The characters Python's `str.isspace()` accepts, hence the ones
      `str.strip()` removes: ASCII tab to carriage return, the four
      information separators, space, and the Unicode space and line
      separators. */
  const Whitespace: set<char> := {
      ' ', '\t', '\n', '\U{b}', '\U{c}', '\r', '\U{1c}', '\U{1d}',
      '\U{1e}', '\U{1f}', '\U{85}', '\U{a0}', '\U{1680}', '\U{2000}', '\U{2001}', '\U{2002}',
      '\U{2003}', '\U{2004}', '\U{2005}', '\U{2006}', '\U{2007}', '\U{2008}', '\U{2009}', '\U{200a}',
      '\U{2028}', '\U{2029}', '\U{202f}', '\U{205f}', '\U{3000}'
    }

  predicate IsSpace(c: char) {
    c in Whitespace
  }

  predicate AllSpace(s: string) {
    forall i | 0 <= i < |s| :: IsSpace(s[i])
  }

  /** Neither end of `s` is whitespace. */
  predicate IsStripped(s: string) {
    s == [] || (!IsSpace(s[0]) && !IsSpace(s[|s| - 1]))
  }

  /** `r` is `s` with a whitespace prefix and a whitespace suffix cut off,
      and no whitespace is left at either end: what `s.strip()` returns. */
  ghost predicate StripOf(s: string, r: string) {
    && IsStripped(r)
    && exists i, j | 0 <= i <= j <= |s| ::
         AllSpace(s[..i]) && s[i..j] == r && AllSpace(s[j..])
  }

  /** The end of the run of whitespace that starts at `i`. */
  function SkipSpace(s: string, i: nat): (j: nat)
    requires i <= |s|
    ensures i <= j <= |s|
    ensures forall k | i <= k < j :: IsSpace(s[k])
    ensures j == |s| || !IsSpace(s[j])
    decreases |s| - i
  {
    if i < |s| && IsSpace(s[i]) then SkipSpace(s, i + 1) else i
  }

  /** The start of the run of whitespace that ends at `j`, not going
      below `lo`. */
  function SkipSpaceBack(s: string, lo: nat, j: nat): (i: nat)
    requires lo <= j <= |s|
    ensures lo <= i <= j
    ensures forall k | i <= k < j :: IsSpace(s[k])
    ensures i == lo || !IsSpace(s[i - 1])
  {
    if lo < j && IsSpace(s[j - 1]) then SkipSpaceBack(s, lo, j - 1) else j
  }

  /** Python's `s.strip()`: nothing but whitespace is left out, and the
      result is empty exactly when `s` is all whitespace. */
  function Strip(s: string): (r: string)
    ensures IsStripped(r)
    ensures r == [] <==> AllSpace(s)
  {
    var i := SkipSpace(s, 0);
    var j := SkipSpaceBack(s, i, |s|);
    assert i < j ==> s[i..j][0] == s[i] && s[i..j][j - i - 1] == s[j - 1];
    s[i..j]
  }

  /** `Strip(s)` cuts whitespace from both ends of `s` and nothing else. */
  lemma StripCuts(s: string)
    ensures StripOf(s, Strip(s))
  {
    var i := SkipSpace(s, 0);
    var j := SkipSpaceBack(s, i, |s|);
    assert AllSpace(s[..i]) by {
      forall k | 0 <= k < i ensures IsSpace(s[..i][k]) {
        assert s[..i][k] == s[k];
      }
    }
    assert AllSpace(s[j..]) by {
      forall k | 0 <= k < |s| - j ensures IsSpace(s[j..][k]) {
        assert s[j..][k] == s[j + k];
      }
    }
  }

  /** The result of `strip()` is determined by `StripOf`: no other way of
      trimming whitespace from both ends leaves both ends non-blank. */
  lemma StripOfUnique(s: string, r1: string, r2: string)
    requires StripOf(s, r1) && StripOf(s, r2)
    ensures r1 == r2
  {
    var i1, j1 :| 0 <= i1 <= j1 <= |s| && AllSpace(s[..i1]) && s[i1..j1] == r1 && AllSpace(s[j1..]);
    var i2, j2 :| 0 <= i2 <= j2 <= |s| && AllSpace(s[..i2]) && s[i2..j2] == r2 && AllSpace(s[j2..]);
    SameCut(s, i1, j1, i2, j2);
  }

  /** Two cuts of `s` with only whitespace outside and none at the ends
      of what they keep keep the same text. */
  lemma SameCut(s: string, i1: nat, j1: nat, i2: nat, j2: nat)
    requires i1 <= j1 <= |s| && AllSpace(s[..i1]) && AllSpace(s[j1..]) && IsStripped(s[i1..j1])
    requires i2 <= j2 <= |s| && AllSpace(s[..i2]) && AllSpace(s[j2..]) && IsStripped(s[i2..j2])
    ensures s[i1..j1] == s[i2..j2]
  {
    SpaceOutside(s, i1, j1);
    SpaceOutside(s, i2, j2);
    if i1 < j1 {
      assert !IsSpace(s[i1]) && !IsSpace(s[j1 - 1]) by {
        assert s[i1] == s[i1..j1][0] && s[j1 - 1] == s[i1..j1][j1 - i1 - 1];
      }
      assert i2 <= i1 < j2 && i2 < j1 <= j2;
      assert !IsSpace(s[i2]) && !IsSpace(s[j2 - 1]) by {
        assert s[i2] == s[i2..j2][0] && s[j2 - 1] == s[i2..j2][j2 - i2 - 1];
      }
    }
  }

  lemma SpaceOutside(s: string, i: nat, j: nat)
    requires i <= j <= |s| && AllSpace(s[..i]) && AllSpace(s[j..])
    ensures forall k | 0 <= k < |s| && !(i <= k < j) :: IsSpace(s[k])
  {
    forall k | 0 <= k < |s| && !(i <= k < j) ensures IsSpace(s[k]) {
      if k < i { assert s[k] == s[..i][k]; } else { assert s[k] == s[j..][k - j]; }
    }
  }

  predicate IsUpper(c: char) {
    'A' <= c <= 'Z'
  }

  function LowerChar(c: char): char {
    if IsUpper(c) then (c as int - 'A' as int + 'a' as int) as char else c
  }

  predicate IsLowerCase(s: string) {
    forall i | 0 <= i < |s| :: !IsUpper(s[i])
  }

  /** Python's `s.lower()`, restricted to the ASCII letters. */
  function Lower(s: string): (r: string)
    ensures |r| == |s| && IsLowerCase(r)
    ensures forall i | 0 <= i < |s| :: r[i] == LowerChar(s[i])
  {
    seq(|s|, i requires 0 <= i < |s| => LowerChar(s[i]))
  }

  /** Lower-casing only touches letters, so it keeps whitespace where it is
      and a stripped string stays stripped. */
  lemma LowerKeepsStripped(s: string)
    requires IsStripped(s)
    ensures IsStripped(Lower(s))
  {
    if s != [] {
      assert Lower(s)[0] == LowerChar(s[0]);
      assert Lower(s)[|s| - 1] == LowerChar(s[|s| - 1]);
    }
  }

  /** Lower-casing is idempotent, and leaves lower-case text as it is. */
  lemma LowerOfLowerCase(s: string)
    requires IsLowerCase(s)
    ensures Lower(s) == s
  {
  }

  /** `t` occurs in `s` starting at index `i`. */
  predicate OccursAt(t: string, s: string, i: int) {
    0 <= i && i + |t| <= |s| && s[i..i + |t|] == t
  }

  /** Python's `t in s`: `t` occurs in `s` as a contiguous block. The empty
      string occurs in every string. */
  ghost predicate IsSubstring(t: string, s: string) {
    exists i :: OccursAt(t, s, i)
  }

  /** An occurrence of `t` in `[c] + u` either starts at the front or lies
      wholly inside `u`. */
  lemma SubstringOfCons(t: string, c: char, u: string)
    requires |t| <= |u| + 1
    ensures IsSubstring(t, [c] + u) <==> ([c] + u)[..|t|] == t || IsSubstring(t, u)
  {
    var s := [c] + u;
    if IsSubstring(t, s) && s[..|t|] != t {
      var i :| OccursAt(t, s, i);
      assert i >= 1;
      assert u[i - 1..i - 1 + |t|] == s[i..i + |t|];
      assert OccursAt(t, u, i - 1);
    }
    if IsSubstring(t, u) {
      var i :| OccursAt(t, u, i);
      assert s[i + 1..i + 1 + |t|] == u[i..i + |t|];
      assert OccursAt(t, s, i + 1);
    }
    if s[..|t|] == t {
      assert OccursAt(t, s, 0);
    }
  }

  /** Whatever occurs inside a slice of `s` occurs in `s`. */
  lemma SubstringOfSlice(t: string, s: string, i: nat, j: nat)
    requires i <= j <= |s| && IsSubstring(t, s[i..j])
    ensures IsSubstring(t, s)
  {
    var k :| OccursAt(t, s[i..j], k);
    assert forall m | 0 <= m < |t| :: t[m] == s[i..j][k + m];
    assert OccursAt(t, s, i + k);
  }

  /** The substring test as the interpreter runs it: try each start
      position from the left. */
  function Contains(s: string, t: string): (r: bool)
    ensures r <==> IsSubstring(t, s)
  {
    if |t| > |s| then
      false
    else if s[..|t|] == t then
      assert OccursAt(t, s, 0);
      true
    else
      SubstringOfCons(t, s[0], s[1..]);
      assert [s[0]] + s[1..] == s;
      Contains(s[1..], t)
  }

  /** Inverse of `s.split(sep)`: the pieces glued back with `sep`. */
  function Join(pieces: seq<string>, sep: string): string
    requires |pieces| >= 1
  {
    if |pieces| == 1 then pieces[0] else pieces[0] + sep + Join(pieces[1..], sep)
  }

  /** `piece`, followed by all of `sep` but its last character, holds no
      occurrence of `sep`: the first occurrence of `sep` after `piece`
      begins right at its end. This is what makes splitting leftmost. */
  ghost predicate EndsAtFirstSeparator(piece: string, sep: string)
    requires sep != []
  {
    !IsSubstring(sep, piece + sep[..|sep| - 1])
  }

  /** The pieces of a split: gluing them back gives `s`, each separator
      used is the leftmost one left, and the last piece holds none. */
  ghost predicate SplitOf(s: string, sep: string, pieces: seq<string>)
    requires sep != []
  {
    && |pieces| >= 1
    && Join(pieces, sep) == s
    && (forall k | 0 <= k < |pieces| - 1 :: EndsAtFirstSeparator(pieces[k], sep))
    && !IsSubstring(sep, pieces[|pieces| - 1])
  }

  /** Python's `s.split(sep)` for a non-empty separator. */
  function Split(s: string, sep: string): (pieces: seq<string>)
    requires sep != []
    ensures SplitOf(s, sep, pieces)
    decreases |s|
  {
    if |s| < |sep| then
      assert !IsSubstring(sep, s);
      [s]
    else if s[..|sep|] == sep then
      var rest := Split(s[|sep|..], sep);
      assert EndsAtFirstSeparator([], sep) by {
        assert [] + sep[..|sep| - 1] == sep[..|sep| - 1];
      }
      assert s == [] + sep + s[|sep|..];
      assert ([[]] + rest)[1..] == rest;
      [[]] + rest
    else
      var rest := Split(s[1..], sep);
      var head := [s[0]] + rest[0];
      var pieces := [head] + rest[1..];
      SplitHead(s, sep, rest);
      assert pieces[1..] == rest[1..];
      pieces
  }

  /** The induction step of `Split` when `s` does not start with `sep`: its
      first character joins the first piece of the rest. */
  lemma SplitHead(s: string, sep: string, rest: seq<string>)
    requires sep != [] && |s| >= |sep| && s[..|sep|] != sep
    requires SplitOf(s[1..], sep, rest)
    ensures var pieces := [[s[0]] + rest[0]] + rest[1..];
      SplitOf(s, sep, pieces)
  {
    var head := [s[0]] + rest[0];
    var pieces := [head] + rest[1..];
    assert pieces[1..] == rest[1..];
    if |rest| == 1 {
      assert head == s;
      SubstringOfCons(sep, s[0], s[1..]);
      assert [s[0]] + s[1..] == s;
    } else {
      var tail := Join(rest[1..], sep);
      assert s[1..] == rest[0] + sep + tail;
      assert s == head + sep + tail;
      assert Join(pieces, sep) == s;
      var cut := sep[..|sep| - 1];
      assert head + cut == [s[0]] + (rest[0] + cut);
      assert (head + cut)[..|sep|] == s[..|sep|] by {
        assert head + sep == s[..|head| + |sep|];
      }
      SubstringOfCons(sep, s[0], rest[0] + cut);
      forall k | 0 <= k < |pieces| - 1 ensures EndsAtFirstSeparator(pieces[k], sep) {
        if k > 0 { assert pieces[k] == rest[k]; }
      }
    }
  }

  /** The lines `for line in file` yields: every line but the last ends in
      '\n', no line holds '\n' anywhere else, no line is empty, and together
      they are the whole file. */
  ghost predicate LinesOf(content: string, lines: seq<string>) {
    && Concat(lines) == content
    && (forall k | 0 <= k < |lines| :: lines[k] != [])
    && (forall k | 0 <= k < |lines| - 1 :: lines[k][|lines[k]| - 1] == '\n')
    && (forall k, i | 0 <= k < |lines| && 0 <= i < |lines[k]| - 1 :: lines[k][i] != '\n')
  }

  function Concat(lines: seq<string>): string {
    if lines == [] then [] else lines[0] + Concat(lines[1..])
  }

  /** Iterating over a text file: the file content cut after each '\n'. */
  function Lines(content: string): (lines: seq<string>)
    ensures lines == [] <==> content == []
  {
    if content == [] then [] else PrependChar(content[0], Lines(content[1..]))
  }

  /** The lines of `[c] + s`, given the lines `rest` of `s`: a newline is a
      line of its own; any other character starts the first line. */
  function PrependChar(c: char, rest: seq<string>): seq<string> {
    if c == '\n' then [['\n']] + rest
    else if rest == [] then [[c]]
    else [[c] + rest[0]] + rest[1..]
  }

  /** Putting a character in front commutes with appending further lines. */
  lemma PrependCharAppend(c: char, a: seq<string>, b: seq<string>)
    requires a != []
    ensures PrependChar(c, a + b) == PrependChar(c, a) + b
  {
    if c != '\n' {
      assert (a + b)[0] == a[0] && (a + b)[1..] == a[1..] + b;
    }
  }

  /** `Lines` cuts the file into lines exactly as `LinesOf` describes. */
  lemma {:induction false} LinesCut(content: string)
    ensures LinesOf(content, Lines(content))
  {
    if content != [] {
      LinesCut(content[1..]);
      PrependCharCut(content[0], content[1..], Lines(content[1..]));
      assert [content[0]] + content[1..] == content;
    }
  }

  /** One more character in front of a file keeps its lines well cut. */
  lemma PrependCharCut(c: char, tail: string, rest: seq<string>)
    requires LinesOf(tail, rest)
    ensures LinesOf([c] + tail, PrependChar(c, rest))
  {
    var lines := PrependChar(c, rest);
    if c == '\n' {
      assert lines[1..] == rest;
      assert forall k | 1 <= k < |lines| :: lines[k] == rest[k - 1];
    } else if rest == [] {
      assert tail == [];
    } else {
      assert lines[1..] == rest[1..];
      assert Concat(rest) == rest[0] + Concat(rest[1..]);
      assert forall k | 1 <= k < |lines| :: lines[k] == rest[k];
    }
  }

  /** A file made of two blocks of whole lines has the lines of the first
      block, then those of the second. */
  lemma {:induction false} LinesAppend(first: string, second: string)
    requires first == [] || first[|first| - 1] == '\n'
    ensures Lines(first + second) == Lines(first) + Lines(second)
  {
    if first == [] {
      assert first + second == second;
    } else {
      var rest := first[1..];
      assert (first + second)[0] == first[0];
      assert (first + second)[1..] == rest + second;
      if rest == [] {
        assert first[0] == '\n';
      } else {
        assert rest[|rest| - 1] == first[|first| - 1];
        LinesAppend(rest, second);
        PrependCharAppend(first[0], Lines(rest), Lines(second));
      }
    }
  }
}
