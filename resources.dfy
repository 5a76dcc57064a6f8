/** The two text resources read once at start-up: the skill vocabulary, one
    term per line, and the knowledge base, paragraphs separated by a blank
    line. Only the string transformations applied to the file contents are
    modelled; reading the files is not. */
module Resources {
  import opened TextOps

  /** The non-blank pieces, each stripped, in their original order. */
  function StripNonBlank(pieces: seq<string>): (kept: seq<string>)
    ensures |kept| <= |pieces|
    ensures forall k | 0 <= k < |kept| :: kept[k] != [] && IsStripped(kept[k])
  {
    if pieces == [] then
      []
    else
      var p := Strip(pieces[0]);
      (if p != [] then [p] else []) + StripNonBlank(pieces[1..])
  }

  /** Keeping the non-blank pieces works piece by piece: the pieces of a
      concatenation are kept in the order they come. */
  lemma {:induction false} StripNonBlankAppend(a: seq<string>, b: seq<string>)
    ensures StripNonBlank(a + b) == StripNonBlank(a) + StripNonBlank(b)
  {
    if a == [] {
      assert a + b == b;
    } else {
      var p := Strip(a[0]);
      var head := if p != [] then [p] else [];
      assert (a + b)[0] == a[0] && (a + b)[1..] == a[1..] + b;
      assert StripNonBlank(a) == head + StripNonBlank(a[1..]);
      assert StripNonBlank(a + b) == head + StripNonBlank(a[1..] + b);
      StripNonBlankAppend(a[1..], b);
    }
  }

  /** `x` is the stripped text of some piece and is not empty. */
  ghost predicate KeptFrom(pieces: seq<string>, x: string) {
    x != [] && exists k | 0 <= k < |pieces| :: Strip(pieces[k]) == x
  }

  /** A piece is kept exactly when it is not blank, and what is kept is its
      stripped text. */
  lemma {:induction false} StripNonBlankMembers(pieces: seq<string>, x: string)
    ensures x in StripNonBlank(pieces) <==> KeptFrom(pieces, x)
  {
    if pieces != [] {
      var p := Strip(pieces[0]);
      var head := if p != [] then [p] else [];
      var tail := pieces[1..];
      assert StripNonBlank(pieces) == head + StripNonBlank(tail);
      StripNonBlankMembers(tail, x);
      if KeptFrom(tail, x) {
        var k :| 0 <= k < |tail| && Strip(tail[k]) == x;
        assert Strip(pieces[k + 1]) == x;
      }
      if KeptFrom(pieces, x) && p != x {
        var k :| 0 <= k < |pieces| && Strip(pieces[k]) == x;
        assert k != 0;
        assert Strip(tail[k - 1]) == x;
      }
    }
  }

  /** The skill vocabulary: every line of the file, stripped and
      lower-cased, blank lines dropped. */
  function ParseSkills(content: string): (skills: seq<string>)
    ensures forall k | 0 <= k < |skills| ::
      skills[k] != [] && IsStripped(skills[k]) && IsLowerCase(skills[k])
  {
    var kept := StripNonBlank(Lines(content));
    var skills := LowerAll(kept);
    forall k | 0 <= k < |skills| ensures IsStripped(skills[k]) {
      LowerKeepsStripped(kept[k]);
    }
    skills
  }

  /** Every string lower-cased, in place. */
  function LowerAll(xs: seq<string>): (ys: seq<string>)
    ensures |ys| == |xs| && forall i | 0 <= i < |xs| :: ys[i] == Lower(xs[i])
  {
    seq(|xs|, i requires 0 <= i < |xs| => Lower(xs[i]))
  }

  /** Line `k` of the file is not blank and reads `t` once stripped and
      lower-cased. */
  ghost predicate SkillLine(lines: seq<string>, t: string) {
    exists k | 0 <= k < |lines| :: Strip(lines[k]) != [] && Lower(Strip(lines[k])) == t
  }

  /** A term is in the vocabulary exactly when some non-blank line of the
      file yields it. */
  lemma ParseSkillsMembers(content: string, t: string)
    ensures t in ParseSkills(content) <==> SkillLine(Lines(content), t)
  {
    if t in ParseSkills(content) {
      SkillFromLine(Lines(content), t);
    }
    if SkillLine(Lines(content), t) {
      LineGivesSkill(Lines(content), t);
    }
  }

  /** Every vocabulary term comes from a non-blank line. */
  lemma SkillFromLine(lines: seq<string>, t: string)
    requires t in LowerAll(StripNonBlank(lines))
    ensures SkillLine(lines, t)
  {
    var kept := StripNonBlank(lines);
    var i :| 0 <= i < |kept| && LowerAll(kept)[i] == t;
    StripNonBlankMembers(lines, kept[i]);
    var k :| 0 <= k < |lines| && Strip(lines[k]) == kept[i];
    assert Strip(lines[k]) != [] && Lower(Strip(lines[k])) == t;
  }

  /** Every non-blank line gives a vocabulary term. */
  lemma LineGivesSkill(lines: seq<string>, t: string)
    requires SkillLine(lines, t)
    ensures t in LowerAll(StripNonBlank(lines))
  {
    var kept := StripNonBlank(lines);
    var k :| 0 <= k < |lines| && Strip(lines[k]) != [] && Lower(Strip(lines[k])) == t;
    StripNonBlankMembers(lines, Strip(lines[k]));
    var i :| 0 <= i < |kept| && kept[i] == Strip(lines[k]);
    assert LowerAll(kept)[i] == t;
  }

  /** The vocabulary keeps the order of the file: the terms of a file made
      of two blocks of whole lines are those of the first block, then those
      of the second. */
  lemma ParseSkillsInFileOrder(first: string, second: string)
    requires first == [] || first[|first| - 1] == '\n'
    ensures ParseSkills(first + second) == ParseSkills(first) + ParseSkills(second)
  {
    LinesAppend(first, second);
    StripNonBlankAppend(Lines(first), Lines(second));
    LowerAllAppend(StripNonBlank(Lines(first)), StripNonBlank(Lines(second)));
  }

  lemma LowerAllAppend(a: seq<string>, b: seq<string>)
    ensures LowerAll(a + b) == LowerAll(a) + LowerAll(b)
  {
    var l, r := LowerAll(a + b), LowerAll(a) + LowerAll(b);
    assert |l| == |r|;
    forall i | 0 <= i < |l| ensures l[i] == r[i] {
      if i < |a| {
        assert (a + b)[i] == a[i];
      } else {
        assert (a + b)[i] == b[i - |a|];
      }
    }
  }

  const ParagraphSeparator: string := "\n\n"

  /** The knowledge base: the text split at each blank line ("\n\n"), every
      piece stripped, empty pieces dropped. */
  function ParseParagraphs(text: string): (paragraphs: seq<string>)
    ensures forall k | 0 <= k < |paragraphs| ::
      && paragraphs[k] != []
      && IsStripped(paragraphs[k])
      && !IsSubstring(ParagraphSeparator, paragraphs[k])
  {
    var pieces := Split(text, ParagraphSeparator);
    var paragraphs := StripNonBlank(pieces);
    NoSeparatorInPieces(text, ParagraphSeparator, pieces);
    forall k | 0 <= k < |paragraphs|
      ensures !IsSubstring(ParagraphSeparator, paragraphs[k])
    {
      StripNonBlankMembers(pieces, paragraphs[k]);
      var j :| 0 <= j < |pieces| && Strip(pieces[j]) == paragraphs[k];
      NoSeparatorInStrip(pieces[j], ParagraphSeparator);
    }
    paragraphs
  }

  /** The paragraphs are exactly the non-blank pieces between blank lines,
      stripped. */
  lemma ParseParagraphsMembers(text: string, p: string)
    ensures p in ParseParagraphs(text) <==> KeptFrom(Split(text, ParagraphSeparator), p)
  {
    StripNonBlankMembers(Split(text, ParagraphSeparator), p);
  }

  /** No piece of a split holds the separator. */
  lemma NoSeparatorInPieces(s: string, sep: string, pieces: seq<string>)
    requires sep != [] && SplitOf(s, sep, pieces)
    ensures forall k | 0 <= k < |pieces| :: !IsSubstring(sep, pieces[k])
  {
    forall k | 0 <= k < |pieces| - 1 ensures !IsSubstring(sep, pieces[k]) {
      var extended := pieces[k] + sep[..|sep| - 1];
      assert extended[..|pieces[k]|] == pieces[k];
      if IsSubstring(sep, pieces[k]) {
        SubstringOfSlice(sep, extended, 0, |pieces[k]|);
      }
    }
  }

  /** Stripping cannot create an occurrence of a string. */
  lemma NoSeparatorInStrip(piece: string, sep: string)
    requires !IsSubstring(sep, piece)
    ensures !IsSubstring(sep, Strip(piece))
  {
    StripCuts(piece);
    var i, j :| 0 <= i <= j <= |piece| && AllSpace(piece[..i]) && piece[i..j] == Strip(piece) && AllSpace(piece[j..]);
    if IsSubstring(sep, Strip(piece)) {
      SubstringOfSlice(sep, piece, i, j);
    }
  }
}
