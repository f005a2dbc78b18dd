// The segmenter of the chunking pipeline: `split_into_paragraphs` and
// `split_into_sentences`.  Both are `re.split` calls; the model follows
// Python's leftmost-match scan for the two patterns they use, with `\s`
// and `str.strip()` both meaning `Text.IsSpace`.

module Segmenter {
  import opened Text
  import opened Wrappers

  /** The punctuation `(?<=[.!?])` looks behind for. */
  predicate IsTerminal(c: char) {
    c == '.' || c == '!' || c == '?'
  }

  /** The two split patterns: `\n\s*\n` between paragraphs and
      `(?<=[.!?])\s+` between sentences. */
  datatype Boundary = BlankLine | SentenceEnd

  /** The last line feed in `t[a..b]`, if there is one. */
  function LastNewline(t: string, a: nat, b: nat): (r: Option<nat>)
    requires a <= b <= |t|
    ensures r.Some? ==> a <= r.value < b && t[r.value] == '\n'
    ensures r.Some? ==> forall k :: r.value < k < b ==> t[k] != '\n'
    ensures r.None? ==> forall k :: a <= k < b ==> t[k] != '\n'
    decreases b
  {
    if a == b then None
    else if t[b - 1] == '\n' then Some(b - 1)
    else LastNewline(t, a, b - 1)
  }

  /** Two line feeds at `i` and `j` with only whitespace between them. */
  predicate IsBlankLine(t: string, i: nat, j: nat) {
    i < j < |t| && t[i] == '\n' && t[j] == '\n' && forall k :: i < k < j ==> IsSpace(t[k])
  }

  ghost predicate HasBlankLine(t: string) {
    exists i: nat, j: nat :: IsBlankLine(t, i, j)
  }

  /** The end of a match of `\n\s*\n` that starts at `i`.  The greedy `\s*`
      takes the whole whitespace run after the first line feed and gives
      characters back until a line feed follows, so the match ends just
      after the last line feed of that run. */
  function BlankLineMatch(t: string, i: nat): Option<nat>
    requires i < |t|
  {
    if t[i] != '\n' then None
    else match LastNewline(t, i + 1, SkipSpace(t, i + 1))
      case Some(k) => Some(k + 1)
      case None => None
  }

  /** `\n\s*\n` matches at `i` exactly when a blank line starts there. */
  lemma BlankLineMatchIff(t: string, i: nat)
    requires i < |t|
    ensures BlankLineMatch(t, i).Some? <==> exists j: nat :: IsBlankLine(t, i, j)
  {
    if t[i] == '\n' {
      var e := SkipSpace(t, i + 1);
      match LastNewline(t, i + 1, e)
      case Some(k) =>
        assert IsBlankLine(t, i, k);
      case None =>
        forall j: nat | IsBlankLine(t, i, j) ensures false {
        }
    }
  }

  /** The end of a match of `(?<=[.!?])\s+` that starts at `i`: `\s+` is
      greedy and nothing follows it. */
  function SentenceEndMatch(t: string, i: nat): Option<nat>
    requires i < |t|
  {
    if 0 < i && IsTerminal(t[i - 1]) && IsSpace(t[i]) then Some(SkipSpace(t, i)) else None
  }

  /** The end of a match of the boundary pattern at `i`; a match is never
      empty and consists of whitespace only. */
  function MatchAt(b: Boundary, t: string, i: nat): (r: Option<nat>)
    requires i < |t|
    ensures r.Some? ==> i < r.value <= |t|
    ensures r.Some? ==> forall k :: i <= k < r.value ==> IsSpace(t[k])
  {
    match b
    case BlankLine => BlankLineMatch(t, i)
    case SentenceEnd => SentenceEndMatch(t, i)
  }

  /** The pieces of `re.split(pattern, t)`, as index ranges, when the scan
      is at `i` and the current piece starts at `start`.  After a match the
      scan resumes at its end. */
  function SplitSpans(b: Boundary, t: string, start: nat, i: nat): (r: seq<(nat, nat)>)
    requires start <= i <= |t|
    ensures |r| > 0
    ensures forall k :: 0 <= k < |r| ==> start <= r[k].0 <= r[k].1 <= |t|
    decreases |t| - i
  {
    if i == |t| then [(start, |t|)]
    else match MatchAt(b, t, i)
      case Some(e) => [(start, i)] + SplitSpans(b, t, e, e)
      case None => SplitSpans(b, t, start, i + 1)
  }

  /** The substrings of `t` at the given ranges. */
  function Slices(t: string, sp: seq<(nat, nat)>): (r: seq<string>)
    requires forall k :: 0 <= k < |sp| ==> sp[k].0 <= sp[k].1 <= |t|
    ensures |r| == |sp|
    ensures forall k :: 0 <= k < |sp| ==> r[k] == t[sp[k].0..sp[k].1]
  {
    seq(|sp|, k requires 0 <= k < |sp| => t[sp[k].0..sp[k].1])
  }

  /** `re.split(pattern, t)` */
  function Split(b: Boundary, t: string): seq<string> {
    Slices(t, SplitSpans(b, t, 0, 0))
  }

  /** `[p.strip() for p in ps if p.strip()]` */
  function StripNonEmpty(ps: seq<string>): (r: seq<string>)
    ensures forall q :: q in r ==> q != [] && IsTrimmed(q)
    ensures forall q :: q in r ==> exists k :: 0 <= k < |ps| && q == Strip(ps[k])
    ensures r == [] <==> forall k :: 0 <= k < |ps| ==> AllSpace(ps[k])
  {
    if ps == [] then []
    else
      var rest := StripNonEmpty(ps[1..]);
      assert forall k :: 1 <= k < |ps| ==> ps[1..][k - 1] == ps[k];
      var head := if Strip(ps[0]) == [] then [] else [Strip(ps[0])];
      assert forall q :: q in head + rest ==> q in head || q in rest;
      head + rest
  }

  /** `split_into_paragraphs(text)` */
  function Paragraphs(text: string): (r: seq<string>)
    ensures forall p :: p in r ==> p != [] && IsTrimmed(p)
  {
    StripNonEmpty(Split(BlankLine, text))
  }

  /** Whitespace occurs only as single spaces: no other whitespace code
      point and no two in a row. */
  predicate SingleSpaced(s: string) {
    forall k :: 0 <= k < |s| && IsSpace(s[k]) ==> s[k] == ' ' && (k + 1 < |s| ==> !IsSpace(s[k + 1]))
  }

  /** `re.sub(r"\s+", " ", s[i..])`: every whitespace run becomes one
      space.  The result is single-spaced, and it is empty, starts with a
      space or starts with `s[i]` as `s[i..]` is empty, starts with
      whitespace or starts with another character. */
  function CollapseFrom(s: string, i: nat): (r: string)
    requires i <= |s|
    ensures SingleSpaced(r)
    ensures r == [] <==> i == |s|
    ensures i < |s| ==> if IsSpace(s[i]) then r[0] == ' ' else r[0] == s[i]
    decreases |s| - i
  {
    if i == |s| then ""
    else if IsSpace(s[i]) then " " + CollapseFrom(s, SkipSpace(s, i))
    else [s[i]] + CollapseFrom(s, i + 1)
  }

  function Collapse(s: string): (r: string)
    ensures SingleSpaced(r)
  {
    CollapseFrom(s, 0)
  }

  /** `split_into_sentences(paragraph)` */
  function Sentences(paragraph: string): (r: seq<string>)
    ensures forall s :: s in r ==> s != [] && IsTrimmed(s)
  {
    StripNonEmpty(Split(SentenceEnd, Collapse(Strip(paragraph))))
  }

  // ---------------------------------------------------------------------
  // What the splits keep

  /** Every character that is not whitespace lies inside some piece, the
      `k`-th: the matches the split removes are whitespace only. */
  lemma {:induction false} SplitKeepsNonSpace(b: Boundary, t: string, start: nat, i: nat, j: nat) returns (k: nat)
    requires start <= i <= |t| && start <= j < |t| && !IsSpace(t[j])
    ensures k < |SplitSpans(b, t, start, i)|
    ensures SplitSpans(b, t, start, i)[k].0 <= j < SplitSpans(b, t, start, i)[k].1
    decreases |t| - i
  {
    if i == |t| {
      k := 0;
    } else {
      var m := MatchAt(b, t, i);
      if m.Some? {
        var e := m.value;
        var rest := SplitSpans(b, t, e, e);
        assert SplitSpans(b, t, start, i) == [(start, i)] + rest;
        if j < i {
          k := 0;
        } else {
          var r := SplitKeepsNonSpace(b, t, e, e, j);
          k := r + 1;
        }
      } else {
        assert SplitSpans(b, t, start, i) == SplitSpans(b, t, start, i + 1);
        k := SplitKeepsNonSpace(b, t, start, i + 1, j);
      }
    }
  }

  /** The pieces of a split are empty of text exactly when the input is. */
  lemma SplitAllSpace(b: Boundary, t: string)
    ensures (forall k :: 0 <= k < |Split(b, t)| ==> AllSpace(Split(b, t)[k])) <==> AllSpace(t)
  {
    var sp := SplitSpans(b, t, 0, 0);
    var ps := Split(b, t);
    if AllSpace(t) {
      forall k | 0 <= k < |ps| ensures AllSpace(ps[k]) {
        forall x | 0 <= x < |ps[k]| ensures IsSpace(ps[k][x]) {
          assert ps[k][x] == t[sp[k].0 + x];
        }
      }
    } else {
      var j :| 0 <= j < |t| && !IsSpace(t[j]);
      var k := SplitKeepsNonSpace(b, t, 0, 0, j);
      assert ps[k][j - sp[k].0] == t[j];
    }
  }

  /** The pieces of a split started at `start` tile the rest of the text:
      the first starts at `start`, the last ends at the end of the text,
      and consecutive pieces are separated by exactly one match of the
      pattern. */
  predicate Tiles(b: Boundary, t: string, start: nat, sp: seq<(nat, nat)>) {
    && sp != [] && sp[0].0 == start && sp[|sp| - 1].1 == |t|
    && (forall k :: 0 <= k < |sp| ==> sp[k].0 <= sp[k].1 <= |t|)
    && (forall k :: 0 <= k < |sp| - 1 ==> sp[k].1 < |t| && MatchAt(b, t, sp[k].1) == Some(sp[k + 1].0))
  }

  lemma TilesCons(b: Boundary, t: string, start: nat, i: nat, rest: seq<(nat, nat)>)
    requires start <= i < |t| && MatchAt(b, t, i).Some?
    requires Tiles(b, t, MatchAt(b, t, i).value, rest)
    ensures Tiles(b, t, start, [(start, i)] + rest)
  {
    var sp := [(start, i)] + rest;
    forall k | 0 <= k < |sp| - 1 ensures sp[k].1 < |t| && MatchAt(b, t, sp[k].1) == Some(sp[k + 1].0) {
      if k > 0 {
        assert sp[k] == rest[k - 1] && sp[k + 1] == rest[k];
      }
    }
    forall k | 0 <= k < |sp| ensures sp[k].0 <= sp[k].1 <= |t| {
      if k > 0 {
        assert sp[k] == rest[k - 1];
      }
    }
  }

  /** `re.split` cuts the text at the matches of its pattern and nowhere
      else. */
  lemma {:induction false} SplitSpansTile(b: Boundary, t: string, start: nat, i: nat)
    requires start <= i <= |t|
    ensures Tiles(b, t, start, SplitSpans(b, t, start, i))
    decreases |t| - i
  {
    if i < |t| {
      var m := MatchAt(b, t, i);
      if m.Some? {
        var e := m.value;
        SplitSpansTile(b, t, e, e);
        assert SplitSpans(b, t, start, i) == [(start, i)] + SplitSpans(b, t, e, e);
        TilesCons(b, t, start, i, SplitSpans(b, t, e, e));
      } else {
        assert SplitSpans(b, t, start, i) == SplitSpans(b, t, start, i + 1);
        SplitSpansTile(b, t, start, i + 1);
      }
    }
  }

  lemma SlicesCons(t: string, x: (nat, nat), rest: seq<(nat, nat)>)
    requires x.0 <= x.1 <= |t|
    requires forall k :: 0 <= k < |rest| ==> rest[k].0 <= rest[k].1 <= |t|
    ensures Flatten(Slices(t, [x] + rest)) == t[x.0..x.1] + Flatten(Slices(t, rest))
  {
    assert Slices(t, [x] + rest) == [t[x.0..x.1]] + Slices(t, rest);
    FlattenCons(t[x.0..x.1], Slices(t, rest));
  }

  lemma SlicesLast(t: string, start: nat)
    requires start <= |t|
    ensures Flatten(Slices(t, [(start, |t|)])) == t[start..]
  {
    var x := Slices(t, [(start, |t|)]);
    assert |x| == 1 && x[0] == t[start..|t|] == t[start..];
    assert x == [t[start..]];
    assert x[..0] == [];
  }

  /** Cutting whitespace out of `t[start..]` between `i` and `e`. */
  lemma NonSpaceCut(t: string, start: nat, i: nat, e: nat, tail: string)
    requires start <= i <= e <= |t|
    requires forall k :: i <= k < e ==> IsSpace(t[k])
    requires NonSpace(tail) == NonSpace(t[e..])
    ensures NonSpace(t[start..i] + tail) == NonSpace(t[start..])
  {
    NonSpaceConcat(t[start..i], tail);
    NonSpaceSkip(t, i, e);
    assert t[start..] == t[start..i] + t[i..];
    NonSpaceConcat(t[start..i], t[i..]);
  }

  /** One step of `SplitSpansNonSpace` at a match. */
  lemma SplitSpansNonSpaceCut(b: Boundary, t: string, start: nat, i: nat)
    requires start <= i < |t| && MatchAt(b, t, i).Some?
    requires var e := MatchAt(b, t, i).value;
      NonSpace(Flatten(Slices(t, SplitSpans(b, t, e, e)))) == NonSpace(t[e..])
    ensures NonSpace(Flatten(Slices(t, SplitSpans(b, t, start, i)))) == NonSpace(t[start..])
  {
    var e := MatchAt(b, t, i).value;
    var rest := SplitSpans(b, t, e, e);
    assert SplitSpans(b, t, start, i) == [(start, i)] + rest;
    SlicesCons(t, (start, i), rest);
    NonSpaceCut(t, start, i, e, Flatten(Slices(t, rest)));
  }

  /** Read one after the other, the pieces of a split hold the characters
      of the text that are not whitespace, all of them and in order: what
      the split removes is whitespace. */
  lemma {:induction false} SplitSpansNonSpace(b: Boundary, t: string, start: nat, i: nat)
    requires start <= i <= |t|
    ensures NonSpace(Flatten(Slices(t, SplitSpans(b, t, start, i)))) == NonSpace(t[start..])
    decreases |t| - i
  {
    if i == |t| {
      assert SplitSpans(b, t, start, i) == [(start, |t|)];
      SlicesLast(t, start);
    } else {
      var m := MatchAt(b, t, i);
      if m.Some? {
        SplitSpansNonSpace(b, t, m.value, m.value);
        SplitSpansNonSpaceCut(b, t, start, i);
      } else {
        assert SplitSpans(b, t, start, i) == SplitSpans(b, t, start, i + 1);
        SplitSpansNonSpace(b, t, start, i + 1);
      }
    }
  }

  /** `[p.strip() for p in ps if p.strip()]` treats each piece on its
      own: on a concatenation of piece lists it is the concatenation of the
      results. */
  lemma {:induction false} StripNonEmptyAppend(xs: seq<string>, ys: seq<string>)
    ensures StripNonEmpty(xs + ys) == StripNonEmpty(xs) + StripNonEmpty(ys)
    decreases |xs|
  {
    if xs == [] {
      assert xs + ys == ys;
    } else {
      assert (xs + ys)[1..] == xs[1..] + ys;
      StripNonEmptyAppend(xs[1..], ys);
    }
  }

  /** The comprehension keeps the strip of every piece that is not blank,
      in the order of the pieces. */
  lemma StripNonEmptySnoc(ps: seq<string>, p: string)
    ensures StripNonEmpty(ps + [p]) == StripNonEmpty(ps) + (if AllSpace(p) then [] else [Strip(p)])
  {
    StripNonEmptyAppend(ps, [p]);
    assert [p][1..] == [];
  }

  /** The stripped pieces that are kept hold all the characters of the
      pieces that are not whitespace, in order. */
  lemma {:induction false} StripNonEmptyNonSpace(ps: seq<string>)
    ensures NonSpace(Flatten(StripNonEmpty(ps))) == NonSpace(Flatten(ps))
    decreases |ps|
  {
    if ps != [] {
      var rest := StripNonEmpty(ps[1..]);
      StripNonEmptyNonSpace(ps[1..]);
      assert ps == [ps[0]] + ps[1..];
      FlattenCons(ps[0], ps[1..]);
      NonSpaceConcat(ps[0], Flatten(ps[1..]));
      NonSpaceStrip(ps[0]);
      if Strip(ps[0]) == [] {
        NonSpaceAllSpace(ps[0]);
        assert StripNonEmpty(ps) == rest;
      } else {
        assert StripNonEmpty(ps) == [Strip(ps[0])] + rest;
        FlattenCons(Strip(ps[0]), rest);
        NonSpaceConcat(Strip(ps[0]), Flatten(rest));
      }
    }
  }

  /** The paragraphs, read one after the other, hold every character of
      the text that is not whitespace, in order: no text is dropped or
      moved. */
  lemma ParagraphsKeepText(text: string)
    ensures NonSpace(Flatten(Paragraphs(text))) == NonSpace(text)
  {
    StripNonEmptyNonSpace(Split(BlankLine, text));
    SplitSpansNonSpace(BlankLine, text, 0, 0);
    assert text[0..] == text;
  }

  /** `split_into_paragraphs` returns nothing exactly for blank text. */
  lemma ParagraphsEmpty(text: string)
    ensures Paragraphs(text) == [] <==> AllSpace(text)
  {
    SplitAllSpace(BlankLine, text);
  }

  // ---------------------------------------------------------------------
  // Paragraphs hold no blank line, so splitting a paragraph again gives it back

  /** The pattern matches nowhere in `t[lo..hi]`. */
  predicate NoMatchIn(b: Boundary, t: string, lo: nat, hi: nat)
    requires hi <= |t|
  {
    forall x :: lo <= x < hi ==> MatchAt(b, t, x).None?
  }

  predicate PiecesHaveNoMatch(b: Boundary, t: string, sp: seq<(nat, nat)>)
    requires forall k :: 0 <= k < |sp| ==> sp[k].1 <= |t|
  {
    forall k :: 0 <= k < |sp| ==> NoMatchIn(b, t, sp[k].0, sp[k].1)
  }

  lemma PiecesCons(b: Boundary, t: string, x: (nat, nat), rest: seq<(nat, nat)>)
    requires x.1 <= |t| && NoMatchIn(b, t, x.0, x.1)
    requires forall k :: 0 <= k < |rest| ==> rest[k].1 <= |t|
    requires PiecesHaveNoMatch(b, t, rest)
    ensures PiecesHaveNoMatch(b, t, [x] + rest)
  {
    var sp := [x] + rest;
    forall k | 0 <= k < |sp| ensures NoMatchIn(b, t, sp[k].0, sp[k].1) {
      if k > 0 {
        assert sp[k] == rest[k - 1];
      }
    }
  }

  /** No piece contains a position where the scan could have matched. */
  lemma {:induction false} SplitPiecesHaveNoMatch(b: Boundary, t: string, start: nat, i: nat)
    requires start <= i <= |t|
    requires NoMatchIn(b, t, start, i)
    ensures PiecesHaveNoMatch(b, t, SplitSpans(b, t, start, i))
    decreases |t| - i
  {
    if i < |t| {
      var m := MatchAt(b, t, i);
      if m.Some? {
        var e := m.value;
        var rest := SplitSpans(b, t, e, e);
        assert SplitSpans(b, t, start, i) == [(start, i)] + rest;
        SplitPiecesHaveNoMatch(b, t, e, e);
        PiecesCons(b, t, (start, i), rest);
      } else {
        assert SplitSpans(b, t, start, i) == SplitSpans(b, t, start, i + 1);
        SplitPiecesHaveNoMatch(b, t, start, i + 1);
      }
    }
  }

  /** Where nothing matches, the split is the one piece that is left. */
  lemma {:induction false} SplitWithoutMatch(b: Boundary, t: string, start: nat, i: nat)
    requires start <= i <= |t|
    requires forall x :: i <= x < |t| ==> MatchAt(b, t, x).None?
    ensures SplitSpans(b, t, start, i) == [(start, |t|)]
    decreases |t| - i
  {
    if i < |t| {
      SplitWithoutMatch(b, t, start, i + 1);
    }
  }

  /** A blank line inside a slice of `t` is a blank line of `t`. */
  lemma BlankLineInSlice(t: string, a: nat, c: nat, i: nat, j: nat)
    requires a <= c <= |t| && IsBlankLine(t[a..c], i, j)
    ensures IsBlankLine(t, a + i, a + j)
  {
    forall k | a + i < k < a + j ensures IsSpace(t[k]) {
      assert t[k] == t[a..c][k - a];
    }
  }

  lemma SliceOfSlice(t: string, a: nat, b: nat, x: nat, y: nat)
    requires a <= b <= |t| && x <= y <= b - a
    ensures t[a..b][x..y] == t[a + x..a + y]
  {
    forall k | 0 <= k < y - x ensures t[a..b][x..y][k] == t[a + x..a + y][k] {
      assert t[a..b][x..y][k] == t[a..b][x + k] == t[a + x + k];
    }
  }

  /** A match inside a slice of `t` is a match of `t`: the blank-line
      pattern looks only inside its match, and the sentence pattern looks
      one character behind, which the slice keeps unless the match is at
      its very start. */
  lemma MatchInSlice(b: Boundary, t: string, a: nat, c: nat, x: nat)
    requires a <= c <= |t| && x < c - a
    ensures MatchAt(b, t[a..c], x).Some? ==> MatchAt(b, t, a + x).Some?
  {
    var u := t[a..c];
    match b
    case BlankLine =>
      BlankLineMatchIff(u, x);
      BlankLineMatchIff(t, a + x);
      if BlankLineMatch(u, x).Some? {
        var j: nat :| IsBlankLine(u, x, j);
        BlankLineInSlice(t, a, c, x, j);
      }
    case SentenceEnd =>
      if 0 < x {
        assert u[x - 1] == t[a + x - 1] && u[x] == t[a + x];
      }
  }

  /** A stripped piece of a split holds no match of its pattern. */
  lemma StrippedPieceHasNoMatch(b: Boundary, t: string, k: nat)
    requires k < |Split(b, t)|
    ensures NoMatchIn(b, Strip(Split(b, t)[k]), 0, |Strip(Split(b, t)[k])|)
  {
    var sp := SplitSpans(b, t, 0, 0);
    var piece := Split(b, t)[k];
    var p := Strip(piece);
    var a := sp[k].0 + StripStart(piece);
    var c := sp[k].0 + StripEnd(piece);
    SliceOfSlice(t, sp[k].0, sp[k].1, StripStart(piece), StripEnd(piece));
    assert p == t[a..c];
    SplitPiecesHaveNoMatch(b, t, 0, 0);
    assert NoMatchIn(b, t, sp[k].0, sp[k].1);
    forall x | 0 <= x < |p| ensures MatchAt(b, p, x).None? {
      MatchInSlice(b, t, a, c, x);
    }
  }

  /** A text in which `\n\s*\n` matches nowhere holds no blank line. */
  lemma NoMatchNoBlankLine(p: string)
    requires NoMatchIn(BlankLine, p, 0, |p|)
    ensures !HasBlankLine(p)
  {
    forall i: nat, j: nat | IsBlankLine(p, i, j) ensures false {
      assert MatchAt(BlankLine, p, i).None?;
      BlankLineMatchIff(p, i);
    }
  }

  /** No paragraph contains a blank line. */
  lemma ParagraphsHaveNoBlankLine(text: string)
    ensures forall p :: p in Paragraphs(text) ==> !HasBlankLine(p)
  {
    var ps := Split(BlankLine, text);
    forall p | p in Paragraphs(text) ensures !HasBlankLine(p) {
      var k :| 0 <= k < |ps| && p == Strip(ps[k]);
      StrippedPieceHasNoMatch(BlankLine, text, k);
      NoMatchNoBlankLine(p);
    }
  }

  /** A text in which the pattern matches nowhere splits into itself. */
  lemma SplitWhole(b: Boundary, p: string)
    requires NoMatchIn(b, p, 0, |p|)
    ensures Split(b, p) == [p]
  {
    SplitWithoutMatch(b, p, 0, 0);
    assert p[0..|p|] == p;
  }

  /** A trimmed text without a blank line is a single paragraph. */
  lemma SingleParagraph(p: string)
    requires p != [] && IsTrimmed(p) && !HasBlankLine(p)
    ensures Paragraphs(p) == [p]
  {
    forall x | 0 <= x < |p| ensures MatchAt(BlankLine, p, x).None? {
      BlankLineMatchIff(p, x);
    }
    SplitWhole(BlankLine, p);
    StripTrimmed(p);
  }

  /** Splitting a paragraph into paragraphs again gives it back. */
  lemma ParagraphsIdempotent(text: string)
    ensures forall p :: p in Paragraphs(text) ==> Paragraphs(p) == [p]
  {
    ParagraphsHaveNoBlankLine(text);
    forall p | p in Paragraphs(text) ensures Paragraphs(p) == [p] {
      SingleParagraph(p);
    }
  }

  // ---------------------------------------------------------------------
  // Sentences

  /** `split_into_sentences` returns nothing exactly for blank text. */
  lemma SentencesEmpty(paragraph: string)
    ensures Sentences(paragraph) == [] <==> AllSpace(paragraph)
  {
    var c := Collapse(Strip(paragraph));
    SplitAllSpace(SentenceEnd, c);
    if !AllSpace(paragraph) {
      assert !IsSpace(c[0]);
    }
  }

  /** A slice of a single-spaced text is single-spaced. */
  lemma SingleSpacedSlice(s: string, a: nat, c: nat)
    requires a <= c <= |s| && SingleSpaced(s)
    ensures SingleSpaced(s[a..c])
  {
    var u := s[a..c];
    forall k | 0 <= k < |u| && IsSpace(u[k]) ensures u[k] == ' ' && (k + 1 < |u| ==> !IsSpace(u[k + 1])) {
      assert u[k] == s[a + k];
      if k + 1 < |u| { assert u[k + 1] == s[a + k + 1]; }
    }
  }

  /** Every sentence is single-spaced: its whitespace runs were collapsed. */
  lemma SentencesSingleSpaced(paragraph: string)
    ensures forall s :: s in Sentences(paragraph) ==> SingleSpaced(s)
  {
    var c := Collapse(Strip(paragraph));
    var sp := SplitSpans(SentenceEnd, c, 0, 0);
    var ps := Split(SentenceEnd, c);
    forall s | s in Sentences(paragraph) ensures SingleSpaced(s) {
      var k :| 0 <= k < |ps| && s == Strip(ps[k]);
      SingleSpacedSlice(c, sp[k].0, sp[k].1);
      SingleSpacedSlice(ps[k], StripStart(ps[k]), StripEnd(ps[k]));
    }
  }

  /** Collapsing leaves a single-spaced text as it is. */
  lemma {:induction false} CollapseSingleSpaced(s: string, i: nat)
    requires i <= |s| && SingleSpaced(s)
    ensures CollapseFrom(s, i) == s[i..]
    decreases |s| - i
  {
    if i < |s| {
      CollapseSingleSpaced(s, i + 1);
      assert s[i..] == [s[i]] + s[i + 1..];
      if IsSpace(s[i]) {
        assert SkipSpace(s, i) == i + 1;
        assert CollapseFrom(s, i) == " " + CollapseFrom(s, i + 1);
      } else {
        assert CollapseFrom(s, i) == [s[i]] + CollapseFrom(s, i + 1);
      }
    }
  }

  /** Collapsing whitespace runs changes whitespace only. */
  lemma {:induction false} CollapseNonSpace(s: string, i: nat)
    requires i <= |s|
    ensures NonSpace(CollapseFrom(s, i)) == NonSpace(s[i..])
    decreases |s| - i
  {
    if i < |s| {
      if IsSpace(s[i]) {
        var j := SkipSpace(s, i);
        CollapseNonSpace(s, j);
        var rest := CollapseFrom(s, j);
        assert (" " + rest)[1..] == rest;
        NonSpaceSkip(s, i, j);
      } else {
        CollapseNonSpace(s, i + 1);
        var rest := CollapseFrom(s, i + 1);
        assert ([s[i]] + rest)[1..] == rest;
        assert s[i..][1..] == s[i + 1..];
      }
    }
  }

  /** `SkipSpace` stops at the first character from `i` on that is not
      whitespace. */
  lemma SkipSpaceAt(s: string, i: nat, j: nat)
    requires i <= j <= |s|
    requires forall k :: i <= k < j ==> IsSpace(s[k])
    requires j == |s| || !IsSpace(s[j])
    ensures SkipSpace(s, i) == j
  {
  }

  /** One step of `CollapseShift` at a whitespace run. */
  lemma CollapseShiftSpace(s: string, i: nat, j: nat)
    requires i <= j < |s| && IsSpace(s[j])
    requires CollapseFrom(s, SkipSpace(s, j)) == CollapseFrom(s[i..], SkipSpace(s, j) - i)
    ensures CollapseFrom(s, j) == CollapseFrom(s[i..], j - i)
  {
    var u, e := s[i..], SkipSpace(s, j);
    assert u[j - i] == s[j];
    assert e < |s| ==> u[e - i] == s[e];
    assert forall k :: j - i <= k < e - i ==> u[k] == s[k + i];
    SkipSpaceAt(u, j - i, e - i);
    assert CollapseFrom(s, j) == " " + CollapseFrom(s, e);
    assert CollapseFrom(u, j - i) == " " + CollapseFrom(u, e - i);
  }

  /** One step of `CollapseShift` at a character that is not whitespace. */
  lemma CollapseShiftOther(s: string, i: nat, j: nat)
    requires i <= j < |s| && !IsSpace(s[j])
    requires CollapseFrom(s, j + 1) == CollapseFrom(s[i..], j + 1 - i)
    ensures CollapseFrom(s, j) == CollapseFrom(s[i..], j - i)
  {
    assert s[i..][j - i] == s[j];
  }

  /** Collapsing from position `j` depends only on the text from `j` on. */
  lemma {:induction false} CollapseShift(s: string, i: nat, j: nat)
    requires i <= j <= |s|
    ensures CollapseFrom(s, j) == CollapseFrom(s[i..], j - i)
    decreases |s| - j
  {
    if j < |s| {
      if IsSpace(s[j]) {
        CollapseShift(s, i, SkipSpace(s, j));
        CollapseShiftSpace(s, i, j);
      } else {
        CollapseShift(s, i, j + 1);
        CollapseShiftOther(s, i, j);
      }
    }
  }

  /** One step of `CollapseAppend` at a whitespace run inside `a`. */
  lemma CollapseAppendSpace(a: string, t: string, i: nat)
    requires i < |a| && IsSpace(a[i]) && !IsSpace(a[|a| - 1])
    requires CollapseFrom(a + t, SkipSpace(a, i)) == CollapseFrom(a, SkipSpace(a, i)) + Collapse(t)
    ensures CollapseFrom(a + t, i) == CollapseFrom(a, i) + Collapse(t)
  {
    var e := SkipSpace(a, i);
    assert e < |a|;
    SkipSpaceAt(a + t, i, e);
  }

  /** One step of `CollapseAppend` at a character of `a` that is not
      whitespace. */
  lemma CollapseAppendOther(a: string, t: string, i: nat)
    requires i < |a| && !IsSpace(a[i])
    requires CollapseFrom(a + t, i + 1) == CollapseFrom(a, i + 1) + Collapse(t)
    ensures CollapseFrom(a + t, i) == CollapseFrom(a, i) + Collapse(t)
  {
    assert (a + t)[i] == a[i];
  }

  /** Text that does not end in whitespace holds no run that continues
      into what follows it, so the two collapse apart. */
  lemma {:induction false} CollapseAppend(a: string, t: string, i: nat)
    requires i <= |a|
    requires a == [] || !IsSpace(a[|a| - 1])
    ensures CollapseFrom(a + t, i) == CollapseFrom(a, i) + Collapse(t)
    decreases |a| - i
  {
    if i == |a| {
      CollapseShift(a + t, |a|, |a|);
      assert (a + t)[|a|..] == t;
    } else if IsSpace(a[i]) {
      CollapseAppend(a, t, SkipSpace(a, i));
      CollapseAppendSpace(a, t, i);
    } else {
      CollapseAppend(a, t, i + 1);
      CollapseAppendOther(a, t, i);
    }
  }

  /** A whitespace run followed by text that does not start with
      whitespace collapses to one space. */
  lemma CollapseRun(w: string, b: string)
    requires w != [] && AllSpace(w)
    requires b == [] || !IsSpace(b[0])
    ensures Collapse(w + b) == " " + Collapse(b)
  {
    var s := w + b;
    assert s[0] == w[0];
    assert forall k :: 0 <= k < |w| ==> IsSpace(s[k]);
    SkipSpaceAt(s, 0, |w|);
    CollapseShift(s, |w|, |w|);
    assert s[|w|..] == b;
  }

  /** `re.sub(r"\s+", " ", ...)` replaces a whole whitespace run by one
      space: the text around the run collapses on its own. */
  lemma CollapseSplice(a: string, w: string, b: string)
    requires a == [] || !IsSpace(a[|a| - 1])
    requires w != [] && AllSpace(w)
    requires b == [] || !IsSpace(b[0])
    ensures Collapse(a + w + b) == Collapse(a) + " " + Collapse(b)
  {
    assert a + w + b == a + (w + b);
    CollapseAppend(a, w + b, 0);
    CollapseRun(w, b);
  }

  /** A character that is not whitespace is kept as it is. */
  lemma CollapseCons(c: char, t: string)
    requires !IsSpace(c)
    ensures Collapse([c] + t) == [c] + Collapse(t)
  {
    CollapseAppend([c], t, 0);
    assert CollapseFrom([c], 1) == "";
  }

  /** The sentences, read one after the other, hold every character of
      the paragraph that is not whitespace, in order. */
  lemma SentencesKeepText(paragraph: string)
    ensures NonSpace(Flatten(Sentences(paragraph))) == NonSpace(paragraph)
  {
    var c := Collapse(Strip(paragraph));
    StripNonEmptyNonSpace(Split(SentenceEnd, c));
    SplitSpansNonSpace(SentenceEnd, c, 0, 0);
    assert c[0..] == c;
    CollapseNonSpace(Strip(paragraph), 0);
    assert Strip(paragraph)[0..] == Strip(paragraph);
    NonSpaceStrip(paragraph);
  }

  /** A trimmed, single-spaced, nonempty text in which no sentence
      boundary matches is a single sentence. */
  lemma SingleSentence(s: string)
    requires s != [] && IsTrimmed(s) && SingleSpaced(s)
    requires NoMatchIn(SentenceEnd, s, 0, |s|)
    ensures Sentences(s) == [s]
  {
    StripTrimmed(s);
    CollapseSingleSpaced(s, 0);
    assert s[0..] == s;
    SplitWhole(SentenceEnd, s);
  }

  /** Splitting a sentence into sentences again gives it back. */
  lemma SentencesIdempotent(paragraph: string)
    ensures forall s :: s in Sentences(paragraph) ==> Sentences(s) == [s]
  {
    var ps := Split(SentenceEnd, Collapse(Strip(paragraph)));
    SentencesSingleSpaced(paragraph);
    forall s | s in Sentences(paragraph) ensures Sentences(s) == [s] {
      var k :| 0 <= k < |ps| && s == Strip(ps[k]);
      StrippedPieceHasNoMatch(SentenceEnd, Collapse(Strip(paragraph)), k);
      SingleSentence(s);
    }
  }
}
