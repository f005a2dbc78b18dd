// `hybrid_chunk`: each paragraph becomes one tagged chunk when it holds a
// special keyword or fits the token limit, and otherwise is split into
// sentences and packed by the sliding window, each piece tagged on its own.

module HybridChunker {
  import opened Text
  import opened CaseFold
  import opened Topics
  import opened Segmenter
  import opened SentenceChunker

  /** `any(k in para.lower() for k in SPECIAL_KEYWORDS)` */
  predicate HasSpecialKeyword(para: string) {
    exists k :: k in SpecialKeywords && Contains(Lower(para), k)
  }

  /** `f"{detect_topic_label(x)} {x}"` */
  function Tag(x: string): string {
    DetectTopicLabel(x) + " " + x
  }

  function TagAll(xs: seq<string>): (r: seq<string>)
    ensures |r| == |xs|
    ensures forall k :: 0 <= k < |xs| ==> r[k] == Tag(xs[k])
  {
    seq(|xs|, k requires 0 <= k < |xs| => Tag(xs[k]))
  }

  /** The chunks one paragraph contributes. */
  function ParagraphChunks(tok: string -> nat, maxTokens: int, para: string): seq<string> {
    if HasSpecialKeyword(para) || tok(para) <= maxTokens then [Tag(para)]
    else TagAll(Chunks(tok, maxTokens, Sentences(para)))
  }

  /** The chunks of the first `n` paragraphs of `ps`, paragraph by
      paragraph. */
  function ChunkPrefix(tok: string -> nat, maxTokens: int, ps: seq<string>, n: nat): seq<string>
    requires n <= |ps|
  {
    if n == 0 then [] else ChunkPrefix(tok, maxTokens, ps, n - 1) + ParagraphChunks(tok, maxTokens, ps[n - 1])
  }

  /** What `hybrid_chunk(text, max_tokens)` returns. */
  function HybridChunks(tok: string -> nat, text: string, maxTokens: int): seq<string> {
    ChunkPrefix(tok, maxTokens, Paragraphs(text), |Paragraphs(text)|)
  }

  /** The inner loop of `hybrid_chunk`: each sentence window of an overlong
      paragraph is appended with its own label. */
  method TagEach(pieces: seq<string>) returns (cs: seq<string>)
    ensures cs == TagAll(pieces)
  {
    cs := [];
    for j := 0 to |pieces|
      invariant cs == TagAll(pieces[..j])
    {
      assert TagAll(pieces[..j + 1]) == TagAll(pieces[..j]) + [Tag(pieces[j])];
      cs := cs + [Tag(pieces[j])];
    }
    assert pieces[..|pieces|] == pieces;
  }

  /** The body of `hybrid_chunk`'s loop for one paragraph: the two
      early `continue`s keep it whole, otherwise its sentences are chunked. */
  method ChunkParagraph(tok: string -> nat, para: string, maxTokens: int) returns (cs: seq<string>)
    ensures cs == ParagraphChunks(tok, maxTokens, para)
  {
    if HasSpecialKeyword(para) {
      return [Tag(para)];
    }
    if tok(para) <= maxTokens {
      return [Tag(para)];
    }
    var pieces := ChunkSentences(tok, Sentences(para), maxTokens);
    cs := TagEach(pieces);
  }

  /** `hybrid_chunk`, with its loop over the paragraphs appending to
      `chunks`. */
  method HybridChunk(tok: string -> nat, text: string, maxTokens: int) returns (chunks: seq<string>)
    ensures chunks == HybridChunks(tok, text, maxTokens)
  {
    chunks := [];
    var paras := Paragraphs(text);
    for i := 0 to |paras|
      invariant chunks == ChunkPrefix(tok, maxTokens, paras, i)
    {
      var cs := ChunkParagraph(tok, paras[i], maxTokens);
      chunks := chunks + cs;
    }
  }

  // ---------------------------------------------------------------------
  // What the chunks are

  /** The chunks of each of the first `n` paragraphs, one sequence per
      paragraph. */
  function PerParagraph(tok: string -> nat, maxTokens: int, ps: seq<string>, n: nat): (r: seq<seq<string>>)
    requires n <= |ps|
    ensures |r| == n
    ensures forall k :: 0 <= k < n ==> r[k] == ParagraphChunks(tok, maxTokens, ps[k])
  {
    seq(n, k requires 0 <= k < n => ParagraphChunks(tok, maxTokens, ps[k]))
  }

  lemma {:induction false} ChunkPrefixFlatten(tok: string -> nat, maxTokens: int, ps: seq<string>, n: nat)
    requires n <= |ps|
    ensures ChunkPrefix(tok, maxTokens, ps, n) == Flatten(PerParagraph(tok, maxTokens, ps, n))
    decreases n
  {
    if n > 0 {
      ChunkPrefixFlatten(tok, maxTokens, ps, n - 1);
      var xss := PerParagraph(tok, maxTokens, ps, n);
      assert xss[..n - 1] == PerParagraph(tok, maxTokens, ps, n - 1);
    }
  }

  /** Every chunk is `detect_topic_label(x) + " " + x` for some text `x`,
      and its label is `DEFAULT_LABEL` or the bracketed name of a table
      entry. */
  lemma HybridChunksTagged(tok: string -> nat, text: string, maxTokens: int, k: nat) returns (x: string)
    requires k < |HybridChunks(tok, text, maxTokens)|
    ensures HybridChunks(tok, text, maxTokens)[k] == DetectTopicLabel(x) + " " + x
    ensures DetectTopicLabel(x) == DefaultLabel
         || exists i :: 0 <= i < |TopicMap| && DetectTopicLabel(x) == Bracket(TopicMap[i].name)
  {
    var ps := Paragraphs(text);
    ChunkPrefixFlatten(tok, maxTokens, ps, |ps|);
    var p, m := FlattenOrigin(PerParagraph(tok, maxTokens, ps, |ps|), k);
    if HasSpecialKeyword(ps[p]) || tok(ps[p]) <= maxTokens {
      x := ps[p];
    } else {
      x := Chunks(tok, maxTokens, Sentences(ps[p]))[m];
    }
    DetectTopicLabelRange(x);
  }

  /** A paragraph kept whole: with a special keyword it is tagged with a
      table entry's label, however long it is; without one, when it fits
      the limit, it is tagged `DEFAULT_LABEL`. */
  lemma ParagraphKeptWhole(tok: string -> nat, maxTokens: int, para: string)
    requires HasSpecialKeyword(para) || tok(para) <= maxTokens
    ensures ParagraphChunks(tok, maxTokens, para) == [DetectTopicLabel(para) + " " + para]
    ensures HasSpecialKeyword(para) <==> DetectTopicLabel(para) != DefaultLabel
  {
    NonDefaultIffSpecial(para);
  }

  /** An overlong paragraph without a special keyword yields one chunk per
      sliding window, in order, each the window's sentences joined and
      tagged on its own, and every one of its sentences (`j`) lies in some
      window (`k`). */
  lemma ParagraphSplit(tok: string -> nat, maxTokens: int, para: string, j: nat) returns (k: nat)
    requires !HasSpecialKeyword(para) && tok(para) > maxTokens
    requires j < |Sentences(para)|
    ensures InBounds(Sentences(para), Windows(tok, maxTokens, Sentences(para)))
    ensures |ParagraphChunks(tok, maxTokens, para)| == |Windows(tok, maxTokens, Sentences(para))|
    ensures k < |Windows(tok, maxTokens, Sentences(para))|
    ensures Windows(tok, maxTokens, Sentences(para))[k].0 <= j < Windows(tok, maxTokens, Sentences(para))[k].1
    ensures ParagraphChunks(tok, maxTokens, para)[k]
         == Tag(Join(" ", Sentences(para)[Windows(tok, maxTokens, Sentences(para))[k].0..Windows(tok, maxTokens, Sentences(para))[k].1]))
    ensures forall w :: 0 <= w < |Windows(tok, maxTokens, Sentences(para))| ==>
              ParagraphChunks(tok, maxTokens, para)[w]
              == Tag(Join(" ", Sentences(para)[Windows(tok, maxTokens, Sentences(para))[w].0..Windows(tok, maxTokens, Sentences(para))[w].1]))
  {
    ChunksAreWindows(tok, maxTokens, Sentences(para));
    WindowsShape(tok, maxTokens, Sentences(para));
    k := WindowsCover(tok, maxTokens, Sentences(para), j);
  }

  /** A paragraph that is not blank contributes at least one chunk. */
  lemma ParagraphChunksNonEmpty(tok: string -> nat, maxTokens: int, para: string)
    requires !AllSpace(para)
    ensures ParagraphChunks(tok, maxTokens, para) != []
  {
    if !HasSpecialKeyword(para) && tok(para) > maxTokens {
      SentencesEmpty(para);
      ChunksAreWindows(tok, maxTokens, Sentences(para));
      WindowsShape(tok, maxTokens, Sentences(para));
    }
  }

  /** Paragraphs that are not blank yield chunks. */
  lemma ChunkPrefixNonEmpty(tok: string -> nat, maxTokens: int, ps: seq<string>, n: nat)
    requires 0 < n <= |ps| && forall p :: p in ps ==> p != [] && IsTrimmed(p)
    ensures ChunkPrefix(tok, maxTokens, ps, n) != []
  {
    var last := ps[n - 1];
    assert last in ps;
    assert !IsSpace(last[0]);
    ParagraphChunksNonEmpty(tok, maxTokens, last);
  }

  /** `hybrid_chunk` returns no chunk exactly for blank text. */
  lemma HybridChunksEmpty(tok: string -> nat, text: string, maxTokens: int)
    ensures HybridChunks(tok, text, maxTokens) == [] <==> AllSpace(text)
  {
    ParagraphsEmpty(text);
    if !AllSpace(text) {
      ChunkPrefixNonEmpty(tok, maxTokens, Paragraphs(text), |Paragraphs(text)|);
    }
  }

  /** Re-chunking one paragraph of a text on its own reproduces exactly the
      chunks it got inside the text. */
  lemma RechunkParagraph(tok: string -> nat, text: string, maxTokens: int, p: string)
    requires p in Paragraphs(text)
    ensures HybridChunks(tok, p, maxTokens) == ParagraphChunks(tok, maxTokens, p)
  {
    ParagraphsIdempotent(text);
    OneParagraph(tok, maxTokens, p);
  }

  /** A single short paragraph without a blank line and without a special
      keyword comes back as exactly one chunk, tagged `DEFAULT_LABEL`. */
  lemma ShortParagraphOneChunk(tok: string -> nat, p: string, maxTokens: int)
    requires p != [] && IsTrimmed(p) && !HasBlankLine(p)
    requires !HasSpecialKeyword(p) && tok(p) <= maxTokens
    ensures HybridChunks(tok, p, maxTokens) == [DefaultLabel + " " + p]
  {
    SingleParagraph(p);
    NonDefaultIffSpecial(p);
    OneParagraph(tok, maxTokens, p);
  }

  lemma OneParagraph(tok: string -> nat, maxTokens: int, p: string)
    ensures ChunkPrefix(tok, maxTokens, [p], 1) == ParagraphChunks(tok, maxTokens, p)
  {
    assert ChunkPrefix(tok, maxTokens, [p], 0) == [];
  }
}
