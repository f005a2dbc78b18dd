// `_chunk_sentences`: the sliding-window packer that turns the sentences
// of an overlong paragraph into chunks.  The loop is modelled on its own
// state, the chunks so far and the buffer `cur`.  The buffer is always a
// run of consecutive sentences, so the output is also described as a
// sequence of windows `(lo, hi)` over sentence indices: chunk `k` is the
// sentences of window `k` joined by single spaces, and the lemmas about
// the windows state what the chunks cover.  The tokenizer is the
// parameter `tok`; nothing is assumed about it.

module SentenceChunker {
  import opened Text
  import opened Tokens

  /** `overlap = max(10, int(max_tokens * 0.15))`.  `int` truncates toward
      zero, so a negative `max_tokens` gives 0 before the `max`; for
      0 <= max_tokens < 2000000 the float product truncates to
      `15 * max_tokens / 100`.  The contract pins `ov` down: it is 10, or
      the largest whole number of tokens within 15% of the budget when
      that is more. */
  function Overlap(maxTokens: int): (ov: nat)
    ensures ov >= 10
    ensures ov == 10 || 100 * ov <= 15 * maxTokens
    ensures 15 * maxTokens < 100 * (ov + 1)
  {
    if maxTokens < 0 then 10
    else if 15 * maxTokens / 100 > 10 then 15 * maxTokens / 100
    else 10
  }

  /** One turn of the loop of `_chunk_sentences` on sentence `s`, on the
      chunks so far and the buffer `cur`: a sentence over the budget
      flushes the buffer and is a chunk of its own; one that fits joins
      the buffer; one that does not fit flushes the buffer and reseeds it
      with its last `ov` sentences (`cur[-overlap:]`) and itself. */
  function Advance(tok: string -> nat, maxTokens: int, ov: nat, chunks: seq<string>, cur: seq<string>, s: string)
    : (seq<string>, seq<string>)
  {
    if tok(s) > maxTokens then (chunks + (if cur != [] then [Join(" ", cur)] else []) + [s], [])
    else if SumTok(tok, cur) + tok(s) <= maxTokens then (chunks, cur + [s])
    else (chunks + [Join(" ", cur)], cur[if |cur| > ov then |cur| - ov else 0..] + [s])
  }

  /** The chunks and the buffer once the loop has seen the first `i`
      sentences. */
  function Scan(tok: string -> nat, maxTokens: int, ov: nat, ss: seq<string>, i: nat): (seq<string>, seq<string>)
    requires i <= |ss|
  {
    if i == 0 then ([], [])
    else
      var prev := Scan(tok, maxTokens, ov, ss, i - 1);
      Advance(tok, maxTokens, ov, prev.0, prev.1, ss[i - 1])
  }

  /** What `_chunk_sentences(ss, max_tokens)` returns: the chunks of the
      loop, then the buffer if it is not empty. */
  function Chunks(tok: string -> nat, maxTokens: int, ss: seq<string>): seq<string> {
    var last := Scan(tok, maxTokens, Overlap(maxTokens), ss, |ss|);
    last.0 + (if last.1 != [] then [Join(" ", last.1)] else [])
  }

  /** `_chunk_sentences(sentences, max_tokens)`, with the loop over the
      buffer `cur` and its running length `cur_len`. */
  method ChunkSentences(tok: string -> nat, sentences: seq<string>, maxTokens: int) returns (chunks: seq<string>)
    ensures chunks == Chunks(tok, maxTokens, sentences)
  {
    var overlap := Overlap(maxTokens);
    chunks := [];
    var cur: seq<string> := [];
    var curLen := 0;
    for i := 0 to |sentences|
      invariant (chunks, cur) == Scan(tok, maxTokens, overlap, sentences, i)
      invariant curLen == SumTok(tok, cur)
    {
      assert Scan(tok, maxTokens, overlap, sentences, i + 1) == Advance(tok, maxTokens, overlap, chunks, cur, sentences[i]);
      var s := sentences[i];
      var sLen := tok(s);
      if sLen > maxTokens {
        if cur != [] {
          chunks := chunks + [Join(" ", cur)];
          cur, curLen := [], 0;
        } else {
          assert chunks + [] == chunks;
        }
        chunks := chunks + [s];
        continue;
      }
      if curLen + sLen <= maxTokens {
        SumTokSnoc(tok, cur, s);
        cur := cur + [s];
        curLen := curLen + sLen;
      } else {
        chunks := chunks + [Join(" ", cur)];
        cur := cur[if |cur| > overlap then |cur| - overlap else 0..] + [s];
        curLen := SumTok(tok, cur);
      }
    }
    if cur != [] {
      chunks := chunks + [Join(" ", cur)];
    }
  }

  // ---------------------------------------------------------------------
  // The windows

  /** The window flushed when the scan reaches `i` with the buffer
      starting at `lo`: nothing when the buffer is empty. */
  function Flush(lo: nat, i: nat): seq<(nat, nat)> {
    if lo < i then [(lo, i)] else []
  }

  function Min(a: int, b: int): int {
    if a <= b then a else b
  }

  /** `cur_len + s_len <= max_tokens` with `cur` the sentences `lo` to
      `i - 1` and `s` sentence `i`. */
  predicate Fits(tok: string -> nat, maxTokens: int, ss: seq<string>, lo: nat, i: nat)
    requires lo <= i < |ss|
  {
    SumTok(tok, ss[lo..i]) + tok(ss[i]) <= maxTokens
  }

  /** One turn of the loop, on the windows emitted so far and the start of
      the buffer.  A sentence over the budget flushes the buffer and is a
      window of its own; one that fits is appended; one that does not fit
      flushes the buffer and reseeds it with the last `min(ov, i - lo)`
      sentences and itself. */
  function Step(tok: string -> nat, maxTokens: int, ov: nat, ss: seq<string>, i: nat, done: seq<(nat, nat)>, lo: nat): (r: (seq<(nat, nat)>, nat))
    requires lo <= i < |ss|
    ensures r.1 <= i + 1
    ensures InBounds(ss, done) ==> InBounds(ss, r.0)
  {
    if tok(ss[i]) > maxTokens then (done + Flush(lo, i) + [(i, i + 1)], i + 1)
    else if Fits(tok, maxTokens, ss, lo, i) then (done, lo)
    else (done + [(lo, i)], i - Min(ov, i - lo))
  }

  /** The windows emitted and the start of the buffer once the loop has
      seen the first `i` sentences. */
  function StateAt(tok: string -> nat, maxTokens: int, ov: nat, ss: seq<string>, i: nat): (r: (seq<(nat, nat)>, nat))
    requires i <= |ss|
    ensures r.1 <= i
    ensures InBounds(ss, r.0)
  {
    if i == 0 then ([], 0)
    else
      var prev := StateAt(tok, maxTokens, ov, ss, i - 1);
      Step(tok, maxTokens, ov, ss, i - 1, prev.0, prev.1)
  }

  /** The windows of `_chunk_sentences(ss, max_tokens)`: those emitted by
      the loop, and the buffer flushed at the end. */
  function Windows(tok: string -> nat, maxTokens: int, ss: seq<string>): (r: seq<(nat, nat)>)
    ensures InBounds(ss, r)
  {
    var last := StateAt(tok, maxTokens, Overlap(maxTokens), ss, |ss|);
    last.0 + Flush(last.1, |ss|)
  }

  predicate InBounds(ss: seq<string>, w: seq<(nat, nat)>) {
    forall k :: 0 <= k < |w| ==> w[k].0 <= w[k].1 <= |ss|
  }

  /** The text of each window: its sentences joined by single spaces. */
  function Texts(ss: seq<string>, w: seq<(nat, nat)>): (r: seq<string>)
    requires InBounds(ss, w)
    ensures |r| == |w|
    ensures forall k :: 0 <= k < |w| ==> r[k] == Join(" ", ss[w[k].0..w[k].1])
  {
    seq(|w|, k requires 0 <= k < |w| => Join(" ", ss[w[k].0..w[k].1]))
  }

  lemma TextsSnoc(ss: seq<string>, w: seq<(nat, nat)>, x: (nat, nat))
    requires InBounds(ss, w) && x.0 <= x.1 <= |ss|
    ensures InBounds(ss, w + [x])
    ensures Texts(ss, w + [x]) == Texts(ss, w) + [Join(" ", ss[x.0..x.1])]
  {
    assert forall k :: 0 <= k < |w| ==> (w + [x])[k] == w[k];
  }

  /** The loop's chunks are the texts of the windows `done`, and its
      buffer is the run of sentences `lo` to `i - 1`. */
  predicate Mirrors(ss: seq<string>, i: nat, chunks: seq<string>, cur: seq<string>, done: seq<(nat, nat)>, lo: nat) {
    lo <= i <= |ss| && InBounds(ss, done) && chunks == Texts(ss, done) && cur == ss[lo..i]
  }

  /** The turn for a sentence over the budget: the buffer `cur`, if any,
      and the sentence itself become windows, and the buffer restarts
      empty. */
  lemma OversizedTurn(tok: string -> nat, maxTokens: int, ov: nat, ss: seq<string>, i: nat,
                      chunks: seq<string>, cur: seq<string>, done: seq<(nat, nat)>, lo: nat)
    requires Mirrors(ss, i, chunks, cur, done, lo) && i < |ss| && tok(ss[i]) > maxTokens
    ensures Step(tok, maxTokens, ov, ss, i, done, lo) == (done + Flush(lo, i) + [(i, i + 1)], i + 1)
    ensures Advance(tok, maxTokens, ov, chunks, cur, ss[i])
         == (chunks + (if cur != [] then [Join(" ", cur)] else []) + [ss[i]], [])
    ensures Mirrors(ss, i + 1, chunks + (if cur != [] then [Join(" ", cur)] else []) + [ss[i]], [],
                    done + Flush(lo, i) + [(i, i + 1)], i + 1)
  {
    if lo < i {
      TextsSnoc(ss, done, (lo, i));
    } else {
      assert done + Flush(lo, i) == done;
    }
    assert ss[i..i + 1] == [ss[i]];
    TextsSnoc(ss, done + Flush(lo, i), (i, i + 1));
    assert ss[i + 1..i + 1] == [];
  }

  /** The turn for a sentence that fits: it joins the buffer `cur`. */
  lemma FitsTurn(tok: string -> nat, maxTokens: int, ov: nat, ss: seq<string>, i: nat,
                 chunks: seq<string>, cur: seq<string>, done: seq<(nat, nat)>, lo: nat)
    requires Mirrors(ss, i, chunks, cur, done, lo) && i < |ss|
    requires tok(ss[i]) <= maxTokens && SumTok(tok, cur) + tok(ss[i]) <= maxTokens
    ensures Step(tok, maxTokens, ov, ss, i, done, lo) == (done, lo)
    ensures Advance(tok, maxTokens, ov, chunks, cur, ss[i]) == (chunks, cur + [ss[i]])
    ensures Mirrors(ss, i + 1, chunks, cur + [ss[i]], done, lo)
  {
    assert Fits(tok, maxTokens, ss, lo, i);
    assert ss[lo..i] + [ss[i]] == ss[lo..i + 1];
  }

  /** The turn for a sentence that does not fit: the buffer `cur` becomes
      a window, and `cur[-overlap:] + [s]`, which drops the first `start`
      sentences of the buffer, is the run of the last `min(ov, i - lo)`
      sentences and sentence `i`. */
  lemma ReseedTurn(tok: string -> nat, maxTokens: int, ov: nat, ss: seq<string>, i: nat,
                   chunks: seq<string>, cur: seq<string>, done: seq<(nat, nat)>, lo: nat)
    requires Mirrors(ss, i, chunks, cur, done, lo) && i < |ss|
    requires tok(ss[i]) <= maxTokens && SumTok(tok, cur) + tok(ss[i]) > maxTokens
    ensures Step(tok, maxTokens, ov, ss, i, done, lo) == (done + [(lo, i)], i - Min(ov, i - lo))
    ensures Advance(tok, maxTokens, ov, chunks, cur, ss[i])
         == (chunks + [Join(" ", cur)], cur[if |cur| > ov then |cur| - ov else 0..] + [ss[i]])
    ensures Mirrors(ss, i + 1, chunks + [Join(" ", cur)], cur[if |cur| > ov then |cur| - ov else 0..] + [ss[i]],
                    done + [(lo, i)], i - Min(ov, i - lo))
  {
    assert !Fits(tok, maxTokens, ss, lo, i);
    TextsSnoc(ss, done, (lo, i));
    ReseedBuffer(ss, lo, i, ov, cur, if |cur| > ov then |cur| - ov else 0);
  }

  /** `cur[-overlap:] + [s]` is a run of consecutive sentences again:
      dropping the first `start` sentences of the buffer `cur` keeps the
      last `min(ov, i - lo)`. */
  lemma ReseedBuffer(ss: seq<string>, lo: nat, i: nat, ov: nat, cur: seq<string>, start: nat)
    requires lo <= i < |ss| && cur == ss[lo..i]
    requires start == if |cur| > ov then |cur| - ov else 0
    ensures start <= |cur|
    ensures cur[start..] + [ss[i]] == ss[i - Min(ov, i - lo)..i + 1]
  {
    assert lo + start == i - Min(ov, i - lo);
    assert cur[start..] == ss[lo + start..i];
    assert ss[lo + start..i] + [ss[i]] == ss[lo + start..i + 1];
  }

  /** One turn of the loop keeps the loop state and the windows in step. */
  lemma AdvanceMirrors(tok: string -> nat, maxTokens: int, ov: nat, ss: seq<string>, i: nat,
                       chunks: seq<string>, cur: seq<string>, done: seq<(nat, nat)>, lo: nat)
    requires Mirrors(ss, i, chunks, cur, done, lo) && i < |ss|
    ensures var a := Advance(tok, maxTokens, ov, chunks, cur, ss[i]);
            var st := Step(tok, maxTokens, ov, ss, i, done, lo);
            Mirrors(ss, i + 1, a.0, a.1, st.0, st.1)
  {
    if tok(ss[i]) > maxTokens {
      OversizedTurn(tok, maxTokens, ov, ss, i, chunks, cur, done, lo);
    } else if SumTok(tok, cur) + tok(ss[i]) <= maxTokens {
      FitsTurn(tok, maxTokens, ov, ss, i, chunks, cur, done, lo);
    } else {
      ReseedTurn(tok, maxTokens, ov, ss, i, chunks, cur, done, lo);
    }
  }

  /** After every prefix of the sentences, the loop's chunks are the texts
      of the windows emitted so far and its buffer is the run of sentences
      since the last start. */
  lemma {:induction false} ScanMirrors(tok: string -> nat, maxTokens: int, ov: nat, ss: seq<string>, i: nat)
    requires i <= |ss|
    ensures Mirrors(ss, i, Scan(tok, maxTokens, ov, ss, i).0, Scan(tok, maxTokens, ov, ss, i).1,
                    StateAt(tok, maxTokens, ov, ss, i).0, StateAt(tok, maxTokens, ov, ss, i).1)
    decreases i
  {
    if i > 0 {
      ScanMirrors(tok, maxTokens, ov, ss, i - 1);
      var prev := Scan(tok, maxTokens, ov, ss, i - 1);
      var st := StateAt(tok, maxTokens, ov, ss, i - 1);
      AdvanceMirrors(tok, maxTokens, ov, ss, i - 1, prev.0, prev.1, st.0, st.1);
      assert Scan(tok, maxTokens, ov, ss, i) == Advance(tok, maxTokens, ov, prev.0, prev.1, ss[i - 1]);
      assert StateAt(tok, maxTokens, ov, ss, i) == Step(tok, maxTokens, ov, ss, i - 1, st.0, st.1);
    }
  }

  /** Chunk `k` of `_chunk_sentences` is the sentences of window `k`
      joined by single spaces. */
  lemma ChunksAreWindows(tok: string -> nat, maxTokens: int, ss: seq<string>)
    ensures Chunks(tok, maxTokens, ss) == Texts(ss, Windows(tok, maxTokens, ss))
  {
    var ov := Overlap(maxTokens);
    ScanMirrors(tok, maxTokens, ov, ss, |ss|);
    var last := StateAt(tok, maxTokens, ov, ss, |ss|);
    if last.1 < |ss| {
      TextsSnoc(ss, last.0, (last.1, |ss|));
    } else {
      assert last.0 + Flush(last.1, |ss|) == last.0;
    }
  }

  // ---------------------------------------------------------------------
  // What the windows are

  /** Sentence `j` is over the budget. */
  predicate Oversized(tok: string -> nat, maxTokens: int, ss: seq<string>, j: int) {
    0 <= j < |ss| && tok(ss[j]) > maxTokens
  }

  /** Where the window after `a` starts: right after `a` when `a` is an
      oversized sentence or the next sentence is oversized, otherwise
      `min(ov, |a|)` sentences before the end of `a`. */
  function NextStart(tok: string -> nat, maxTokens: int, ov: nat, ss: seq<string>, a: (nat, nat)): int {
    if Oversized(tok, maxTokens, ss, a.1) || (a.1 == a.0 + 1 && Oversized(tok, maxTokens, ss, a.0)) then a.1
    else a.1 - Min(ov, a.1 - a.0)
  }

  /** Window `b` follows window `a`: it starts where `NextStart` says and
      takes in at least the sentence right after `a`. */
  predicate Follows(tok: string -> nat, maxTokens: int, ov: nat, ss: seq<string>, a: (nat, nat), b: (nat, nat)) {
    a.1 < |ss| && b.0 == NextStart(tok, maxTokens, ov, ss, a) && a.1 < b.1
  }

  /** A window that holds an oversized sentence holds nothing else. */
  predicate Isolates(tok: string -> nat, maxTokens: int, ss: seq<string>, w: (nat, nat)) {
    forall j :: w.0 <= j < w.1 && Oversized(tok, maxTokens, ss, j) ==> w == (j, j + 1)
  }

  predicate AllFollow(tok: string -> nat, maxTokens: int, ov: nat, ss: seq<string>, w: seq<(nat, nat)>) {
    forall k :: 0 <= k < |w| - 1 ==> Follows(tok, maxTokens, ov, ss, w[k], w[k + 1])
  }

  predicate AllIsolate(tok: string -> nat, maxTokens: int, ss: seq<string>, w: seq<(nat, nat)>) {
    forall k :: 0 <= k < |w| ==> Isolates(tok, maxTokens, ss, w[k])
  }

  lemma FollowConcat(tok: string -> nat, maxTokens: int, ov: nat, ss: seq<string>, pre: seq<(nat, nat)>, rest: seq<(nat, nat)>)
    requires AllFollow(tok, maxTokens, ov, ss, pre) && AllFollow(tok, maxTokens, ov, ss, rest)
    requires pre != [] && rest != [] ==> Follows(tok, maxTokens, ov, ss, pre[|pre| - 1], rest[0])
    ensures AllFollow(tok, maxTokens, ov, ss, pre + rest)
  {
    var r := pre + rest;
    forall k | 0 <= k < |r| - 1 ensures Follows(tok, maxTokens, ov, ss, r[k], r[k + 1]) {
      if k >= |pre| {
        assert r[k] == rest[k - |pre|] && r[k + 1] == rest[k + 1 - |pre|];
      } else if k == |pre| - 1 {
        assert r[k] == pre[|pre| - 1] && r[k + 1] == rest[0];
      } else {
        assert r[k] == pre[k] && r[k + 1] == pre[k + 1];
      }
    }
  }

  lemma IsolateConcat(tok: string -> nat, maxTokens: int, ss: seq<string>, pre: seq<(nat, nat)>, rest: seq<(nat, nat)>)
    requires AllIsolate(tok, maxTokens, ss, pre) && AllIsolate(tok, maxTokens, ss, rest)
    ensures AllIsolate(tok, maxTokens, ss, pre + rest)
  {
    var r := pre + rest;
    forall k | 0 <= k < |r| ensures Isolates(tok, maxTokens, ss, r[k]) {
      if k >= |pre| {
        assert r[k] == rest[k - |pre|];
      } else {
        assert r[k] == pre[k];
      }
    }
  }

  /** What holds of the loop state before sentence `i`: the buffer holds
      no oversized sentence; the windows so far are nonempty, lie before
      `i`, follow each other and isolate oversized sentences; the first
      starts at sentence 0; and the buffer starts where the last window
      says the next one starts. */
  predicate Inv(tok: string -> nat, maxTokens: int, ov: nat, ss: seq<string>, i: nat, done: seq<(nat, nat)>, lo: nat) {
    && lo <= i <= |ss|
    && (forall j :: lo <= j < i ==> !Oversized(tok, maxTokens, ss, j))
    && (forall k :: 0 <= k < |done| ==> done[k].0 < done[k].1 <= i)
    && AllFollow(tok, maxTokens, ov, ss, done)
    && AllIsolate(tok, maxTokens, ss, done)
    && (done == [] ==> lo == 0)
    && (done != [] ==>
          && done[0].0 == 0
          && done[|done| - 1].1 <= i
          && NextStart(tok, maxTokens, ov, ss, done[|done| - 1]) == lo
          && (done[|done| - 1].1 == i ==> lo == i))
  }

  /** The shape of a complete list of windows: there is none exactly when
      there are no sentences; the first starts at sentence 0 and the last
      ends after the last sentence; none is empty; each follows its
      predecessor; and an oversized sentence is always a window of its own. */
  predicate Shaped(tok: string -> nat, maxTokens: int, ov: nat, ss: seq<string>, w: seq<(nat, nat)>) {
    && (w == [] <==> ss == [])
    && (w != [] ==> w[0].0 == 0 && w[|w| - 1].1 == |ss|)
    && (forall k :: 0 <= k < |w| ==> w[k].0 < w[k].1 <= |ss|)
    && AllFollow(tok, maxTokens, ov, ss, w)
    && AllIsolate(tok, maxTokens, ss, w)
  }

  /** The buffer, when flushed before sentence `i`, follows the last window. */
  lemma FlushFollows(tok: string -> nat, maxTokens: int, ov: nat, ss: seq<string>, i: nat, done: seq<(nat, nat)>, lo: nat)
    requires Inv(tok, maxTokens, ov, ss, i, done, lo) && lo < i
    ensures AllFollow(tok, maxTokens, ov, ss, done + [(lo, i)])
    ensures AllIsolate(tok, maxTokens, ss, done + [(lo, i)])
  {
    if done != [] {
      assert Follows(tok, maxTokens, ov, ss, done[|done| - 1], (lo, i));
    }
    FollowConcat(tok, maxTokens, ov, ss, done, [(lo, i)]);
    assert AllIsolate(tok, maxTokens, ss, [(lo, i)]);
    IsolateConcat(tok, maxTokens, ss, done, [(lo, i)]);
  }

  /** One turn of the loop keeps `Inv`. */
  lemma StepInv(tok: string -> nat, maxTokens: int, ov: nat, ss: seq<string>, i: nat, done: seq<(nat, nat)>, lo: nat)
    requires Inv(tok, maxTokens, ov, ss, i, done, lo) && i < |ss|
    ensures var next := Step(tok, maxTokens, ov, ss, i, done, lo);
            Inv(tok, maxTokens, ov, ss, i + 1, next.0, next.1)
  {
    if tok(ss[i]) > maxTokens {
      OversizedInv(tok, maxTokens, ov, ss, i, done, lo);
    } else if !Fits(tok, maxTokens, ss, lo, i) {
      ReseedInv(tok, maxTokens, ov, ss, i, done, lo);
    } else {
      FitsInv(tok, maxTokens, ov, ss, i, done, lo);
    }
  }

  lemma FitsInv(tok: string -> nat, maxTokens: int, ov: nat, ss: seq<string>, i: nat, done: seq<(nat, nat)>, lo: nat)
    requires Inv(tok, maxTokens, ov, ss, i, done, lo) && i < |ss| && tok(ss[i]) <= maxTokens
    ensures Inv(tok, maxTokens, ov, ss, i + 1, done, lo)
  {
    assert !Oversized(tok, maxTokens, ss, i);
  }

  lemma OversizedInv(tok: string -> nat, maxTokens: int, ov: nat, ss: seq<string>, i: nat, done: seq<(nat, nat)>, lo: nat)
    requires Inv(tok, maxTokens, ov, ss, i, done, lo) && i < |ss| && tok(ss[i]) > maxTokens
    ensures Inv(tok, maxTokens, ov, ss, i + 1, done + Flush(lo, i) + [(i, i + 1)], i + 1)
  {
    var d := done + Flush(lo, i);
    if lo < i {
      FlushFollows(tok, maxTokens, ov, ss, i, done, lo);
      assert d[|d| - 1] == (lo, i);
      assert Follows(tok, maxTokens, ov, ss, (lo, i), (i, i + 1));
    } else {
      assert d == done;
    }
    AppendOversized(tok, maxTokens, ov, ss, i, d);
  }

  /** Appending the window of an oversized sentence `i` to windows that
      end by `i`, follow each other and isolate, and whose last one (if
      any) is followed by `(i, i + 1)`, keeps `Inv` with the buffer empty. */
  lemma AppendOversized(tok: string -> nat, maxTokens: int, ov: nat, ss: seq<string>, i: nat, d: seq<(nat, nat)>)
    requires i < |ss| && tok(ss[i]) > maxTokens
    requires forall k :: 0 <= k < |d| ==> d[k].0 < d[k].1 <= i
    requires AllFollow(tok, maxTokens, ov, ss, d) && AllIsolate(tok, maxTokens, ss, d)
    requires d == [] ==> i == 0
    requires d != [] ==> d[0].0 == 0 && Follows(tok, maxTokens, ov, ss, d[|d| - 1], (i, i + 1))
    ensures Inv(tok, maxTokens, ov, ss, i + 1, d + [(i, i + 1)], i + 1)
  {
    var w := d + [(i, i + 1)];
    FollowConcat(tok, maxTokens, ov, ss, d, [(i, i + 1)]);
    assert AllIsolate(tok, maxTokens, ss, [(i, i + 1)]);
    IsolateConcat(tok, maxTokens, ss, d, [(i, i + 1)]);
    assert w[|w| - 1] == (i, i + 1);
    assert w[0].0 == 0;
    assert forall k :: 0 <= k < |w| ==> w[k].0 < w[k].1 <= i + 1 by {
      forall k | 0 <= k < |w| ensures w[k].0 < w[k].1 <= i + 1 {
        if k < |d| { assert w[k] == d[k]; }
      }
    }
  }

  lemma ReseedInv(tok: string -> nat, maxTokens: int, ov: nat, ss: seq<string>, i: nat, done: seq<(nat, nat)>, lo: nat)
    requires Inv(tok, maxTokens, ov, ss, i, done, lo) && i < |ss|
    requires tok(ss[i]) <= maxTokens && !Fits(tok, maxTokens, ss, lo, i)
    ensures Inv(tok, maxTokens, ov, ss, i + 1, done + [(lo, i)], i - Min(ov, i - lo))
  {
    assert ss[i..i] == [];
    assert lo < i;
    FlushFollows(tok, maxTokens, ov, ss, i, done, lo);
    assert !Oversized(tok, maxTokens, ss, lo);
  }

  /** The state after every prefix of the sentences keeps `Inv`. */
  lemma {:induction false} StateInv(tok: string -> nat, maxTokens: int, ov: nat, ss: seq<string>, i: nat)
    requires i <= |ss|
    ensures Inv(tok, maxTokens, ov, ss, i, StateAt(tok, maxTokens, ov, ss, i).0, StateAt(tok, maxTokens, ov, ss, i).1)
    decreases i
  {
    if i > 0 {
      StateInv(tok, maxTokens, ov, ss, i - 1);
      var prev := StateAt(tok, maxTokens, ov, ss, i - 1);
      StepInv(tok, maxTokens, ov, ss, i - 1, prev.0, prev.1);
      assert StateAt(tok, maxTokens, ov, ss, i) == Step(tok, maxTokens, ov, ss, i - 1, prev.0, prev.1);
    }
  }

  /** Flushing the buffer at the end completes a well-shaped list of
      windows. */
  lemma FinalShaped(tok: string -> nat, maxTokens: int, ov: nat, ss: seq<string>, done: seq<(nat, nat)>, lo: nat)
    requires Inv(tok, maxTokens, ov, ss, |ss|, done, lo)
    ensures Shaped(tok, maxTokens, ov, ss, done + Flush(lo, |ss|))
  {
    if lo < |ss| {
      FlushFollows(tok, maxTokens, ov, ss, |ss|, done, lo);
    }
  }

  /** Windows that start no later than their predecessor ends, from the
      first start to the last end, cover every index in between. */
  lemma {:induction false} ChainCovers(w: seq<(nat, nat)>, j: int) returns (k: nat)
    requires w != [] && w[0].0 <= j < w[|w| - 1].1
    requires forall k :: 0 <= k < |w| - 1 ==> w[k + 1].0 <= w[k].1
    ensures k < |w| && w[k].0 <= j < w[k].1
    decreases |w|
  {
    if j < w[0].1 {
      k := 0;
    } else {
      assert forall k :: 0 <= k < |w[1..]| - 1 ==> w[1..][k + 1].0 <= w[1..][k].1 by {
        forall k | 0 <= k < |w[1..]| - 1 ensures w[1..][k + 1].0 <= w[1..][k].1 {
          assert w[1..][k + 1] == w[k + 2] && w[1..][k] == w[k + 1];
        }
      }
      var k' := ChainCovers(w[1..], j);
      k := k' + 1;
    }
  }

  /** The windows of `_chunk_sentences` are well shaped. */
  lemma WindowsShape(tok: string -> nat, maxTokens: int, ss: seq<string>)
    ensures Shaped(tok, maxTokens, Overlap(maxTokens), ss, Windows(tok, maxTokens, ss))
    ensures InBounds(ss, Windows(tok, maxTokens, ss))
  {
    var ov := Overlap(maxTokens);
    StateInv(tok, maxTokens, ov, ss, |ss|);
    var last := StateAt(tok, maxTokens, ov, ss, |ss|);
    FinalShaped(tok, maxTokens, ov, ss, last.0, last.1);
  }

  /** Every sentence lands in some window, and every oversized sentence is
      one whole window. */
  lemma WindowsCover(tok: string -> nat, maxTokens: int, ss: seq<string>, j: int) returns (k: nat)
    requires 0 <= j < |ss|
    ensures k < |Windows(tok, maxTokens, ss)|
    ensures Windows(tok, maxTokens, ss)[k].0 <= j < Windows(tok, maxTokens, ss)[k].1
    ensures Oversized(tok, maxTokens, ss, j) ==> Windows(tok, maxTokens, ss)[k] == (j, j + 1)
  {
    var w := Windows(tok, maxTokens, ss);
    WindowsShape(tok, maxTokens, ss);
    forall k | 0 <= k < |w| - 1 ensures w[k + 1].0 <= w[k].1 {
      assert Follows(tok, maxTokens, Overlap(maxTokens), ss, w[k], w[k + 1]);
    }
    k := ChainCovers(w, j);
    assert Isolates(tok, maxTokens, ss, w[k]);
  }

  /** One token per character: a tokenizer for the example below. */
  function CharCount(s: string): nat {
    |s|
  }

  /** The windows' budget test sums the sentences' token counts, and the
      reseeded buffer keeps at least ten sentences of the last one, so a
      chunk can exceed `max_tokens` even when no sentence does: with one
      token per character and a budget of one, the sentences "a" and "b"
      give the chunks "a" and "a b", and "a b" has three tokens. */
  lemma ChunkOverBudget()
    ensures Chunks(CharCount, 1, ["a", "b"]) == ["a", "a b"]
    ensures CharCount("a b") > 1
  {
    var ss := ["a", "b"];
    assert Overlap(1) == 10;
    assert SumTok(CharCount, []) == 0;
    assert Scan(CharCount, 1, 10, ss, 0) == ([], []);
    assert [] + ["a"] == ["a"];
    assert Scan(CharCount, 1, 10, ss, 1) == ([], ["a"]);
    assert SumTok(CharCount, ["a"]) == 1 by {
      assert ["a"][..0] == [];
    }
    assert ["a"][0..] + ["b"] == ["a", "b"];
    assert Scan(CharCount, 1, 10, ss, 2) == (["a"], ["a", "b"]);
    assert Join(" ", ["a", "b"]) == "a b";
  }
}
