// `pack_chunks_by_token_budget`: greedy packing of text pieces, in order,
// into the tokens left once the header and the reserve for the answer are
// taken from the model's context size.

module Packer {
  import opened Text
  import opened Tokens

  /** The separator placed between packed pieces. */
  const Sep: string := "\n\n---\n\n"

  /** The separator of the fallback `"\n\n".join(chunks[:1])`. */
  const FallbackSep: string := "\n\n"

  /** `model_max_context - token_len(header) - reserve_for_answer` */
  function Budget(tok: string -> nat, header: string, maxContext: int, reserve: int): int {
    maxContext - tok(header) - reserve
  }

  /** What packing the pieces `xs` is charged: the tokens of every piece,
      and the tokens of the separator for every piece after the first. */
  function Cost(tok: string -> nat, xs: seq<string>): nat {
    if xs == [] then 0
    else Cost(tok, xs[..|xs| - 1]) + tok(xs[|xs| - 1]) + (if |xs| == 1 then 0 else tok(Sep))
  }

  /** The charge is the pieces' token sum plus one separator per join. */
  lemma {:induction false} CostClosedForm(tok: string -> nat, xs: seq<string>)
    requires xs != []
    ensures Cost(tok, xs) == SumTok(tok, xs) + (|xs| - 1) * tok(Sep)
    decreases |xs|
  {
    if |xs| > 1 {
      CostClosedForm(tok, xs[..|xs| - 1]);
      assert xs[..|xs| - 1][..|xs| - 2] == xs[..|xs| - 2];
    }
  }

  /** A longer prefix is never charged less. */
  lemma {:induction false} CostMonotone(tok: string -> nat, xs: seq<string>, m: nat, n: nat)
    requires m <= n <= |xs|
    ensures Cost(tok, xs[..m]) <= Cost(tok, xs[..n])
    decreases n - m
  {
    if m < n {
      CostMonotone(tok, xs, m, n - 1);
      assert xs[..n][..n - 1] == xs[..n - 1];
    }
  }

  /** The length of the longest prefix of `xs`, no longer than `m`, whose
      charge stays within `budget`. */
  function LongestFit(tok: string -> nat, xs: seq<string>, budget: int, m: nat): (n: nat)
    requires m <= |xs| && 0 <= budget
    ensures n <= m
    ensures Cost(tok, xs[..n]) <= budget
    ensures forall k :: n < k <= m ==> Cost(tok, xs[..k]) > budget
    decreases m
  {
    if m == 0 then
      assert xs[..0] == [];
      0
    else if Cost(tok, xs[..m]) <= budget then m
    else LongestFit(tok, xs, budget, m - 1)
  }

  /** What `pack_chunks_by_token_budget(header, chunks, model_max_context,
      reserve_for_answer)` returns: the first piece alone (or nothing) when
      no budget is left, otherwise the longest prefix that fits, joined by
      the separator. */
  function Pack(tok: string -> nat, header: string, chunks: seq<string>, maxContext: int, reserve: int): string {
    var budget := Budget(tok, header, maxContext, reserve);
    if budget <= 0 then Join(FallbackSep, chunks[..if chunks == [] then 0 else 1])
    else Join(Sep, chunks[..LongestFit(tok, chunks, budget, |chunks|)])
  }

  /** The greedy loop stops at the first piece it rejects; since a longer
      prefix is never cheaper, that is where the longest fitting prefix
      ends. */
  lemma GreedyIsLongest(tok: string -> nat, xs: seq<string>, budget: int, i: nat)
    requires 0 <= budget && i <= |xs|
    requires Cost(tok, xs[..i]) <= budget
    requires i < |xs| ==> Cost(tok, xs[..i + 1]) > budget
    ensures LongestFit(tok, xs, budget, |xs|) == i
  {
    var n := LongestFit(tok, xs, budget, |xs|);
    if n > i {
      CostMonotone(tok, xs, i + 1, n);
    }
  }

  /** `pack_chunks_by_token_budget`, with the loop that appends to `out`
      and keeps the running charge in `used`. */
  method PackChunksByTokenBudget(tok: string -> nat, header: string, chunks: seq<string>, maxContext: int, reserve: int)
    returns (r: string)
    ensures r == Pack(tok, header, chunks, maxContext, reserve)
  {
    var budget := maxContext - tok(header) - reserve;
    if budget <= 0 {
      return Join(FallbackSep, chunks[..if chunks == [] then 0 else 1]);
    }
    var out: seq<string> := [];
    var used := 0;
    var sepTok := tok(Sep);
    var i := 0;
    while i < |chunks|
      invariant i <= |chunks|
      invariant out == chunks[..i]
      invariant used == Cost(tok, out) <= budget
    {
      var c := chunks[i];
      var extra := tok(c) + (if out != [] then sepTok else 0);
      assert chunks[..i + 1][..i] == out;
      if used + extra <= budget {
        out := out + [c];
        used := used + extra;
        i := i + 1;
      } else {
        break;
      }
    }
    GreedyIsLongest(tok, chunks, budget, i);
    r := Join(Sep, out);
  }

  /** With no budget left, the result is the first piece, or the empty
      string when there is none. */
  lemma PackNoBudget(tok: string -> nat, header: string, chunks: seq<string>, maxContext: int, reserve: int)
    requires Budget(tok, header, maxContext, reserve) <= 0
    ensures Pack(tok, header, chunks, maxContext, reserve) == if chunks == [] then "" else chunks[0]
  {
    if chunks != [] {
      assert chunks[..1] == [chunks[0]];
    }
  }

  /** With a budget left, the result joins a prefix of the pieces whose
      charge fits the budget, and every longer prefix would not fit. */
  lemma PackWithinBudget(tok: string -> nat, header: string, chunks: seq<string>, maxContext: int, reserve: int)
    returns (n: nat)
    requires Budget(tok, header, maxContext, reserve) > 0
    ensures n <= |chunks|
    ensures Pack(tok, header, chunks, maxContext, reserve) == Join(Sep, chunks[..n])
    ensures Cost(tok, chunks[..n]) <= Budget(tok, header, maxContext, reserve)
    ensures forall k :: n < k <= |chunks| ==> Cost(tok, chunks[..k]) > Budget(tok, header, maxContext, reserve)
  {
    n := LongestFit(tok, chunks, Budget(tok, header, maxContext, reserve), |chunks|);
  }

  /** Packing a single piece: it is kept when there is no budget left
      (the fallback) or when its tokens fit the budget, and dropped
      otherwise. */
  lemma PackSingle(tok: string -> nat, header: string, b: string, maxContext: int, reserve: int)
    ensures Pack(tok, header, [b], maxContext, reserve)
         == if Budget(tok, header, maxContext, reserve) <= 0 || tok(b) <= Budget(tok, header, maxContext, reserve) then b else ""
  {
    var budget := Budget(tok, header, maxContext, reserve);
    assert [b][..1] == [b] && [b][..0] == [];
    assert Cost(tok, [b]) == tok(b) by {
      assert [b][..0] == [];
    }
  }
}
