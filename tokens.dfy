// `token_len`: the pipeline measures every length with one tokenizer.  The
// tokenizer is passed around as the function `tok`; nothing is assumed of
// it beyond returning a count, in particular not that the count of a
// concatenation is the sum of the counts of its parts.

module Tokens {

  /** `sum(token_len(x) for x in xs)` */
  function SumTok(tok: string -> nat, xs: seq<string>): nat {
    if xs == [] then 0 else SumTok(tok, xs[..|xs| - 1]) + tok(xs[|xs| - 1])
  }

  lemma SumTokSnoc(tok: string -> nat, xs: seq<string>, x: string)
    ensures SumTok(tok, xs + [x]) == SumTok(tok, xs) + tok(x)
  {
    assert (xs + [x])[..|xs|] == xs;
  }
}
