// `build_context_for_tickets`: one block per ticket that has chunks, each
// block its ticket label followed by the ticket's chunks in score order;
// the blocks joined whole when they fit the context window, otherwise the
// blocks up to the first one that no longer fits, and as a last resort the
// first block handed to the token-budget packer.

module ContextAssembler {
  import opened Wrappers
  import opened Text
  import opened StableSort
  import opened Retrieval
  import opened Packer

  /** The header the context is measured with. */
  const Header: string := "KONTEKSTUS:\n"

  /** The separator placed between ticket blocks. */
  const BlockSep: string := "\n\n====================\n\n"

  // ---------------------------------------------------------------------
  // Decimal rendering of ticket ids, Python's `str(int)`

  predicate IsDigit(c: char) {
    '0' <= c <= '9'
  }

  function DigitChar(d: nat): (c: char)
    requires d < 10
    ensures IsDigit(c)
  {
    ('0' as int + d) as char
  }

  function DigitValue(c: char): (d: nat)
    requires IsDigit(c)
    ensures d < 10
  {
    c as int - '0' as int
  }

  /** The decimal digits of `n`, without leading zeros: the first digit is
      `0` only for zero itself, which is rendered as that one digit. */
  function NatToString(n: nat): (s: string)
    ensures s != [] && forall k :: 0 <= k < |s| ==> IsDigit(s[k])
    ensures s[0] == '0' <==> n == 0
    ensures |s| > 1 ==> s[0] != '0'
  {
    if n < 10 then [DigitChar(n)] else NatToString(n / 10) + [DigitChar(n % 10)]
  }

  /** `str(i)`: a minus sign before the digits of a negative number. */
  function IntToString(i: int): string {
    if i < 0 then "-" + NatToString(-i) else NatToString(i)
  }

  /** The value of a non-empty string of decimal digits. */
  function ParseNat(s: string): nat
    requires s != [] && forall k :: 0 <= k < |s| ==> IsDigit(s[k])
  {
    if |s| == 1 then DigitValue(s[0])
    else ParseNat(s[..|s| - 1]) * 10 + DigitValue(s[|s| - 1])
  }

  /** The integer a decimal string denotes, if it is one. */
  function ParseInt(s: string): Option<int> {
    if s != [] && forall k :: 0 <= k < |s| ==> IsDigit(s[k]) then Some(ParseNat(s))
    else if |s| >= 2 && s[0] == '-' && forall k :: 1 <= k < |s| ==> IsDigit(s[k]) then Some(0 - ParseNat(s[1..]))
    else None
  }

  lemma {:induction false} ParseNatToString(n: nat)
    ensures ParseNat(NatToString(n)) == n
    decreases n
  {
    if n >= 10 {
      ParseNatToString(n / 10);
      var s := NatToString(n);
      assert s[..|s| - 1] == NatToString(n / 10);
    }
  }

  /** Reading back the rendering of an integer gives the integer. */
  lemma ParseIntToString(i: int)
    ensures ParseInt(IntToString(i)) == Some(i)
  {
    if i < 0 {
      ParseNegative(-i);
    } else {
      ParseNatToString(i);
    }
  }

  lemma ParseNegative(n: nat)
    requires n > 0
    ensures ParseInt("-" + NatToString(n)) == Some(0 - n)
  {
    var d := NatToString(n);
    var s := "-" + d;
    ParseNatToString(n);
    assert s[1..] == d;
    assert !IsDigit(s[0]);
    assert forall k :: 1 <= k < |s| ==> IsDigit(s[k]) by {
      forall k | 1 <= k < |s| ensures IsDigit(s[k]) {
        assert s[k] == d[k - 1];
      }
    }
  }

  // ---------------------------------------------------------------------
  // Ticket blocks

  /** `f"[TICKET {tid}]\n"` */
  function TicketLabel(tid: int): string {
    "[TICKET " + IntToString(tid) + "]\n"
  }

  /** Different tickets get different labels. */
  lemma TicketLabelInjective(a: int, b: int)
    requires TicketLabel(a) == TicketLabel(b)
    ensures a == b
  {
    var pre := "[TICKET ";
    var sa, sb := IntToString(a), IntToString(b);
    assert TicketLabel(a) == pre + (sa + "]\n") && TicketLabel(b) == pre + (sb + "]\n");
    assert sa + "]\n" == (pre + (sa + "]\n"))[|pre|..] == (pre + (sb + "]\n"))[|pre|..] == sb + "]\n";
    assert sa == (sa + "]\n")[..|sa|] == (sb + "]\n")[..|sb|] == sb;
    ParseIntToString(a);
    ParseIntToString(b);
  }

  /** The block of a ticket: its label, then the texts of its ranked
      chunks joined by the chunk separator. */
  function Block(tid: int, ranked: seq<ScoredChunk>): string {
    TicketLabel(tid) + Join(Sep, Keys(ranked))
  }

  /** The parts `f(ids[0])`, ..., `f(ids[n - 1])`, concatenated. */
  function Gather<T>(f: int -> seq<T>, ids: seq<int>, n: nat): seq<T>
    requires n <= |ids|
  {
    if n == 0 then [] else Gather(f, ids, n - 1) + f(ids[n - 1])
  }

  /** Element `m` of the part of `ids[i]` comes right after the parts
      before it. */
  lemma {:induction false} GatherAt<T>(f: int -> seq<T>, ids: seq<int>, n: nat, i: nat, m: nat)
    requires i < n <= |ids| && m < |f(ids[i])|
    ensures |Gather(f, ids, i)| + m < |Gather(f, ids, n)|
    ensures Gather(f, ids, n)[|Gather(f, ids, i)| + m] == f(ids[i])[m]
    decreases n
  {
    if i < n - 1 {
      GatherAt(f, ids, n - 1, i, m);
    }
  }

  /** Every element comes from the part of one of the ids. */
  lemma {:induction false} GatherOrigin<T>(f: int -> seq<T>, ids: seq<int>, n: nat, k: nat) returns (i: nat, m: nat)
    requires n <= |ids| && k < |Gather(f, ids, n)|
    ensures i < n && m < |f(ids[i])| && Gather(f, ids, n)[k] == f(ids[i])[m]
    decreases n
  {
    var pre := Gather(f, ids, n - 1);
    if k < |pre| {
      i, m := GatherOrigin(f, ids, n - 1, k);
    } else {
      i, m := n - 1, k - |pre|;
    }
  }

  /** The block of ticket `tid`, if it has rows; `fetch(tid)` stands for
      the rows the vector store returns for the ticket. */
  function BlockOf(fetch: int -> seq<ScoredChunk>, tid: int): seq<string> {
    if |fetch(tid)| == 0 then [] else [Block(tid, SortDesc(fetch(tid)))]
  }

  function BlockFn(fetch: int -> seq<ScoredChunk>): int -> seq<string> {
    tid => BlockOf(fetch, tid)
  }

  /** The blocks of the first `n` tickets of `ids`: a ticket without rows
      gets no block. */
  function Blocks(fetch: int -> seq<ScoredChunk>, ids: seq<int>, n: nat): seq<string>
    requires n <= |ids|
  {
    Gather(BlockFn(fetch), ids, n)
  }

  /** The number of the first `n` tickets that have rows. */
  function WithRows(fetch: int -> seq<ScoredChunk>, ids: seq<int>, n: nat): nat
    requires n <= |ids|
  {
    if n == 0 then 0 else WithRows(fetch, ids, n - 1) + (if |fetch(ids[n - 1])| == 0 then 0 else 1)
  }

  lemma {:induction false} BlocksCount(fetch: int -> seq<ScoredChunk>, ids: seq<int>, n: nat)
    requires n <= |ids|
    ensures |Blocks(fetch, ids, n)| == WithRows(fetch, ids, n)
    decreases n
  {
    if n > 0 {
      BlocksCount(fetch, ids, n - 1);
      assert Blocks(fetch, ids, n) == Blocks(fetch, ids, n - 1) + BlockOf(fetch, ids[n - 1]);
    }
  }

  /** One block per ticket with rows, in the order of the tickets, each
      labelled with its ticket and holding its chunks best first: the
      ticket at position `i` owns the block after those of the tickets
      before it. */
  lemma BlocksSpec(fetch: int -> seq<ScoredChunk>, ids: seq<int>, n: nat, i: nat)
    requires i < n <= |ids| && |fetch(ids[i])| > 0
    ensures WithRows(fetch, ids, i) < |Blocks(fetch, ids, n)|
    ensures Blocks(fetch, ids, n)[WithRows(fetch, ids, i)] == Block(ids[i], SortDesc(fetch(ids[i])))
  {
    BlocksCount(fetch, ids, i);
    assert BlockFn(fetch)(ids[i]) == [Block(ids[i], SortDesc(fetch(ids[i])))];
    GatherAt(BlockFn(fetch), ids, n, i, 0);
  }

  /** Every block is the block of one of the tickets, and that ticket has
      rows. */
  lemma BlockOrigin(fetch: int -> seq<ScoredChunk>, ids: seq<int>, n: nat, k: nat) returns (i: nat)
    requires n <= |ids| && k < |Blocks(fetch, ids, n)|
    ensures i < n && |fetch(ids[i])| > 0
    ensures Blocks(fetch, ids, n)[k] == Block(ids[i], SortDesc(fetch(ids[i])))
  {
    var m;
    i, m := GatherOrigin(BlockFn(fetch), ids, n, k);
    assert BlockFn(fetch)(ids[i]) == BlockOf(fetch, ids[i]);
  }

  // ---------------------------------------------------------------------
  // Fitting blocks into the context window

  /** `token_len(header + s) <= model_max_context - reserve_for_answer` */
  predicate Fits(tok: string -> nat, s: string, maxContext: int, reserve: int) {
    tok(Header + s) <= maxContext - reserve
  }

  /** The number of blocks the truncating loop keeps when it starts at
      block `i`: it stops at the first block whose addition makes the
      joined blocks no longer fit. */
  function FirstMisfit(tok: string -> nat, bs: seq<string>, maxContext: int, reserve: int, i: nat): (n: nat)
    requires i <= |bs|
    ensures i <= n <= |bs|
    ensures forall k :: i < k <= n ==> Fits(tok, Join(BlockSep, bs[..k]), maxContext, reserve)
    ensures n < |bs| ==> !Fits(tok, Join(BlockSep, bs[..n + 1]), maxContext, reserve)
    decreases |bs| - i
  {
    if i == |bs| || !Fits(tok, Join(BlockSep, bs[..i + 1]), maxContext, reserve) then i
    else FirstMisfit(tok, bs, maxContext, reserve, i + 1)
  }

  /** What `build_context_for_tickets` returns. */
  function Context(tok: string -> nat, fetch: int -> seq<ScoredChunk>, ids: seq<int>, maxContext: int, reserve: int): string {
    var bs := Blocks(fetch, ids, |ids|);
    if bs == [] then ""
    else if Fits(tok, Join(BlockSep, bs), maxContext, reserve) then Join(BlockSep, bs)
    else
      var n := FirstMisfit(tok, bs, maxContext, reserve, 0);
      if n == 0 then Pack(tok, Header, [bs[0]], maxContext, reserve)
      else Join(BlockSep, bs[..n])
  }

  /** A loop that keeps the blocks while they fit and stops at the first
      one that does not keeps exactly `FirstMisfit` blocks. */
  lemma {:induction false} FirstMisfitUnique(tok: string -> nat, bs: seq<string>, maxContext: int, reserve: int, i: nat, n: nat)
    requires i <= n <= |bs|
    requires forall k :: i < k <= n ==> Fits(tok, Join(BlockSep, bs[..k]), maxContext, reserve)
    requires n < |bs| ==> !Fits(tok, Join(BlockSep, bs[..n + 1]), maxContext, reserve)
    ensures FirstMisfit(tok, bs, maxContext, reserve, i) == n
    decreases n - i
  {
    if i < n {
      assert Fits(tok, Join(BlockSep, bs[..i + 1]), maxContext, reserve);
      FirstMisfitUnique(tok, bs, maxContext, reserve, i + 1, n);
    }
  }

  /** The candidate the truncating loop tests at block `i` is the join of
      the first `i + 1` blocks. */
  lemma CandidateJoin(bs: seq<string>, i: nat)
    requires i < |bs|
    ensures bs[..i] + [bs[i]] == bs[..i + 1]
    ensures Join(BlockSep, bs[..i + 1]) == if i == 0 then bs[i] else Join(BlockSep, bs[..i] + [bs[i]])
  {
    assert bs[..i] + [bs[i]] == bs[..i + 1];
    JoinSnoc(BlockSep, bs[..i], bs[i]);
  }

  /** The blocks of the first `i + 1` tickets, once the rows of ticket
      `i` are ranked: nothing more when it has none, its block otherwise. */
  lemma TicketBlock(fetch: int -> seq<ScoredChunk>, ids: seq<int>, i: nat, ranked: seq<ScoredChunk>)
    requires i < |ids| && ranked == SortDesc(fetch(ids[i])) && multiset(ranked) == multiset(fetch(ids[i]))
    ensures Blocks(fetch, ids, i + 1)
         == Blocks(fetch, ids, i) + if |ranked| == 0 then [] else [TicketLabel(ids[i]) + Join(Sep, Keys(ranked))]
  {
    assert |ranked| == |multiset(ranked)| == |multiset(fetch(ids[i]))| == |fetch(ids[i])|;
    assert Blocks(fetch, ids, i + 1) == Blocks(fetch, ids, i) + BlockFn(fetch)(ids[i]);
  }

  /** The first loop of `build_context_for_tickets`: fetch and rank each
      ticket's chunks and append a block for every ticket that has some. */
  method CollectBlocks(fetch: int -> seq<ScoredChunk>, ticketIds: seq<int>) returns (blocks: seq<string>)
    ensures blocks == Blocks(fetch, ticketIds, |ticketIds|)
  {
    blocks := [];
    for i := 0 to |ticketIds|
      invariant blocks == Blocks(fetch, ticketIds, i)
    {
      var tid := ticketIds[i];
      var chunksScored := RetrieveChunksForTicket(fetch(tid));
      TicketBlock(fetch, ticketIds, i, chunksScored);
      if |chunksScored| == 0 {
        continue;
      }
      var chunkTexts := Keys(chunksScored);
      var block := "[TICKET " + IntToString(tid) + "]\n" + Join(Sep, chunkTexts);
      blocks := blocks + [block];
    }
  }

  /** The truncating loop of `build_context_for_tickets`: keep appending
      blocks while the join of the kept ones and the next one fits, and
      stop at the first that does not. */
  method KeepFitting(tok: string -> nat, blocks: seq<string>, maxContext: int, reserve: int) returns (finalParts: seq<string>)
    ensures finalParts == blocks[..FirstMisfit(tok, blocks, maxContext, reserve, 0)]
  {
    finalParts := [];
    var i := 0;
    while i < |blocks|
      invariant i <= |blocks|
      invariant finalParts == blocks[..i]
      invariant forall k :: 0 < k <= i ==> Fits(tok, Join(BlockSep, blocks[..k]), maxContext, reserve)
    {
      var b := blocks[i];
      var candidate;
      if |finalParts| == 0 {
        candidate := b;
      } else {
        candidate := Join(BlockSep, finalParts + [b]);
      }
      CandidateJoin(blocks, i);
      if tok(Header + candidate) <= maxContext - reserve {
        finalParts := finalParts + [b];
        i := i + 1;
      } else {
        break;
      }
    }
    FirstMisfitUnique(tok, blocks, maxContext, reserve, 0, i);
  }

  /** `build_context_for_tickets`: the blocks, the check of all of them
      together, the truncating loop and the fallback to the packer. */
  method BuildContextForTickets(tok: string -> nat, fetch: int -> seq<ScoredChunk>, ticketIds: seq<int>, maxContext: int, reserve: int)
    returns (context: string)
    ensures context == Context(tok, fetch, ticketIds, maxContext, reserve)
  {
    var blocks := CollectBlocks(fetch, ticketIds);
    if blocks == [] {
      return "";
    }
    var header := Header;
    var combined := Join(BlockSep, blocks);
    if tok(header + combined) <= maxContext - reserve {
      return combined;
    }
    var finalParts := KeepFitting(tok, blocks, maxContext, reserve);
    if finalParts == [] {
      context := PackChunksByTokenBudget(tok, header, [blocks[0]], maxContext, reserve);
      return;
    }
    context := Join(BlockSep, finalParts);
  }

  // ---------------------------------------------------------------------
  // What the context is

  /** No ticket with rows, no context. */
  lemma ContextEmpty(tok: string -> nat, fetch: int -> seq<ScoredChunk>, ids: seq<int>, maxContext: int, reserve: int)
    requires forall i :: 0 <= i < |ids| ==> |fetch(ids[i])| == 0
    ensures Context(tok, fetch, ids, maxContext, reserve) == ""
  {
    NoRowsNoBlocks(fetch, ids, |ids|);
  }

  lemma {:induction false} NoRowsNoBlocks(fetch: int -> seq<ScoredChunk>, ids: seq<int>, n: nat)
    requires n <= |ids| && forall i :: 0 <= i < |ids| ==> |fetch(ids[i])| == 0
    ensures Blocks(fetch, ids, n) == []
    decreases n
  {
    if n > 0 {
      NoRowsNoBlocks(fetch, ids, n - 1);
    }
  }

  /** The outcomes of `build_context_for_tickets` when some ticket has
      rows: all blocks, when they fit together; otherwise the leading
      blocks as far as the first one whose addition does not fit, every
      shorter run of them fitting too; and when not even the first block
      fits, the packer's verdict on it alone: kept when no budget is left
      or when its tokens fit the budget, and the empty string otherwise. */
  lemma ContextOutcomes(tok: string -> nat, fetch: int -> seq<ScoredChunk>, ids: seq<int>, maxContext: int, reserve: int)
    returns (n: nat)
    requires Blocks(fetch, ids, |ids|) != []
    ensures var bs := Blocks(fetch, ids, |ids|);
            var r := Context(tok, fetch, ids, maxContext, reserve);
            && (Fits(tok, Join(BlockSep, bs), maxContext, reserve) ==> n == |bs| && r == Join(BlockSep, bs))
            && (!Fits(tok, Join(BlockSep, bs), maxContext, reserve) ==>
                  && n < |bs|
                  && (forall k :: 0 < k <= n ==> Fits(tok, Join(BlockSep, bs[..k]), maxContext, reserve))
                  && !Fits(tok, Join(BlockSep, bs[..n + 1]), maxContext, reserve)
                  && (n > 0 ==> r == Join(BlockSep, bs[..n]))
                  && (n == 0 ==> r == if Budget(tok, Header, maxContext, reserve) <= 0 || tok(bs[0]) <= Budget(tok, Header, maxContext, reserve)
                                      then bs[0] else ""))
            && (n > 0 ==> Fits(tok, r, maxContext, reserve))
  {
    var bs := Blocks(fetch, ids, |ids|);
    if Fits(tok, Join(BlockSep, bs), maxContext, reserve) {
      n := |bs|;
    } else {
      n := FirstMisfit(tok, bs, maxContext, reserve, 0);
      assert bs[..|bs|] == bs;
      PackSingle(tok, Header, bs[0], maxContext, reserve);
    }
  }

  /** Two tickets, the first without rows: the second's block alone, its
      chunks best first, is the whole context when it fits. */
  lemma ExampleOneBlock(tok: string -> nat, fetch: int -> seq<ScoredChunk>)
    requires fetch(3) == [] && fetch(7) == [(0.5, "b"), (0.9, "a")]
    requires tok(Header + "[TICKET 7]\na\n\n---\n\nb") <= 100
    ensures Context(tok, fetch, [3, 7], 100, 0) == "[TICKET 7]\na\n\n---\n\nb"
  {
    var rows := fetch(7);
    assert rows[1..] == [(0.9, "a")];
    assert SortDesc(rows[1..]) == [(0.9, "a")];
    assert InsertDesc((0.5, "b"), [(0.9, "a")]) == [(0.9, "a")] + InsertDesc((0.5, "b"), []);
    var ranked := SortDesc(rows);
    assert ranked == [(0.9, "a"), (0.5, "b")];
    assert Keys(ranked) == ["a", "b"];
    assert Join(Sep, ["a", "b"]) == "a" + Sep + Join(Sep, ["b"]);
    assert IntToString(7) == "7";
    var block := Block(7, ranked);
    assert block == "[TICKET 7]\na\n\n---\n\nb";
    assert Blocks(fetch, [3, 7], 1) == [];
    assert Blocks(fetch, [3, 7], 2) == [block];
    assert Join(BlockSep, [block]) == block;
  }
}
