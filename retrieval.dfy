// The two ranking stages of retrieval, once the database has answered.
// Stage 1 (`retrieve_top_ticket_ids`): the nearest chunks of the whole
// store arrive as rows `(score, source_id)`; the scores are summed per
// ticket and the tickets with the largest sums are kept.  Stage 2
// (`retrieve_chunks_for_ticket`): the nearest chunks of one ticket arrive
// as rows `(score, content)` and are sorted by score, best first.  The
// query embedding and the SQL that produces the rows are not modelled:
// the rows are inputs.

module Retrieval {
  import opened Wrappers
  import opened StableSort

  /** A stage-1 row: the similarity score and the chunk's `source_id`,
      which may be NULL. */
  type Candidate = (real, Option<int>)

  /** A stage-2 row: the similarity score and the chunk's text. */
  type ScoredChunk = (real, string)

  // ---------------------------------------------------------------------
  // Stage 1: aggregation per ticket

  /** The distinct ticket ids of `rows`, in the order of their first
      appearance: the key order of the dictionary `agg`. */
  function Ids(rows: seq<Candidate>): seq<int> {
    if rows == [] then []
    else
      var pre := Ids(rows[..|rows| - 1]);
      var sid := rows[|rows| - 1].1;
      if sid.None? || sid.value in pre then pre else pre + [sid.value]
  }

  /** The sum of the scores of the rows of ticket `id`. */
  function Total(rows: seq<Candidate>, id: int): real {
    if rows == [] then 0.0
    else Total(rows[..|rows| - 1], id) + (if rows[|rows| - 1].1 == Some(id) then rows[|rows| - 1].0 else 0.0)
  }

  ghost predicate Distinct<T>(s: seq<T>) {
    forall i, j :: 0 <= i < j < |s| ==> s[i] != s[j]
  }

  /** The end of the Python slice `s[:n]` of a list of length `len`: a
      negative `n` counts from the end. */
  function SliceEnd(n: int, len: nat): (e: nat)
    ensures e <= len
    ensures n >= 0 ==> e == if n < len then n else len
  {
    if n >= 0 then (if n < len then n else len)
    else if len + n > 0 then len + n else 0
  }

  /** The items of `agg` in key order, score first. */
  function Items(rows: seq<Candidate>): (r: seq<(real, int)>)
    ensures |r| == |Ids(rows)|
    ensures forall k :: 0 <= k < |r| ==> r[k] == (Total(rows, Ids(rows)[k]), Ids(rows)[k])
  {
    seq(|Ids(rows)|, k requires 0 <= k < |Ids(rows)| => (Total(rows, Ids(rows)[k]), Ids(rows)[k]))
  }

  /** The ids of a sequence of scored pairs. */
  function Keys<T>(s: seq<(real, T)>): (r: seq<T>)
    ensures |r| == |s|
    ensures forall k :: 0 <= k < |s| ==> r[k] == s[k].1
  {
    seq(|s|, k requires 0 <= k < |s| => s[k].1)
  }

  /** The ticket ids `retrieve_top_ticket_ids` returns for the rows of
      its query: the first `top_tickets` of the tickets sorted by summed
      score, best first. */
  function TopTicketIds(rows: seq<Candidate>, topTickets: int): seq<int> {
    var ranked := SortDesc(Items(rows));
    SortDescSortedPerm(Items(rows));
    Keys(ranked[..SliceEnd(topTickets, |ranked|)])
  }

  /** The ranking part of `retrieve_top_ticket_ids`: the loop that fills
      the dictionary `agg` (its key order kept in `order`), then the
      stable descending sort of its items and the slice. */
  method RetrieveTopTicketIds(rows: seq<Candidate>, topTickets: int) returns (ticketIds: seq<int>)
    ensures ticketIds == TopTicketIds(rows, topTickets)
  {
    var agg: map<int, real> := map[];
    var order: seq<int> := [];
    for i := 0 to |rows|
      invariant order == Ids(rows[..i])
      invariant forall id :: id in agg <==> id in order
      invariant forall id :: id in agg ==> agg[id] == Total(rows[..i], id)
    {
      assert rows[..i + 1] == rows[..i] + [rows[i]];
      forall id {
        TotalSnoc(rows[..i], rows[i], id);
      }
      var (score, sid) := rows[i];
      if sid.None? {
        continue;
      }
      var id := sid.value;
      if id !in agg {
        TotalAbsent(rows[..i], id);
        order := order + [id];
      }
      agg := agg[id := (if id in agg then agg[id] else 0.0) + score];
    }
    assert rows[..|rows|] == rows;
    assert forall id :: id in agg <==> id in order;
    forall k | 0 <= k < |order| ensures order[k] in agg {
      assert order[k] in order;
    }
    var items := seq(|order|, k requires 0 <= k < |order| => (agg[order[k]], order[k]));
    assert items == Items(rows);
    var ranked := SortDesc(items);
    SortDescSortedPerm(items);
    ticketIds := Keys(ranked[..SliceEnd(topTickets, |ranked|)]);
  }

  // ---------------------------------------------------------------------
  // What the aggregation keeps

  /** Each ticket id is kept once. */
  lemma {:induction false} IdsDistinct(rows: seq<Candidate>)
    ensures Distinct(Ids(rows))
    decreases |rows|
  {
    if rows != [] {
      IdsDistinct(rows[..|rows| - 1]);
    }
  }

  /** A ticket id is kept exactly when some row carries it; rows with a
      NULL id contribute nothing. */
  lemma {:induction false} IdsMembers(rows: seq<Candidate>, id: int)
    ensures id in Ids(rows) <==> exists k :: 0 <= k < |rows| && rows[k].1 == Some(id)
    decreases |rows|
  {
    if rows != [] {
      var init := rows[..|rows| - 1];
      IdsMembers(init, id);
      assert forall k :: 0 <= k < |init| ==> init[k] == rows[k];
      if id !in Ids(init) && rows[|rows| - 1].1 != Some(id) {
        forall k | 0 <= k < |rows| ensures rows[k].1 != Some(id) {
          if k < |init| {
            assert rows[k] == init[k];
          }
        }
      }
    }
  }

  /** Ids keep the order of first appearance: the ids of any prefix of the
      rows come first, in the same order. */
  lemma {:induction false} IdsPrefix(rows: seq<Candidate>, n: nat)
    requires n <= |rows|
    ensures Ids(rows[..n]) <= Ids(rows)
    decreases |rows| - n
  {
    if n < |rows| {
      IdsPrefix(rows, n + 1);
      assert rows[..n + 1][..n] == rows[..n];
    } else {
      assert rows[..n] == rows;
    }
  }

  /** A ticket without rows scores nothing, and one row adds its score
      to its own ticket only. */
  lemma TotalSnoc(rows: seq<Candidate>, row: Candidate, id: int)
    ensures Total([], id) == 0.0
    ensures Total(rows + [row], id) == Total(rows, id) + (if row.1 == Some(id) then row.0 else 0.0)
  {
    assert (rows + [row])[..|rows|] == rows;
  }

  /** A ticket that no row carries sums to zero. */
  lemma {:induction false} TotalAbsent(rows: seq<Candidate>, id: int)
    requires id !in Ids(rows)
    ensures Total(rows, id) == 0.0
    decreases |rows|
  {
    if rows != [] {
      TotalAbsent(rows[..|rows| - 1], id);
    }
  }

  // ---------------------------------------------------------------------
  // What the ranking returns

  /** Sequences with the same multiset, one without repeats: neither has
      repeats. */
  lemma DistinctPerm<T>(a: seq<T>, b: seq<T>)
    requires multiset(a) == multiset(b) && Distinct(b)
    ensures Distinct(a)
  {
    forall i, j | 0 <= i < j < |a| ensures a[i] != a[j] {
      if a[i] == a[j] {
        assert a == a[..i] + [a[i]] + a[i + 1..j] + [a[j]] + a[j + 1..];
        assert multiset(a)[a[i]] >= 2;
        DistinctAtMostOnce(b, a[i]);
        assert false;
      }
    }
  }

  lemma {:induction false} DistinctAtMostOnce<T>(b: seq<T>, x: T)
    requires Distinct(b)
    ensures multiset(b)[x] <= 1
    decreases |b|
  {
    if b != [] {
      assert b == [b[0]] + b[1..];
      assert Distinct(b[1..]) by {
        forall i, j | 0 <= i < j < |b[1..]| ensures b[1..][i] != b[1..][j] {
          assert b[1..][i] == b[i + 1] && b[1..][j] == b[j + 1];
        }
      }
      DistinctAtMostOnce(b[1..], x);
      if b[0] == x {
        assert x !in b[1..] by {
          forall k | 0 <= k < |b[1..]| ensures b[1..][k] != x {
            assert b[1..][k] == b[k + 1];
          }
        }
      }
    }
  }

  /** The ranked items: a permutation of the items, non-increasing by
      summed score, each carrying its own ticket's sum, with no ticket
      twice. */
  lemma RankedItems(rows: seq<Candidate>)
    ensures |SortDesc(Items(rows))| == |Ids(rows)|
    ensures SortedDesc(SortDesc(Items(rows)))
    ensures forall k :: 0 <= k < |Ids(rows)| ==> SortDesc(Items(rows))[k] == (Total(rows, SortDesc(Items(rows))[k].1), SortDesc(Items(rows))[k].1)
    ensures forall k :: 0 <= k < |Ids(rows)| ==> SortDesc(Items(rows))[k].1 in Ids(rows)
    ensures forall id :: id in Ids(rows) ==> (Total(rows, id), id) in SortDesc(Items(rows))
    ensures Distinct(Keys(SortDesc(Items(rows))))
  {
    var items := Items(rows);
    var ranked := SortDesc(items);
    SortDescSortedPerm(items);
    IdsDistinct(rows);
    forall k | 0 <= k < |ranked| ensures ranked[k] == (Total(rows, ranked[k].1), ranked[k].1) && ranked[k].1 in Ids(rows) {
      assert ranked[k] in multiset(items);
    }
    forall id | id in Ids(rows) ensures (Total(rows, id), id) in ranked {
      var k :| 0 <= k < |Ids(rows)| && Ids(rows)[k] == id;
      assert items[k] in multiset(ranked);
    }
    RankedDistinct(rows);
  }

  /** No ticket comes twice in the ranking. */
  lemma RankedDistinct(rows: seq<Candidate>)
    ensures Distinct(Keys(SortDesc(Items(rows))))
  {
    var items := Items(rows);
    var ranked := SortDesc(items);
    SortDescSortedPerm(items);
    IdsDistinct(rows);
    assert Distinct(items) by {
      forall a, b | 0 <= a < b < |items| ensures items[a] != items[b] {
        assert items[a].1 == Ids(rows)[a];
      }
    }
    forall i, j | 0 <= i < j < |ranked| ensures ranked[i].1 != ranked[j].1 {
      if ranked[i].1 == ranked[j].1 {
        assert ranked[i] in multiset(items) && ranked[j] in multiset(items);
        DistinctPerm(ranked, items);
        assert false;
      }
    }
  }

  /** What stage 1 returns: as many tickets as the slice `[:top_tickets]`
      keeps of the distinct tickets (for a non-negative `top_tickets`, the
      smaller of the two), no ticket twice, and only tickets some row
      carries. */
  lemma TopTicketIdsSpec(rows: seq<Candidate>, topTickets: int)
    ensures |TopTicketIds(rows, topTickets)| == SliceEnd(topTickets, |Ids(rows)|)
    ensures topTickets >= 0 ==> |TopTicketIds(rows, topTickets)| == if topTickets < |Ids(rows)| then topTickets else |Ids(rows)|
    ensures Distinct(TopTicketIds(rows, topTickets))
    ensures forall id :: id in TopTicketIds(rows, topTickets) ==> id in Ids(rows)
  {
    var ranked := SortDesc(Items(rows));
    RankedItems(rows);
    var r := TopTicketIds(rows, topTickets);
    assert forall k :: 0 <= k < |r| ==> r[k] == ranked[k].1;
    assert Distinct(r) by {
      forall i, j | 0 <= i < j < |r| ensures r[i] != r[j] {
        assert Keys(ranked)[i] == r[i] && Keys(ranked)[j] == r[j];
      }
    }
  }

  /** The tickets stage 1 returns come in non-increasing order of summed
      score, and no ticket left out scores more than one that is kept. */
  lemma TopTicketIdsBest(rows: seq<Candidate>, topTickets: int)
    ensures forall i, j :: 0 <= i < j < |TopTicketIds(rows, topTickets)| ==>
              Total(rows, TopTicketIds(rows, topTickets)[i]) >= Total(rows, TopTicketIds(rows, topTickets)[j])
    ensures forall id, i :: id in Ids(rows) && id !in TopTicketIds(rows, topTickets) && 0 <= i < |TopTicketIds(rows, topTickets)| ==>
              Total(rows, TopTicketIds(rows, topTickets)[i]) >= Total(rows, id)
  {
    var ranked := SortDesc(Items(rows));
    RankedItems(rows);
    var n := SliceEnd(topTickets, |ranked|);
    var r := TopTicketIds(rows, topTickets);
    assert forall k :: 0 <= k < |r| ==> r[k] == ranked[k].1;
    forall i, j | 0 <= i < j < |r| ensures Total(rows, r[i]) >= Total(rows, r[j]) {
      assert ranked[i].0 >= ranked[j].0;
    }
    forall id, i | id in Ids(rows) && id !in r && 0 <= i < |r| ensures Total(rows, r[i]) >= Total(rows, id) {
      var k :| 0 <= k < |ranked| && ranked[k] == (Total(rows, id), id);
      if k < n {
        assert false;
      }
      assert ranked[i].0 >= ranked[k].0;
    }
  }

  /** Tickets with equal sums keep the order in which they first appear
      among the rows. */
  lemma TopTicketIdsTieOrder(rows: seq<Candidate>, topTickets: int, i: nat, j: nat) returns (p: nat, q: nat)
    requires i < j < |TopTicketIds(rows, topTickets)|
    requires Total(rows, TopTicketIds(rows, topTickets)[i]) == Total(rows, TopTicketIds(rows, topTickets)[j])
    ensures p < q < |Ids(rows)|
    ensures Ids(rows)[p] == TopTicketIds(rows, topTickets)[i]
    ensures Ids(rows)[q] == TopTicketIds(rows, topTickets)[j]
  {
    var items := Items(rows);
    var ranked := SortDesc(items);
    RankedItems(rows);
    var r := TopTicketIds(rows, topTickets);
    assert r[i] == ranked[i].1 && r[j] == ranked[j].1;
    p, q := SortDescTieOrder(items, i, j);
  }

  /** At the `top_tickets` cut, a ticket left out with the same sum as a
      kept one first appears among the rows after it: ties are settled by
      first appearance, not arbitrarily. */
  lemma TopTicketIdsTieCut(rows: seq<Candidate>, topTickets: int, i: nat, id: int) returns (p: nat, q: nat)
    requires i < |TopTicketIds(rows, topTickets)|
    requires id in Ids(rows) && id !in TopTicketIds(rows, topTickets)
    requires Total(rows, TopTicketIds(rows, topTickets)[i]) == Total(rows, id)
    ensures p < q < |Ids(rows)|
    ensures Ids(rows)[p] == TopTicketIds(rows, topTickets)[i]
    ensures Ids(rows)[q] == id
  {
    var items := Items(rows);
    var ranked := SortDesc(items);
    RankedItems(rows);
    var n := SliceEnd(topTickets, |ranked|);
    var r := TopTicketIds(rows, topTickets);
    assert forall k :: 0 <= k < |r| ==> r[k] == ranked[k].1;
    var k :| 0 <= k < |ranked| && ranked[k] == (Total(rows, id), id);
    if k < n {
      assert false;
    }
    p, q := SortDescTieOrder(items, i, k);
  }

  /** Two tickets with the same sum and `top_tickets = 1`: the one whose
      row comes first is kept. */
  lemma ExampleTieFirstAppearance()
    ensures TopTicketIds([(0.5, Some(1)), (0.5, Some(2))], 1) == [1]
  {
    var rows: seq<Candidate> := [(0.5, Some(1)), (0.5, Some(2))];
    assert rows[..1][..0] == [];
    assert rows[..1] == rows[..|rows| - 1];
    assert Ids(rows[..1]) == [1];
    assert Ids(rows) == [1, 2];
    assert Total(rows[..1], 1) == 0.5;
    assert Total(rows, 1) == 0.5;
    assert Total(rows[..1], 2) == 0.0;
    assert Total(rows, 2) == 0.5;
    var items := Items(rows);
    assert items == [(0.5, 1), (0.5, 2)];
    assert items[1..] == [(0.5, 2)] && items[1..][1..] == [];
    assert SortDesc(items[1..]) == [(0.5, 2)];
    assert SortDesc(items) == [(0.5, 1), (0.5, 2)];
  }

  /** Two rows of ticket 1 (0.9 and 0.8) outweigh one better row of
      ticket 2 (0.85): with `top_tickets = 1` the answer is ticket 1. */
  lemma ExampleSumBeatsBest()
    ensures TopTicketIds([(0.9, Some(1)), (0.8, Some(1)), (0.85, Some(2))], 1) == [1]
  {
    var rows: seq<Candidate> := [(0.9, Some(1)), (0.8, Some(1)), (0.85, Some(2))];
    assert rows[..2][..1] == rows[..1] && rows[..1][..0] == [];
    assert rows[..2] == rows[..|rows| - 1];
    assert Ids(rows[..1]) == [1];
    assert Ids(rows[..2]) == [1];
    assert Ids(rows) == [1, 2];
    assert Total(rows[..1], 1) == 0.9;
    assert Total(rows[..2], 1) == 1.7;
    assert Total(rows, 1) == 1.7;
    assert Total(rows[..1], 2) == 0.0;
    assert Total(rows[..2], 2) == 0.0;
    assert Total(rows, 2) == 0.85;
    var items := Items(rows);
    assert items == [(1.7, 1), (0.85, 2)];
    assert items[1..] == [(0.85, 2)] && items[1..][1..] == [];
    assert SortDesc(items[1..]) == [(0.85, 2)];
    assert SortDesc(items) == [(1.7, 1), (0.85, 2)];
  }

  // ---------------------------------------------------------------------
  // Stage 2: ranking the chunks of one ticket

  /** `rows.sort(key=lambda r: float(r[0]), reverse=True)`: Python's
      stable sort in place. */
  method SortRows(a: array<ScoredChunk>)
    modifies a
    ensures a[..] == SortDesc(old(a[..]))
  {
    var sorted := SortDesc(a[..]);
    SortDescSortedPerm(a[..]);
    forall k | 0 <= k < a.Length {
      a[k] := sorted[k];
    }
  }

  /** The ranking part of `retrieve_chunks_for_ticket`: the fetched rows,
      sorted in place, best score first, with equal scores in the order
      they were fetched. */
  method RetrieveChunksForTicket(fetched: seq<ScoredChunk>) returns (ranked: seq<ScoredChunk>)
    ensures ranked == SortDesc(fetched)
    ensures SortedDesc(ranked)
    ensures multiset(ranked) == multiset(fetched)
    ensures forall v :: WithScore(v, ranked) == WithScore(v, fetched)
  {
    var a := new ScoredChunk[|fetched|](k requires 0 <= k < |fetched| => fetched[k]);
    assert a[..] == fetched;
    SortRows(a);
    ranked := a[..];
    SortDescSortedPerm(fetched);
    forall v ensures WithScore(v, ranked) == WithScore(v, fetched) {
      SortDescStable(v, fetched);
    }
  }

  /** Scores 1.0, 0.5 and 0.2 (distances 0, 1 and 4) come back in that
      order whatever order they were fetched in. */
  lemma ExampleStageTwo()
    ensures SortDesc([(0.5, "b"), (0.2, "c"), (1.0, "a")]) == [(1.0, "a"), (0.5, "b"), (0.2, "c")]
  {
    var s: seq<ScoredChunk> := [(0.5, "b"), (0.2, "c"), (1.0, "a")];
    assert s[1..] == [(0.2, "c"), (1.0, "a")];
    assert s[1..][1..] == [(1.0, "a")];
    assert SortDesc(s[1..][1..]) == [(1.0, "a")];
    assert InsertDesc((0.2, "c"), [(1.0, "a")]) == [(1.0, "a")] + InsertDesc((0.2, "c"), []);
    assert SortDesc(s[1..]) == [(1.0, "a"), (0.2, "c")];
    assert InsertDesc((0.5, "b"), [(1.0, "a"), (0.2, "c")]) == [(1.0, "a")] + InsertDesc((0.5, "b"), [(0.2, "c")]);
  }
}
