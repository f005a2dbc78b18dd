// Python's stable descending sort of scored pairs:
// `sorted(pairs, key=score, reverse=True)` and `rows.sort(key=score,
// reverse=True)`.  Python keeps equal keys in their original order even
// with `reverse=True`, so the model is an insertion sort that places each
// pair before the first pair whose score is not larger.  Scores are
// `real`: the model does not follow floating-point rounding.

module StableSort {

  /** Non-increasing by score. */
  predicate SortedDesc<T>(s: seq<(real, T)>) {
    forall i, j :: 0 <= i < j < |s| ==> s[i].0 >= s[j].0
  }

  /** The pairs of `s` whose score is `v`, in their order in `s`. */
  function WithScore<T>(v: real, s: seq<(real, T)>): (r: seq<(real, T)>)
    ensures |r| <= |s|
    ensures forall k :: 0 <= k < |r| ==> r[k].0 == v
  {
    if s == [] then []
    else (if s[0].0 == v then [s[0]] else []) + WithScore(v, s[1..])
  }

  /** Insert `x` before the first pair whose score is at most its own. */
  function InsertDesc<T>(x: (real, T), s: seq<(real, T)>): seq<(real, T)> {
    if s == [] || s[0].0 <= x.0 then [x] + s
    else [s[0]] + InsertDesc(x, s[1..])
  }

  /** The sorted order of `s`: non-increasing by score, equal scores in
      their original order. */
  function SortDesc<T>(s: seq<(real, T)>): seq<(real, T)> {
    if s == [] then [] else InsertDesc(s[0], SortDesc(s[1..]))
  }

  /** Inserting keeps every score at most `m` when `x`'s is. */
  lemma {:induction false} InsertDescBounded<T>(x: (real, T), s: seq<(real, T)>, m: real)
    requires x.0 <= m && forall k :: 0 <= k < |s| ==> s[k].0 <= m
    ensures forall k :: 0 <= k < |InsertDesc(x, s)| ==> InsertDesc(x, s)[k].0 <= m
    decreases |s|
  {
    if s != [] && s[0].0 > x.0 {
      InsertDescBounded(x, s[1..], m);
    }
  }

  lemma {:induction false} InsertDescSorted<T>(x: (real, T), s: seq<(real, T)>)
    requires SortedDesc(s)
    ensures SortedDesc(InsertDesc(x, s))
    decreases |s|
  {
    if s != [] && s[0].0 > x.0 {
      SortedTail(s);
      InsertDescSorted(x, s[1..]);
      InsertDescBounded(x, s[1..], s[0].0);
    }
  }

  lemma {:induction false} InsertDescPerm<T>(x: (real, T), s: seq<(real, T)>)
    ensures multiset(InsertDesc(x, s)) == multiset(s) + multiset{x}
    decreases |s|
  {
    if s != [] && s[0].0 > x.0 {
      InsertDescPerm(x, s[1..]);
      assert s == [s[0]] + s[1..];
    }
  }

  /** Taking the pairs of one score commutes with inserting `x`: the
      pairs inserted before `x` all score more than `x`. */
  lemma {:induction false} InsertDescWithScore<T>(v: real, x: (real, T), s: seq<(real, T)>)
    ensures WithScore(v, InsertDesc(x, s)) == (if x.0 == v then [x] else []) + WithScore(v, s)
    decreases |s|
  {
    if s != [] && s[0].0 > x.0 {
      InsertDescWithScore(v, x, s[1..]);
      assert ([s[0]] + InsertDesc(x, s[1..]))[1..] == InsertDesc(x, s[1..]);
    } else {
      assert ([x] + s)[1..] == s;
    }
  }

  /** The sort is non-increasing and a permutation of its input. */
  lemma {:induction false} SortDescSortedPerm<T>(s: seq<(real, T)>)
    ensures SortedDesc(SortDesc(s))
    ensures multiset(SortDesc(s)) == multiset(s)
    ensures |SortDesc(s)| == |s|
    decreases |s|
  {
    if s != [] {
      SortDescSortedPerm(s[1..]);
      InsertDescSorted(s[0], SortDesc(s[1..]));
      InsertDescPerm(s[0], SortDesc(s[1..]));
      assert s == [s[0]] + s[1..];
    }
  }

  /** The sort is stable: the pairs of any one score keep their order. */
  lemma {:induction false} SortDescStable<T>(v: real, s: seq<(real, T)>)
    ensures WithScore(v, SortDesc(s)) == WithScore(v, s)
    decreases |s|
  {
    if s != [] {
      SortDescStable(v, s[1..]);
      InsertDescWithScore(v, s[0], SortDesc(s[1..]));
    }
  }

  /** A sequence is determined by its sortedness, its multiset and its
      per-score order: any stable descending sort of `s` is `SortDesc(s)`. */
  lemma {:induction false} SortDescUnique<T>(s: seq<(real, T)>, t: seq<(real, T)>)
    requires SortedDesc(t) && multiset(t) == multiset(s)
    requires forall v :: WithScore(v, t) == WithScore(v, s)
    ensures t == SortDesc(s)
  {
    SortDescSortedPerm(s);
    var u := SortDesc(s);
    forall v ensures WithScore(v, t) == WithScore(v, u) {
      SortDescStable(v, s);
    }
    SortedSameScoresEqual(t, u);
  }

  /** Two non-increasing sequences with the same pairs of each score are
      equal. */
  lemma {:induction false} SortedSameScoresEqual<T>(t: seq<(real, T)>, u: seq<(real, T)>)
    requires SortedDesc(t) && SortedDesc(u)
    requires forall v :: WithScore(v, t) == WithScore(v, u)
    ensures t == u
    decreases |t| + |u|
  {
    if t == [] || u == [] {
      if t != [] {
        HeadScoreOccurs(t);
        assert false;
      } else if u != [] {
        HeadScoreOccurs(u);
        assert false;
      }
    } else {
      // Both start with their largest score, which must be the same.
      var a, b := t[0].0, u[0].0;
      if a != b {
        if a > b {
          ScoreAbsentBelow(a, u);
          assert false;
        } else {
          ScoreAbsentBelow(b, t);
          assert false;
        }
      }
      assert t[0] == WithScore(a, t)[0] == WithScore(a, u)[0] == u[0];
      forall v ensures WithScore(v, t[1..]) == WithScore(v, u[1..]) {
        SameHeadTails(v, t, u);
      }
      SortedTail(t);
      SortedTail(u);
      SortedSameScoresEqual(t[1..], u[1..]);
      assert t == [t[0]] + t[1..] && u == [u[0]] + u[1..];
    }
  }

  /** Dropping a common first pair keeps the pairs of each score equal. */
  lemma SameHeadTails<T>(v: real, t: seq<(real, T)>, u: seq<(real, T)>)
    requires t != [] && u != [] && t[0] == u[0] && WithScore(v, t) == WithScore(v, u)
    ensures WithScore(v, t[1..]) == WithScore(v, u[1..])
  {
    var pre := if t[0].0 == v then [t[0]] else [];
    assert WithScore(v, t) == pre + WithScore(v, t[1..]);
    assert WithScore(v, u) == pre + WithScore(v, u[1..]);
    assert WithScore(v, t[1..]) == WithScore(v, t)[|pre|..];
    assert WithScore(v, u[1..]) == WithScore(v, u)[|pre|..];
  }

  lemma HeadScoreOccurs<T>(t: seq<(real, T)>)
    requires t != []
    ensures WithScore(t[0].0, t) != []
  {
  }

  lemma SortedTail<T>(t: seq<(real, T)>)
    requires SortedDesc(t) && t != []
    ensures SortedDesc(t[1..])
  {
    assert forall i :: 0 <= i < |t| - 1 ==> t[1..][i] == t[i + 1];
  }

  /** A score above the first score of a non-increasing sequence occurs
      nowhere in it. */
  lemma {:induction false} ScoreAbsentBelow<T>(v: real, u: seq<(real, T)>)
    requires SortedDesc(u) && u != [] && v > u[0].0
    ensures WithScore(v, u) == []
    decreases |u|
  {
    if |u| > 1 {
      SortedTail(u);
      ScoreAbsentBelow(v, u[1..]);
    }
  }

  // ---------------------------------------------------------------------
  // Equal scores keep the order of their positions

  lemma {:induction false} WithScoreConcat<T>(v: real, a: seq<(real, T)>, b: seq<(real, T)>)
    ensures WithScore(v, a + b) == WithScore(v, a) + WithScore(v, b)
    decreases |a|
  {
    if a != [] {
      WithScoreConcat(v, a[1..], b);
      assert (a + b)[1..] == a[1..] + b;
    } else {
      assert a + b == b;
    }
  }

  /** Pair `i` of `s`, when it scores `v`, sits in `WithScore(v, s)` at
      the number of pairs scoring `v` before it. */
  lemma WithScoreAt<T>(v: real, s: seq<(real, T)>, i: nat)
    requires i < |s| && s[i].0 == v
    ensures |WithScore(v, s[..i])| < |WithScore(v, s)|
    ensures WithScore(v, s)[|WithScore(v, s[..i])|] == s[i]
  {
    assert s == s[..i] + s[i..];
    WithScoreConcat(v, s[..i], s[i..]);
    assert WithScore(v, s[i..]) == [s[i]] + WithScore(v, s[i..][1..]);
  }

  /** The number of pairs scoring `v` before position `i` grows with `i`,
      strictly past a pair scoring `v`. */
  lemma WithScoreBeforeGrows<T>(v: real, s: seq<(real, T)>, i: nat, j: nat)
    requires i <= j <= |s|
    ensures |WithScore(v, s[..i])| <= |WithScore(v, s[..j])|
    ensures i < j && s[i].0 == v ==> |WithScore(v, s[..i])| < |WithScore(v, s[..j])|
  {
    assert s[..j] == s[..i] + s[i..j];
    WithScoreConcat(v, s[..i], s[i..j]);
    if i < j && s[i].0 == v {
      assert WithScore(v, s[i..j]) == [s[i]] + WithScore(v, s[i..j][1..]);
    }
  }

  /** Every entry of `WithScore(v, s)` comes from a position of `s`. */
  lemma {:induction false} WithScoreOrigin<T>(v: real, s: seq<(real, T)>, a: nat) returns (p: nat)
    requires a < |WithScore(v, s)|
    ensures p < |s| && s[p].0 == v && |WithScore(v, s[..p])| == a
    decreases |s|
  {
    var pre := if s[0].0 == v then [s[0]] else [];
    assert WithScore(v, s) == pre + WithScore(v, s[1..]);
    if s[0].0 == v && a == 0 {
      p := 0;
      assert s[..0] == [];
    } else {
      var p' := WithScoreOrigin(v, s[1..], a - |pre|);
      p := p' + 1;
      assert s[..p] == [s[0]] + s[1..][..p'];
      WithScoreConcat(v, [s[0]], s[1..][..p']);
    }
  }

  /** Stability stated on positions: two pairs of equal score come out of
      the sort in the order of their positions in the input. */
  lemma SortDescTieOrder<T>(s: seq<(real, T)>, i: nat, j: nat) returns (p: nat, q: nat)
    requires i < j < |SortDesc(s)| && SortDesc(s)[i].0 == SortDesc(s)[j].0
    ensures p < q < |s|
    ensures s[p] == SortDesc(s)[i] && s[q] == SortDesc(s)[j]
  {
    var t := SortDesc(s);
    var v := t[i].0;
    SortDescStable(v, s);
    WithScoreAt(v, t, i);
    WithScoreAt(v, t, j);
    WithScoreBeforeGrows(v, t, i, j);
    var a, b := |WithScore(v, t[..i])|, |WithScore(v, t[..j])|;
    p := WithScoreOrigin(v, s, a);
    q := WithScoreOrigin(v, s, b);
    WithScoreAt(v, s, p);
    WithScoreAt(v, s, q);
    if q <= p {
      WithScoreBeforeGrows(v, s, q, p);
    }
  }
}
