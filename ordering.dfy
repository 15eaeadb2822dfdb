/** The descending sort of `nms` (`torch.sort(scores, descending=True)`),
    seen through the index order it returns. `torch.sort` does not fix how
    equal scores are ordered, so `nms` is specified over every order that
    `IsSortOrder` admits and `SortByScore` is one such order. */
module Ordering {

  /** 0, 1, ..., n - 1. */
  function Range(n: nat): (r: seq<nat>)
    ensures |r| == n
    ensures forall k :: 0 <= k < n ==> r[k] == k
  {
    if n == 0 then [] else Range(n - 1) + [n - 1]
  }

  /** No index occurs twice. */
  predicate Distinct(xs: seq<nat>)
  {
    forall p, q :: 0 <= p < q < |xs| ==> xs[p] != xs[q]
  }

  /** Every index names a score. */
  predicate InRange(xs: seq<nat>, n: nat)
  {
    forall k :: 0 <= k < |xs| ==> xs[k] < n
  }

  /** Indices of `scores` whose scores do not increase along the sequence. */
  predicate ScoreOrdered(xs: seq<nat>, scores: seq<real>)
  {
    && InRange(xs, |scores|)
    && forall p, q :: 0 <= p < q < |xs| ==> scores[xs[p]] >= scores[xs[q]]
  }

  /** What `torch.sort(scores, descending=True)` may return as `indices`:
      each index of `scores` exactly once, scores non-increasing. */
  predicate IsSortOrder(order: seq<nat>, scores: seq<real>)
  {
    && |order| == |scores|
    && Distinct(order)
    && ScoreOrdered(order, scores)
    && forall u :: 0 <= u < |scores| ==> u in order
  }

  /** Inserts x before the first index of a strictly smaller score. */
  function InsertByScore(x: nat, xs: seq<nat>, scores: seq<real>): (r: seq<nat>)
    requires x < |scores| && InRange(xs, |scores|)
    ensures |r| == |xs| + 1
    ensures multiset(r) == multiset(xs) + multiset{x}
  {
    if xs == [] then [x]
    else if scores[x] > scores[xs[0]] then [x] + xs
    else
      assert xs == [xs[0]] + xs[1..];
      [xs[0]] + InsertByScore(x, xs[1..], scores)
  }

  /** Insertion keeps a descending order descending. */
  lemma {:induction false} InsertKeepsOrder(x: nat, xs: seq<nat>, scores: seq<real>)
    requires x < |scores| && ScoreOrdered(xs, scores)
    ensures ScoreOrdered(InsertByScore(x, xs, scores), scores)
  {
    if xs != [] {
      if scores[x] > scores[xs[0]] {
        assert forall k :: 0 <= k < |xs| ==> scores[x] >= scores[xs[k]] by {
          assert forall k :: 0 <= k < |xs| ==> scores[xs[0]] >= scores[xs[k]];
        }
        ConsOrdered(x, xs, scores);
      } else {
        var tail := InsertByScore(x, xs[1..], scores);
        InsertKeepsOrder(x, xs[1..], scores);
        assert forall k :: 0 <= k < |tail| ==> scores[xs[0]] >= scores[tail[k]] by {
          forall k | 0 <= k < |tail|
            ensures scores[xs[0]] >= scores[tail[k]]
          {
            assert tail[k] in multiset(xs[1..]) + multiset{x} by {
              assert tail[k] in multiset(tail);
            }
            if tail[k] != x {
              var q :| 0 <= q < |xs[1..]| && xs[1..][q] == tail[k];
              assert xs[q + 1] == tail[k];
            }
          }
        }
        ConsOrdered(xs[0], tail, scores);
        assert InsertByScore(x, xs, scores) == [xs[0]] + tail;
      }
    }
  }

  /** An index whose score dominates a descending sequence can lead it. */
  lemma ConsOrdered(h: nat, xs: seq<nat>, scores: seq<real>)
    requires h < |scores| && ScoreOrdered(xs, scores)
    requires forall k :: 0 <= k < |xs| ==> scores[h] >= scores[xs[k]]
    ensures ScoreOrdered([h] + xs, scores)
  {
    var r := [h] + xs;
    forall p, q | 0 <= p < q < |r|
      ensures scores[r[p]] >= scores[r[q]]
    {
      assert r[q] == xs[q - 1];
      if p > 0 {
        assert r[p] == xs[p - 1];
      }
    }
  }

  /** Insertion of a new index keeps the indices distinct. */
  lemma {:induction false} InsertKeepsDistinct(x: nat, xs: seq<nat>, scores: seq<real>)
    requires x < |scores| && InRange(xs, |scores|) && x !in xs && Distinct(xs)
    ensures Distinct(InsertByScore(x, xs, scores))
  {
    if xs != [] && scores[x] <= scores[xs[0]] {
      var tail := InsertByScore(x, xs[1..], scores);
      InsertKeepsDistinct(x, xs[1..], scores);
      assert xs == [xs[0]] + xs[1..];
      assert xs[0] !in multiset(tail) by {
        assert xs[0] !in xs[1..];
      }
    }
  }

  /** The indices 0 .. n - 1 of `scores`, in descending score order. */
  function SortPrefix(n: nat, scores: seq<real>): (r: seq<nat>)
    requires n <= |scores|
    ensures |r| == n && Distinct(r) && ScoreOrdered(r, scores)
    ensures multiset(r) == multiset(Range(n))
  {
    if n == 0 then []
    else
      var prev := SortPrefix(n - 1, scores);
      assert n - 1 !in prev by {
        assert n - 1 !in multiset(Range(n - 1));
      }
      InsertKeepsOrder(n - 1, prev, scores);
      InsertKeepsDistinct(n - 1, prev, scores);
      InsertByScore(n - 1, prev, scores)
  }

  /** A sort order of `scores`: the insertion sort of all its indices. */
  function SortByScore(scores: seq<real>): (order: seq<nat>)
    ensures IsSortOrder(order, scores)
  {
    var order := SortPrefix(|scores|, scores);
    assert forall u :: 0 <= u < |scores| ==> u in order by {
      forall u | 0 <= u < |scores| ensures u in order {
        assert Range(|scores|)[u] == u;
        assert u in multiset(Range(|scores|));
      }
    }
    order
  }

  /** The first index of a sort order has the largest score. */
  lemma SortOrderHeadIsMax(order: seq<nat>, scores: seq<real>)
    requires IsSortOrder(order, scores)
    ensures forall u :: 0 <= u < |scores| ==> scores[order[0]] >= scores[u]
  {
    forall u | 0 <= u < |scores|
      ensures scores[order[0]] >= scores[u]
    {
      assert u in order;
      var q :| 0 <= q < |order| && order[q] == u;
      if q > 0 {
        assert scores[order[0]] >= scores[order[q]];
      }
    }
  }

  /** With pairwise different scores there is only one sort order. */
  lemma SortOrderUnique(o1: seq<nat>, o2: seq<nat>, scores: seq<real>)
    requires IsSortOrder(o1, scores) && IsSortOrder(o2, scores)
    requires forall u, v :: 0 <= u < v < |scores| ==> scores[u] != scores[v]
    ensures o1 == o2
  {
    PrefixesAgree(o1, o2, scores, |o1|);
    assert o1 == o1[..|o1|] && o2 == o2[..|o2|];
  }

  /** Two sort orders of pairwise different scores agree on every prefix. */
  lemma {:induction false} PrefixesAgree(o1: seq<nat>, o2: seq<nat>, scores: seq<real>, k: nat)
    requires IsSortOrder(o1, scores) && IsSortOrder(o2, scores) && k <= |scores|
    requires forall u, v :: 0 <= u < v < |scores| ==> scores[u] != scores[v]
    ensures o1[..k] == o2[..k]
  {
    if k > 0 {
      var j := k - 1;
      PrefixesAgree(o1, o2, scores, j);
      LargerInPrefix(o1, scores, j);
      LargerInPrefix(o2, scores, j);
      var x, y := o1[j], o2[j];
      if scores[x] > scores[y] {
        assert x in o1[..j];
        NotInOwnPrefix(o1, j);
      } else if scores[y] > scores[x] {
        assert y in o2[..j];
        NotInOwnPrefix(o2, j);
      } else {
        assert x == y;
      }
      assert o1[..k] == o1[..j] + [x] && o2[..k] == o2[..j] + [y];
    }
  }

  /** In a sort order, an index with a larger score than position k's comes
      before position k. */
  lemma LargerInPrefix(order: seq<nat>, scores: seq<real>, k: nat)
    requires IsSortOrder(order, scores) && k < |order|
    ensures forall u :: 0 <= u < |scores| && scores[u] > scores[order[k]] ==> u in order[..k]
  {
    forall u | 0 <= u < |scores| && scores[u] > scores[order[k]]
      ensures u in order[..k]
    {
      assert u in order;
      var q :| 0 <= q < |order| && order[q] == u;
      assert q < k;
      assert order[..k][q] == u;
    }
  }

  /** A distinct sequence does not repeat position k before it. */
  lemma NotInOwnPrefix(xs: seq<nat>, k: nat)
    requires Distinct(xs) && k < |xs|
    ensures xs[k] !in xs[..k]
  {
  }
}
