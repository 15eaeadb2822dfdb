/** Greedy non-maximum suppression, `nms` of utils.py lines 127-168.

    `Greedy` is the selection that the loop of lines 145-166 makes from a
    given order of candidate indices under a relation `keep(idx, r)` ("r
    survives suppression by idx"); `nms` uses the relation `Below(boxes, t)`,
    iou below the threshold. `Suppress` is the source's imperative loop,
    proved equal to `Greedy`; `Nms` adds the entry checks and the sort, and
    its result is `Greedy` of a descending sort order of the scores. */
module Suppression {
  import opened Wrappers
  import opened Geometry
  import opened Ordering

  /** The two `assert`s of `nms` that can fail. */
  datatype NmsError =
    | LengthMismatch   // line 128: len(boxes) != len(scores)
    | NonPositiveArea  // line 138: some (x2 - x1) * (y2 - y1) <= 0

  /** The guard of line 138 holds for every box. */
  predicate AllPositive(boxes: seq<Box>)
  {
    forall k :: 0 <= k < |boxes| ==> PositiveArea(boxes[k])
  }

  /** Every two different selected boxes overlap with iou below t. */
  predicate Separated(sel: seq<nat>, boxes: seq<Box>, t: real)
  {
    forall p, q ::
      (0 <= p < |sel| && 0 <= q < |sel| && p != q && sel[p] < |boxes| && sel[q] < |boxes| &&
       PositiveArea(boxes[sel[p]]) && PositiveArea(boxes[sel[q]])) ==>
      Iou(boxes[sel[p]], boxes[sel[q]]) < t
  }

  /** Every index of a box that is not selected has iou at least t with a
      selected box of at least its score. */
  ghost predicate Covered(sel: seq<nat>, boxes: seq<Box>, scores: seq<real>, t: real)
  {
    forall u :: 0 <= u < |boxes| && u < |scores| && u !in sel && PositiveArea(boxes[u]) ==>
      exists s :: s in sel && s < |boxes| && s < |scores| && PositiveArea(boxes[s]) &&
        scores[s] >= scores[u] && Iou(boxes[s], boxes[u]) >= t
  }

  /** What the source promises of the indices `nms` returns: distinct
      indices of boxes, in non-increasing score order, led by a maximal
      score, at most N of them and at most `max(1, max_output_size)`,
      pairwise below the threshold, and, without an explicit budget,
      covering every index left out. */
  ghost predicate NmsOutput(sel: seq<nat>, boxes: seq<Box>, scores: seq<real>, t: real, maxOutputSize: Option<int>)
  {
    && Distinct(sel) && ScoreOrdered(sel, scores) && |sel| <= |scores|
    && (|scores| > 0 ==> |sel| >= 1 && forall u :: 0 <= u < |scores| ==> scores[sel[0]] >= scores[u])
    && (maxOutputSize.Some? ==> |sel| <= 1 || |sel| <= maxOutputSize.value)
    && Separated(sel, boxes, t)
    && (maxOutputSize.None? ==> Covered(sel, boxes, scores, t))
  }

  /** The iou of `nms` (lines 154-159): the intersection from the clamped
      corner differences, over area[idx] + area[r] - ins. It agrees with
      `iou` of lines 31-48 and lies in [0, 1]. */
  function PairIou(b: Box, r: Box): (v: real)
    requires PositiveArea(b) && PositiveArea(r)
    ensures v == Iou(b, r)
    ensures 0.0 <= v <= 1.0
  {
    IntersectionSymmetric(b, r);
    IouBounds(b, r);
    var ins := Intersection(r, b);
    ins / (Area(b) + Area(r) - ins)
  }

  /** `keep(i, j)` holds of two boxes of positive area exactly when their
      iou is below t. */
  ghost predicate IouBelow(keep: (nat, nat) -> bool, boxes: seq<Box>, t: real)
  {
    forall i: nat, j: nat ::
      (i < |boxes| && j < |boxes| && PositiveArea(boxes[i]) && PositiveArea(boxes[j])) ==>
      (keep(i, j) <==> Iou(boxes[i], boxes[j]) < t)
  }

  /** The comparison `iou < iou_threshold` of line 160, as a relation on
      the indices of `boxes`. */
  function Below(boxes: seq<Box>, t: real): (keep: (nat, nat) -> bool)
    ensures IouBelow(keep, boxes, t)
  {
    (i: nat, j: nat) =>
      i < |boxes| && j < |boxes| && PositiveArea(boxes[i]) && PositiveArea(boxes[j]) &&
      PairIou(boxes[i], boxes[j]) < t
  }

  /** `keep_mask` (lines 154-160): one entry per remaining index. */
  function KeepMask(idx: nat, remain: seq<nat>, keep: (nat, nat) -> bool): (mask: seq<bool>)
    ensures |mask| == |remain|
    ensures forall k :: 0 <= k < |remain| ==> mask[k] == keep(idx, remain[k])
  {
    seq(|remain|, k requires 0 <= k < |remain| => keep(idx, remain[k]))
  }

  /** `torch.sum(keep_mask)` (line 163). */
  function CountTrue(mask: seq<bool>): (n: nat)
    ensures n <= |mask|
    ensures n == 0 <==> forall k :: 0 <= k < |mask| ==> !mask[k]
  {
    if mask == [] then 0
    else
      var n := CountTrue(mask[1..]);
      assert forall k :: 1 <= k < |mask| ==> mask[k] == mask[1..][k - 1];
      (if mask[0] then 1 else 0) + n
  }

  /** `remain_idx[keep_mask]` (line 161): the masked entries, in order. */
  function Select(xs: seq<nat>, mask: seq<bool>): (r: seq<nat>)
    requires |xs| == |mask|
    ensures |r| == CountTrue(mask)
  {
    if xs == [] then [] else (if mask[0] then [xs[0]] else []) + Select(xs[1..], mask[1..])
  }

  /** The indices of `remain` that survive suppression by `idx`, in order. */
  function Survivors(idx: nat, remain: seq<nat>, keep: (nat, nat) -> bool): (r: seq<nat>)
    ensures |r| <= |remain|
  {
    if remain == [] then []
    else (if keep(idx, remain[0]) then [remain[0]] else []) + Survivors(idx, remain[1..], keep)
  }

  /** Lines 154-161 compute the survivors: masking with `keep_mask` keeps
      exactly the entries `keep` keeps. */
  lemma {:induction false} MaskedAreSurvivors(idx: nat, remain: seq<nat>, keep: (nat, nat) -> bool)
    ensures Select(remain, KeepMask(idx, remain, keep)) == Survivors(idx, remain, keep)
    decreases |remain|
  {
    if remain != [] {
      var mask := KeepMask(idx, remain, keep);
      assert mask[1..] == KeepMask(idx, remain[1..], keep);
      MaskedAreSurvivors(idx, remain[1..], keep);
    }
  }

  /** A survivor is a remaining index that `keep` keeps, and conversely. */
  lemma {:induction false} SurvivorsMembers(idx: nat, remain: seq<nat>, keep: (nat, nat) -> bool)
    ensures forall y :: y in Survivors(idx, remain, keep) <==> y in remain && keep(idx, y)
    decreases |remain|
  {
    if remain != [] {
      SurvivorsMembers(idx, remain[1..], keep);
      assert remain == [remain[0]] + remain[1..];
    }
  }

  /** The loop of lines 145-166 run from the candidate order `indices` with
      `budget` outputs left: take the head, stop when nothing remains after
      it (line 151), when suppression leaves nothing (line 163) or when the
      budget is used up (line 165), otherwise go on with the survivors. */
  function Greedy(indices: seq<nat>, keep: (nat, nat) -> bool, budget: int): (r: seq<nat>)
    ensures |r| <= |indices|
    ensures indices != [] ==> |r| >= 1 && r[0] == indices[0]
    decreases |indices|
  {
    if indices == [] then []
    else
      var idx := indices[0];
      var remain := indices[1..];
      if remain == [] then [idx]
      else
        var rest := Survivors(idx, remain, keep);
        if rest == [] || budget <= 1 then [idx] else [idx] + Greedy(rest, keep, budget - 1)
  }

  /** Greedy selects only candidates. */
  lemma {:induction false} GreedyMembers(indices: seq<nat>, keep: (nat, nat) -> bool, budget: int)
    ensures forall y :: y in Greedy(indices, keep, budget) ==> y in indices
    decreases |indices|
  {
    if |indices| > 1 {
      var idx, remain := indices[0], indices[1..];
      var rest := Survivors(idx, remain, keep);
      if rest != [] && budget > 1 {
        GreedyMembers(rest, keep, budget - 1);
        SurvivorsMembers(idx, remain, keep);
        assert Greedy(indices, keep, budget) == [idx] + Greedy(rest, keep, budget - 1);
        assert indices == [idx] + remain;
      }
    }
  }

  /** s occurs at an earlier position of xs than u. */
  ghost predicate Precedes(xs: seq<nat>, s: nat, u: nat)
  {
    exists p, q :: 0 <= p < q < |xs| && xs[p] == s && xs[q] == u
  }

  /** The break of lines 163-164 is redundant: the mask sums to 0 exactly
      when no index is kept, and then the loop guard of line 145 fails. */
  lemma EmptyMaskMeansNoSurvivors(xs: seq<nat>, mask: seq<bool>)
    requires |xs| == |mask|
    ensures CountTrue(mask) == 0 <==> Select(xs, mask) == []
  {
    assert |Select(xs, mask)| == CountTrue(mask);
  }

  /** Order in the tail of a sequence is order in the sequence. */
  lemma ShiftPrecedes(xs: seq<nat>, s: nat, u: nat)
    requires xs != [] && Precedes(xs[1..], s, u)
    ensures Precedes(xs, s, u)
  {
    var p, q :| 0 <= p < q < |xs[1..]| && xs[1..][p] == s && xs[1..][q] == u;
    assert xs[p + 1] == s && xs[q + 1] == u;
  }

  /** The head of a sequence precedes every later member. */
  lemma HeadPrecedes(xs: seq<nat>, u: nat)
    requires xs != [] && u in xs[1..]
    ensures Precedes(xs, xs[0], u)
  {
    var k :| 0 <= k < |xs[1..]| && xs[1..][k] == u;
    assert xs[k + 1] == u;
  }

  /** A distinct sequence has no index before itself. */
  lemma DistinctNoSelfPrecedes(xs: seq<nat>, s: nat)
    requires Distinct(xs)
    ensures !Precedes(xs, s, s)
  {
  }

  /** Suppression keeps the relative order of the survivors. */
  lemma {:induction false} SurvivorsPrecedes(idx: nat, xs: seq<nat>, keep: (nat, nat) -> bool, s: nat, u: nat)
    requires Precedes(Survivors(idx, xs, keep), s, u)
    ensures Precedes(xs, s, u)
    decreases |xs|
  {
    var r := Survivors(idx, xs, keep);
    var tail := Survivors(idx, xs[1..], keep);
    var p, q :| 0 <= p < q < |r| && r[p] == s && r[q] == u;
    if keep(idx, xs[0]) {
      assert r == [xs[0]] + tail;
      if p == 0 {
        assert tail[q - 1] == u;
        SurvivorsMembers(idx, xs[1..], keep);
        HeadPrecedes(xs, u);
      } else {
        assert tail[p - 1] == s && tail[q - 1] == u;
        SurvivorsPrecedes(idx, xs[1..], keep, s, u);
        ShiftPrecedes(xs, s, u);
      }
    } else {
      assert r == tail;
      SurvivorsPrecedes(idx, xs[1..], keep, s, u);
      ShiftPrecedes(xs, s, u);
    }
  }

  /** Greedy's output lists indices in the order of its input. */
  lemma {:induction false} GreedyPrecedes(indices: seq<nat>, keep: (nat, nat) -> bool, budget: int, s: nat, u: nat)
    requires Precedes(Greedy(indices, keep, budget), s, u)
    ensures Precedes(indices, s, u)
    decreases |indices|
  {
    var r := Greedy(indices, keep, budget);
    var p, q :| 0 <= p < q < |r| && r[p] == s && r[q] == u;
    var idx, remain := indices[0], indices[1..];
    var rest := Survivors(idx, remain, keep);
    var tail := Greedy(rest, keep, budget - 1);
    assert r == [idx] + tail;
    if p == 0 {
      assert tail[q - 1] == u;
      GreedyMembers(rest, keep, budget - 1);
      SurvivorsMembers(idx, remain, keep);
      HeadPrecedes(indices, u);
    } else {
      assert tail[p - 1] == s && tail[q - 1] == u;
      GreedyPrecedes(rest, keep, budget - 1, s, u);
      SurvivorsPrecedes(idx, remain, keep, s, u);
      ShiftPrecedes(indices, s, u);
    }
  }

  /** Distinct candidates give distinct selections. */
  lemma GreedyDistinct(indices: seq<nat>, keep: (nat, nat) -> bool, budget: int)
    requires Distinct(indices)
    ensures Distinct(Greedy(indices, keep, budget))
  {
    var r := Greedy(indices, keep, budget);
    forall p, q | 0 <= p < q < |r|
      ensures r[p] != r[q]
    {
      GreedyPrecedes(indices, keep, budget, r[p], r[q]);
      DistinctNoSelfPrecedes(indices, r[p]);
    }
  }

  /** Candidates in descending score order give selections in descending
      score order. */
  lemma GreedyOrdered(indices: seq<nat>, keep: (nat, nat) -> bool, budget: int, scores: seq<real>)
    requires ScoreOrdered(indices, scores)
    ensures ScoreOrdered(Greedy(indices, keep, budget), scores)
  {
    var r := Greedy(indices, keep, budget);
    GreedyMembers(indices, keep, budget);
    forall k | 0 <= k < |r| ensures r[k] < |scores| {
      assert r[k] in indices;
    }
    forall p, q | 0 <= p < q < |r|
      ensures scores[r[p]] >= scores[r[q]]
    {
      GreedyPrecedes(indices, keep, budget, r[p], r[q]);
    }
  }

  /** The output never exceeds the budget, counting a budget below 1 as 1:
      line 165 is checked only after an index has been appended. */
  lemma {:induction false} GreedyWithinBudget(indices: seq<nat>, keep: (nat, nat) -> bool, budget: int)
    ensures |Greedy(indices, keep, budget)| <= if budget < 1 then 1 else budget
    decreases |indices|
  {
    if |indices| > 1 {
      var rest := Survivors(indices[0], indices[1..], keep);
      if rest != [] && budget > 1 {
        GreedyWithinBudget(rest, keep, budget - 1);
      }
    }
  }

  /** Every index of xs survives every index before it. */
  predicate Pairwise(xs: seq<nat>, keep: (nat, nat) -> bool)
  {
    forall p, q :: 0 <= p < q < |xs| ==> keep(xs[p], xs[q])
  }

  /** Every selected index survives every index selected before it. */
  lemma {:induction false} GreedyNonOverlapping(indices: seq<nat>, keep: (nat, nat) -> bool, budget: int)
    ensures Pairwise(Greedy(indices, keep, budget), keep)
    decreases |indices|
  {
    var r := Greedy(indices, keep, budget);
    if |indices| > 1 {
      var idx, remain := indices[0], indices[1..];
      var rest := Survivors(idx, remain, keep);
      if rest != [] && budget > 1 {
        var tail := Greedy(rest, keep, budget - 1);
        assert r == [idx] + tail;
        GreedyNonOverlapping(rest, keep, budget - 1);
        GreedyMembers(rest, keep, budget - 1);
        SurvivorsMembers(idx, remain, keep);
        forall p, q | 0 <= p < q < |r|
          ensures keep(r[p], r[q])
        {
          assert r[q] == tail[q - 1] && tail[q - 1] in tail;
          if p > 0 {
            assert r[p] == tail[p - 1];
            assert keep(tail[p - 1], tail[q - 1]);
          } else {
            assert r[p] == idx && tail[q - 1] in rest;
          }
        }
      }
    }
  }

  /** If the budget did not stop the loop, every candidate left out is
      suppressed by a selected index that comes before it. */
  lemma {:induction false} GreedyCovers(indices: seq<nat>, keep: (nat, nat) -> bool, budget: int, u: nat)
    requires |Greedy(indices, keep, budget)| < budget
    requires u in indices && u !in Greedy(indices, keep, budget)
    ensures exists s :: s in Greedy(indices, keep, budget) && Precedes(indices, s, u) && !keep(s, u)
    decreases |indices|
  {
    var r := Greedy(indices, keep, budget);
    var idx, remain := indices[0], indices[1..];
    assert u in remain by {
      assert indices == [idx] + remain;
    }
    HeadPrecedes(indices, u);
    assert idx in r;
    if keep(idx, u) {
      var rest := Survivors(idx, remain, keep);
      SurvivorsMembers(idx, remain, keep);
      assert u in rest;
      var tail := Greedy(rest, keep, budget - 1);
      assert r == [idx] + tail;
      GreedyCovers(rest, keep, budget - 1, u);
      var s :| s in tail && Precedes(rest, s, u) && !keep(s, u);
      SurvivorsPrecedes(idx, remain, keep, s, u);
      ShiftPrecedes(indices, s, u);
      assert s in r;
    }
  }

  /** An index that survives everything survives suppression by idx. */
  lemma {:induction false} SurvivorsAll(idx: nat, remain: seq<nat>, keep: (nat, nat) -> bool)
    requires forall k :: 0 <= k < |remain| ==> keep(idx, remain[k])
    ensures Survivors(idx, remain, keep) == remain
    decreases |remain|
  {
    if remain != [] {
      SurvivorsAll(idx, remain[1..], keep);
      assert remain == [remain[0]] + remain[1..];
    }
  }

  /** Candidates that survive every earlier candidate are all selected, in
      their order, when the budget allows it. */
  lemma {:induction false} GreedyKeepsAll(indices: seq<nat>, keep: (nat, nat) -> bool, budget: int)
    requires budget >= |indices| && Pairwise(indices, keep)
    ensures Greedy(indices, keep, budget) == indices
    decreases |indices|
  {
    if |indices| > 1 {
      var idx, remain := indices[0], indices[1..];
      assert forall k :: 0 <= k < |remain| ==> keep(idx, remain[k]) by {
        forall k | 0 <= k < |remain| ensures keep(idx, remain[k]) {
          assert remain[k] == indices[k + 1];
        }
      }
      SurvivorsAll(idx, remain, keep);
      assert Pairwise(remain, keep) by {
        forall p, q | 0 <= p < q < |remain| ensures keep(remain[p], remain[q]) {
          assert remain[p] == indices[p + 1] && remain[q] == indices[q + 1];
        }
      }
      GreedyKeepsAll(remain, keep, budget - 1);
      assert indices == [idx] + remain;
    }
  }

  /** Elements of xs at the positions listed in sel. */
  function Pick<T>(xs: seq<T>, sel: seq<nat>): (r: seq<T>)
    requires InRange(sel, |xs|)
    ensures |r| == |sel| && forall k :: 0 <= k < |sel| ==> r[k] == xs[sel[k]]
  {
    seq(|sel|, k requires 0 <= k < |sel| => xs[sel[k]])
  }

  /** Running the suppression again on the selected boxes and their scores,
      in any descending score order, keeps all of them. */
  lemma RerunKeepsAll(sel: seq<nat>, boxes: seq<Box>, scores: seq<real>, t: real, order: seq<nat>,
                      keep: (nat, nat) -> bool)
    requires AllPositive(boxes) && InRange(sel, |boxes|) && InRange(sel, |scores|) && Distinct(sel)
    requires Separated(sel, boxes, t)
    requires IsSortOrder(order, Pick(scores, sel)) && IouBelow(keep, Pick(boxes, sel), t)
    ensures Greedy(order, keep, |sel| + 1) == order
  {
    forall p, q | 0 <= p < q < |order|
      ensures keep(order[p], order[q])
    {
      SeparatedKept(sel, boxes, t, keep, order[p], order[q]);
    }
    assert Pairwise(order, keep);
    GreedyKeepsAll(order, keep, |sel| + 1);
  }

  /** Two different positions of a separated selection keep each other. */
  lemma SeparatedKept(sel: seq<nat>, boxes: seq<Box>, t: real, keep: (nat, nat) -> bool, i: nat, j: nat)
    requires AllPositive(boxes) && InRange(sel, |boxes|) && Separated(sel, boxes, t)
    requires IouBelow(keep, Pick(boxes, sel), t)
    requires i < |sel| && j < |sel| && i != j
    ensures keep(i, j)
  {
    var bs := Pick(boxes, sel);
    assert bs[i] == boxes[sel[i]] && bs[j] == boxes[sel[j]];
  }

  /** The selection `nms` makes from a sort order, with the properties the
      source promises of its output. */
  lemma SelectionFacts(order: seq<nat>, boxes: seq<Box>, scores: seq<real>, t: real, maxOutputSize: Option<int>,
                       keep: (nat, nat) -> bool)
    requires |boxes| == |scores| && AllPositive(boxes) && IsSortOrder(order, scores) && IouBelow(keep, boxes, t)
    ensures NmsOutput(Greedy(order, keep, DefaultBudget(scores, maxOutputSize)), boxes, scores, t, maxOutputSize)
  {
    var budget := DefaultBudget(scores, maxOutputSize);
    var sel := Greedy(order, keep, budget);
    GreedyDistinct(order, keep, budget);
    GreedyOrdered(order, keep, budget, scores);
    GreedyWithinBudget(order, keep, budget);
    SortOrderHeadIsMax(order, scores);
    SelectionSeparated(order, boxes, t, budget, keep);
    if maxOutputSize.None? {
      SelectionCovers(order, boxes, scores, t, budget, keep);
    }
  }

  /** Selected boxes are pairwise below the threshold: each later one
      survived the earlier one, and iou is symmetric. */
  lemma SelectionSeparated(order: seq<nat>, boxes: seq<Box>, t: real, budget: int, keep: (nat, nat) -> bool)
    requires IouBelow(keep, boxes, t)
    ensures Separated(Greedy(order, keep, budget), boxes, t)
  {
    var sel := Greedy(order, keep, budget);
    GreedyNonOverlapping(order, keep, budget);
    forall p, q | 0 <= p < |sel| && 0 <= q < |sel| && p != q && sel[p] < |boxes| && sel[q] < |boxes| &&
      PositiveArea(boxes[sel[p]]) && PositiveArea(boxes[sel[q]])
      ensures Iou(boxes[sel[p]], boxes[sel[q]]) < t
    {
      if p < q {
        assert keep(sel[p], sel[q]);
      } else {
        assert keep(sel[q], sel[p]);
        IouSymmetric(boxes[sel[q]], boxes[sel[p]]);
      }
    }
  }

  /** Coverage of a selection the budget did not cut short: every index
      that is not selected has iou at least t with a selected index of at
      least its score (by `GreedyCovers`, one before it in the sort order). */
  lemma SelectionCovers(order: seq<nat>, boxes: seq<Box>, scores: seq<real>, t: real, budget: int,
                        keep: (nat, nat) -> bool)
    requires |boxes| == |scores| && AllPositive(boxes) && IsSortOrder(order, scores) && IouBelow(keep, boxes, t)
    requires |Greedy(order, keep, budget)| < budget
    ensures Covered(Greedy(order, keep, budget), boxes, scores, t)
  {
    var sel := Greedy(order, keep, budget);
    GreedyMembers(order, keep, budget);
    forall u | 0 <= u < |boxes| && u < |scores| && u !in sel && PositiveArea(boxes[u])
      ensures exists s ::
        s in sel && s < |boxes| && s < |scores| && PositiveArea(boxes[s]) &&
        scores[s] >= scores[u] && Iou(boxes[s], boxes[u]) >= t
    {
      GreedyCovers(order, keep, budget, u);
      var s :| s in sel && Precedes(order, s, u) && !keep(s, u);
      var p, q :| 0 <= p < q < |order| && order[p] == s && order[q] == u;
      assert scores[s] >= scores[u];
      assert s in order;
    }
  }

  /** The loop of lines 145-166 over the sorted `indices`, with `flag`
      counting the selections: it computes `Greedy`. */
  method Suppress(order: seq<nat>, keep: (nat, nat) -> bool, maxOut: int) returns (selected: seq<nat>)
    ensures selected == Greedy(order, keep, maxOut)
  {
    var indices := order;
    selected := [];
    var flag := 0;
    ghost var budget := maxOut;
    while |indices| > 0
      invariant budget == maxOut - flag
      invariant selected + Greedy(indices, keep, budget) == Greedy(order, keep, maxOut)
      decreases |indices|
    {
      ghost var before := Greedy(indices, keep, budget);
      var idx := indices[0];
      flag := flag + 1;
      var remain := indices[1..];
      selected := selected + [idx];
      if |remain| == 0 {
        assert before == [idx];
        return;
      }
      var mask := KeepMask(idx, remain, keep);
      indices := Select(remain, mask);
      MaskedAreSurvivors(idx, remain, keep);
      EmptyMaskMeansNoSurvivors(remain, mask);
      if CountTrue(mask) == 0 {
        assert before == [idx];
        return;
      }
      if flag >= maxOut {
        assert before == [idx];
        return;
      }
      assert before == [idx] + Greedy(indices, keep, budget - 1);
      budget := budget - 1;
    }
    assert indices == [] && selected + [] == selected;
  }

  /** `nms(boxes, scores, device, iou_threshold, max_output_size)`. */
  method Nms(boxes: seq<Box>, scores: seq<real>, iouThreshold: real, maxOutputSize: Option<int>)
    returns (result: Result<seq<nat>, NmsError>, ghost order: seq<nat>)
    ensures |boxes| != |scores| ==> result == Failure(LengthMismatch)
    ensures |boxes| == |scores| == 0 ==> result == Success([])
    ensures (|boxes| == |scores| && !AllPositive(boxes)) ==> result == Failure(NonPositiveArea)
    ensures (|boxes| == |scores| && AllPositive(boxes)) ==> result.Success?
    ensures (|boxes| == |scores| && AllPositive(boxes) && result.Success?) ==>
      IsSortOrder(order, scores) &&
      result.value == Greedy(order, Below(boxes, iouThreshold), DefaultBudget(scores, maxOutputSize))
    ensures (|boxes| == |scores| && AllPositive(boxes) && result.Success?) ==>
      NmsOutput(result.value, boxes, scores, iouThreshold, maxOutputSize)
  {
    if |boxes| != |scores| {
      return Failure(LengthMismatch), [];
    }
    if |scores| == 0 {
      return Success([]), [];
    }
    if !AllPositive(boxes) {
      return Failure(NonPositiveArea), [];
    }
    var keep := Below(boxes, iouThreshold);
    var sorted := SortByScore(scores);
    order := sorted;
    var maxOut := DefaultBudget(scores, maxOutputSize);
    var selected := Suppress(sorted, keep, maxOut);
    SelectionFacts(sorted, boxes, scores, iouThreshold, maxOutputSize, keep);
    result := Success(selected);
  }

  /** The output budget of lines 142-143: `max_output_size`, or N + 1 when
      it is not given, one more than can ever be selected. */
  function DefaultBudget(scores: seq<real>, maxOutputSize: Option<int>): (budget: int)
    ensures maxOutputSize.None? ==> budget == |scores| + 1 && budget > |scores|
    ensures maxOutputSize.Some? ==> budget == maxOutputSize.value
  {
    if maxOutputSize.None? then |scores| + 1 else maxOutputSize.value
  }

  /** The three boxes of the worked example, scored 0.9, 0.8 and 0.7. */
  function ExampleBoxes(): seq<Box>
  {
    [Box(0.0, 0.0, 10.0, 10.0), Box(1.0, 1.0, 11.0, 11.0), Box(50.0, 50.0, 60.0, 60.0)]
  }

  /** Box 1 overlaps box 0 with iou 81/119; box 2 does not overlap it. */
  lemma ExampleIous()
    ensures Intersection(Box(0.0, 0.0, 10.0, 10.0), Box(1.0, 1.0, 11.0, 11.0)) == 81.0
    ensures Union(Box(0.0, 0.0, 10.0, 10.0), Box(1.0, 1.0, 11.0, 11.0)) == 119.0
    ensures Iou(Box(0.0, 0.0, 10.0, 10.0), Box(1.0, 1.0, 11.0, 11.0)) == 81.0 / 119.0
    ensures PositiveArea(Box(0.0, 0.0, 10.0, 10.0)) && PositiveArea(Box(1.0, 1.0, 11.0, 11.0))
    ensures PositiveArea(Box(50.0, 50.0, 60.0, 60.0))
    ensures Iou(Box(0.0, 0.0, 10.0, 10.0), Box(50.0, 50.0, 60.0, 60.0)) == 0.0
  {
    IouDisjoint(Box(0.0, 0.0, 10.0, 10.0), Box(50.0, 50.0, 60.0, 60.0));
  }

  /** At threshold 0.5 box 0 suppresses box 1 but not box 2. */
  lemma ExampleKeep()
    ensures !Below(ExampleBoxes(), 0.5)(0, 1) && Below(ExampleBoxes(), 0.5)(0, 2)
  {
    ExampleIous();
  }

  /** Greedy on three candidates where the first suppresses the second
      but not the third. */
  lemma GreedyOfThree(keep: (nat, nat) -> bool)
    requires !keep(0, 1) && keep(0, 2)
    ensures Greedy([0, 1, 2], keep, 4) == [0, 2]
  {
    assert [1, 2][1..] == [2] && [0, 1, 2][1..] == [1, 2];
    assert Survivors(0, [2], keep) == [2];
    assert Survivors(0, [1, 2], keep) == [2];
    assert Greedy([0, 1, 2], keep, 4) == [0] + Greedy([2], keep, 3);
  }

  /** With threshold 0.5 and the default budget 4 the result is [0, 2], for
      every sort order, because the scores admit only [0, 1, 2]. */
  lemma NmsExample(order: seq<nat>)
    requires IsSortOrder(order, [0.9, 0.8, 0.7])
    ensures Greedy(order, Below(ExampleBoxes(), 0.5), 4) == [0, 2]
  {
    assert IsSortOrder([0, 1, 2], [0.9, 0.8, 0.7]);
    SortOrderUnique(order, [0, 1, 2], [0.9, 0.8, 0.7]);
    ExampleKeep();
    GreedyOfThree(Below(ExampleBoxes(), 0.5));
  }
}
