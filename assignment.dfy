/** Ground-truth assignment of utils.py (`preprocess_true_boxes`): every label
    row is written into the slot of its grid cell and best-matching anchor
    of a zero-filled target tensor [B, H, W, A, 5 + num_cls]. */
module Assignment {
  import opened Geometry

  /** The `1e-8` added to the union before dividing. */
  const Eps: real := 0.00000001

  /** A prior box shape (w, h), in the same relative units as the labels. */
  datatype Anchor = Anchor(w: real, h: real)

  /** One detection scale: `grid_size = (W, H)`, its anchors and `num_cls`. */
  datatype Head = Head(gridW: nat, gridH: nat, anchors: seq<Anchor>, numCls: nat)
  {
    /** A grid with cells, at least one anchor (`np.argmax` of an empty
        array fails), and anchors of non-negative size. */
    predicate Valid()
    {
      && gridW > 0 && gridH > 0 && |anchors| > 0
      && forall a :: 0 <= a < |anchors| ==> anchors[a].w >= 0.0 && anchors[a].h >= 0.0
    }
  }

  /** Python's `int(x)` on a float: truncation toward zero. */
  function Trunc(x: real): (n: int)
    ensures x >= 0.0 ==> 0 <= n && n as real <= x < n as real + 1.0
    ensures x < 0.0 ==> n <= 0 && n as real - 1.0 < x <= n as real
  {
    if x >= 0.0 then x.Floor else -((-x).Floor)
  }

  /** A label row the code handles: at least (y-ish, x-ish, w, h), the two
      centre coordinates in [0, 1) so that the cell exists, a non-negative
      size, and class ids in [0, num_cls). */
  predicate ValidLabel(row: seq<real>, head: Head)
  {
    && |row| >= 4
    && 0.0 <= row[0] < 1.0 && 0.0 <= row[1] < 1.0
    && row[2] >= 0.0 && row[3] >= 0.0
    && forall m :: 4 <= m < |row| ==> 0.0 <= row[m] < head.numCls as real
  }

  predicate ValidRows(rows: seq<seq<real>>, head: Head)
  {
    forall n :: 0 <= n < |rows| ==> ValidLabel(rows[n], head)
  }

  lemma FractionBelowOne(i: real, d: real)
    requires 0.0 <= i < d
    ensures 0.0 <= i / d < 1.0
  {
    assert (i / d) * d == i;
  }

  /** The stabilised iou of a label size (w, h) with an anchor, both placed
      at the same centre: `min_wh` area over union plus `1e-8`. Because of the
      epsilon it never reaches 1. */
  function AnchorIou(w: real, h: real, anchor: Anchor): (r: real)
    requires w >= 0.0 && h >= 0.0 && anchor.w >= 0.0 && anchor.h >= 0.0
    ensures 0.0 <= r < 1.0
  {
    var ins := Min(w, anchor.w) * Min(h, anchor.h);
    var uni := w * h + anchor.w * anchor.h - ins;
    MulMonotone(Min(w, anchor.w), w, Min(h, anchor.h), h);
    MulMonotone(Min(w, anchor.w), anchor.w, Min(h, anchor.h), anchor.h);
    MulMonotone(0.0, Min(w, anchor.w), 0.0, Min(h, anchor.h));
    FractionBelowOne(ins, uni + Eps);
    ins / (uni + Eps)
  }

  /** `iou_scores`: the stabilised iou with every anchor. */
  function AnchorScores(w: real, h: real, head: Head): (s: seq<real>)
    requires head.Valid() && w >= 0.0 && h >= 0.0
    ensures |s| == |head.anchors|
    ensures forall a :: 0 <= a < |s| ==> s[a] == AnchorIou(w, h, head.anchors[a])
  {
    seq(|head.anchors|, a requires 0 <= a < |head.anchors| => AnchorIou(w, h, head.anchors[a]))
  }

  /** `np.argmax`: the first index holding the largest value. */
  function Argmax(s: seq<real>): (k: nat)
    requires |s| > 0
    ensures k < |s|
    ensures forall m :: 0 <= m < |s| ==> s[m] <= s[k]
    ensures forall m :: 0 <= m < k ==> s[m] < s[k]
    decreases |s|
  {
    if |s| == 1 then 0
    else
      var k := Argmax(s[..|s| - 1]);
      if s[|s| - 1] > s[k] then |s| - 1 else k
  }

  /** The anchor a label of size (w, h) is assigned to: the smallest anchor
      index whose score is maximal among all anchors. */
  function BestAnchor(w: real, h: real, head: Head): (a: nat)
    requires head.Valid() && w >= 0.0 && h >= 0.0
    ensures a < |head.anchors|
    ensures forall b :: 0 <= b < |head.anchors| ==>
      AnchorIou(w, h, head.anchors[b]) <= AnchorIou(w, h, head.anchors[a])
    ensures forall b :: 0 <= b < a ==>
      AnchorIou(w, h, head.anchors[b]) < AnchorIou(w, h, head.anchors[a])
  {
    Argmax(AnchorScores(w, h, head))
  }

  /** A position (cell row i, cell column j, anchor a) of the target. */
  datatype Slot = Slot(i: nat, j: nat, a: nat)

  /** Where a label is written: index 0 scaled by H and index 1 scaled by W,
      each truncated, and the best anchor. The indices are in range. */
  function SlotOf(row: seq<real>, head: Head): (s: Slot)
    requires head.Valid() && ValidLabel(row, head)
    ensures s.i < head.gridH && s.j < head.gridW && s.a < |head.anchors|
  {
    var i := CellOf(row[0], head.gridH);
    var j := CellOf(row[1], head.gridW);
    Slot(i, j, BestAnchor(row[2], row[3], head))
  }

  /** A relative coordinate in [0, 1) scaled by a positive cell count and
      truncated is a cell index. */
  function CellOf(u: real, n: nat): (i: nat)
    requires 0.0 <= u < 1.0 && n > 0
    ensures i < n
    ensures i == (u * n as real).Floor
  {
    ScaledCell(u, n);
    Trunc(u * n as real)
  }

  lemma ScaledCell(u: real, n: nat)
    requires 0.0 <= u < 1.0 && n > 0
    ensures 0.0 <= u * n as real < n as real
  {
    assert (1.0 - u) * n as real > 0.0;
  }

  /** The slot of a row is the cell floor(box[0] * H), floor(box[1] * W)
      and the anchor of maximal score for box[2], box[3]. */
  lemma SlotOfCell(row: seq<real>, head: Head)
    requires head.Valid() && ValidLabel(row, head)
    ensures SlotOf(row, head).i == (row[0] * head.gridH as real).Floor
    ensures SlotOf(row, head).j == (row[1] * head.gridW as real).Floor
    ensures SlotOf(row, head).a == BestAnchor(row[2], row[3], head)
  {
  }

  /** The slot depends on the first four fields only. */
  lemma SlotOfPrefix(row: seq<real>, m: nat, head: Head)
    requires head.Valid() && ValidLabel(row, head) && 4 <= m <= |row|
    ensures ValidLabel(row[..m], head)
    ensures SlotOf(row[..m], head) == SlotOf(row, head)
  {
    assert row[..m][..4] == row[..4];
    assert forall k :: 0 <= k < 4 ==> row[..m][k] == row[k];
  }

  /** A centre of 0.5 on a 13 x 13 grid lands in cell (6, 6). */
  lemma CellExample(row: seq<real>, head: Head)
    requires head.Valid() && head.gridH == 13 && head.gridW == 13
    requires ValidLabel(row, head) && row[0] == 0.5 && row[1] == 0.5
    ensures SlotOf(row, head).i == 6 && SlotOf(row, head).j == 6
  {
  }

  /** Channels 0 to 4 of a label: its two centre coordinates as given,
      its raw w and h, and objectness 1. */
  function Channel(row: seq<real>, c: nat): real
    requires |row| >= 4 && c < 5
  {
    if c < 4 then row[c] else 1.0
  }

  /** Class id `k` is among the ids `box[4:]` of the row. */
  predicate HasClass(row: seq<real>, k: int)
  {
    exists m :: 4 <= m < |row| && Trunc(row[m]) == k
  }

  /** The value the target holds at channel c of slot s after the rows of
      one image have been written in order: the later row wins channels
      0 to 4, class flags set by any row stay set, and untouched entries
      keep the initial 0. Objectness and the class flags are always 0 or 1. */
  function SlotValue(rows: seq<seq<real>>, head: Head, s: Slot, c: nat): (v: real)
    requires head.Valid() && ValidRows(rows, head)
    ensures c >= 4 ==> v == 0.0 || v == 1.0
    decreases |rows|
  {
    if rows == [] then 0.0
    else
      var row := rows[|rows| - 1];
      if SlotOf(row, head) == s && c < 5 then Channel(row, c)
      else if SlotOf(row, head) == s && c >= 5 && HasClass(row, c - 5) then 1.0
      else SlotValue(rows[..|rows| - 1], head, s, c)
  }

  /** A slot that no row is assigned to stays all zero. */
  lemma {:induction false} UnassignedSlotIsZero(rows: seq<seq<real>>, head: Head, s: Slot, c: nat)
    requires head.Valid() && ValidRows(rows, head)
    requires forall n :: 0 <= n < |rows| ==> SlotOf(rows[n], head) != s
    ensures SlotValue(rows, head, s, c) == 0.0
    decreases |rows|
  {
    if rows != [] {
      UnassignedSlotIsZero(rows[..|rows| - 1], head, s, c);
    }
  }

  /** Channels 0 to 4 of a slot hold the values of the last row assigned
      to it. */
  lemma {:induction false} LastRowWins(rows: seq<seq<real>>, head: Head, s: Slot, n: nat, c: nat)
    requires head.Valid() && ValidRows(rows, head)
    requires n < |rows| && SlotOf(rows[n], head) == s
    requires forall n' :: n < n' < |rows| ==> SlotOf(rows[n'], head) != s
    requires c < 5
    ensures SlotValue(rows, head, s, c) == Channel(rows[n], c)
    decreases |rows|
  {
    if n < |rows| - 1 {
      LastRowWins(rows[..|rows| - 1], head, s, n, c);
    }
  }

  /** Objectness is 1 exactly at the slots some row is assigned to. */
  lemma {:induction false} ObjectnessMarksAssignedSlots(rows: seq<seq<real>>, head: Head, s: Slot)
    requires head.Valid() && ValidRows(rows, head)
    ensures SlotValue(rows, head, s, 4) ==
      if exists n :: 0 <= n < |rows| && SlotOf(rows[n], head) == s then 1.0 else 0.0
    decreases |rows|
  {
    if rows != [] {
      var init := rows[..|rows| - 1];
      ObjectnessMarksAssignedSlots(init, head, s);
      if SlotOf(rows[|rows| - 1], head) != s {
        assert (exists n :: 0 <= n < |rows| && SlotOf(rows[n], head) == s) <==>
               (exists n :: 0 <= n < |init| && SlotOf(init[n], head) == s) by {
          forall n | 0 <= n < |init| ensures init[n] == rows[n] { }
        }
      }
    }
  }

  /** The class flag k of a slot is 1 exactly when some row assigned to the
      slot carries class id k: flags of colliding rows accumulate. */
  lemma {:induction false} ClassFlagsAccumulate(rows: seq<seq<real>>, head: Head, s: Slot, k: nat)
    requires head.Valid() && ValidRows(rows, head)
    ensures SlotValue(rows, head, s, 5 + k) ==
      if exists n :: 0 <= n < |rows| && SlotOf(rows[n], head) == s && HasClass(rows[n], k)
      then 1.0 else 0.0
    decreases |rows|
  {
    if rows != [] {
      var init := rows[..|rows| - 1];
      var last := rows[|rows| - 1];
      ClassFlagsAccumulate(init, head, s, k);
      assert rows == init + [last];
      if SlotOf(last, head) == s && HasClass(last, k) {
        assert SlotValue(rows, head, s, 5 + k) == 1.0;
        assert SlotOf(rows[|rows| - 1], head) == s && HasClass(rows[|rows| - 1], k);
      } else {
        assert SlotValue(rows, head, s, 5 + k) == SlotValue(init, head, s, 5 + k);
        assert (exists n :: 0 <= n < |rows| && SlotOf(rows[n], head) == s && HasClass(rows[n], k)) <==>
               (exists n :: 0 <= n < |init| && SlotOf(init[n], head) == s && HasClass(init[n], k)) by {
          forall n | 0 <= n < |init| ensures init[n] == rows[n] { }
        }
      }
    }
  }

  /** Appending a row: the definition of SlotValue read forwards. */
  lemma SlotValueSnoc(rows: seq<seq<real>>, row: seq<real>, head: Head, s: Slot, c: nat)
    requires head.Valid() && ValidRows(rows, head) && ValidLabel(row, head)
    ensures ValidRows(rows + [row], head)
    ensures SlotValue(rows + [row], head, s, c) ==
      if SlotOf(row, head) == s && c < 5 then Channel(row, c)
      else if SlotOf(row, head) == s && c >= 5 && HasClass(row, c - 5) then 1.0
      else SlotValue(rows, head, s, c)
  {
    assert (rows + [row])[..|rows|] == rows;
  }

  /** Taking one more class id of a row adds that id. */
  lemma HasClassSnoc(row: seq<real>, m: nat, k: int)
    requires 4 <= m < |row|
    ensures HasClass(row[..m + 1], k) <==> HasClass(row[..m], k) || Trunc(row[m]) == k
  {
    if HasClass(row[..m + 1], k) {
      var q :| 4 <= q < m + 1 && Trunc(row[..m + 1][q]) == k;
      if q < m {
        assert row[..m][q] == row[q];
      }
    }
    if HasClass(row[..m], k) {
      var q :| 4 <= q < m && Trunc(row[..m][q]) == k;
      assert row[..m + 1][q] == row[q];
    }
    if Trunc(row[m]) == k {
      assert row[..m + 1][m] == row[m];
    }
  }

  /** u scaled by a positive count and divided back is u again. */
  lemma ScaleBack(u: real, n: nat, y: real)
    requires n > 0 && y == u * n as real
    ensures y / n as real == u
  {
  }

  /** The target has the shape `np.zeros((B, H, W, A, 5 + num_cls))`. */
  predicate HasShape(target: array5<real>, nb: nat, head: Head)
  {
    && target.Length0 == nb && target.Length1 == head.gridH && target.Length2 == head.gridW
    && target.Length3 == |head.anchors| && target.Length4 == 5 + head.numCls
  }

  /** Image b of the target holds exactly what writing `rows` leaves there. */
  ghost predicate ImageHolds(target: array5<real>, b: nat, rows: seq<seq<real>>, head: Head)
    reads target
  {
    && head.Valid() && ValidRows(rows, head) && b < target.Length0
    && forall i, j, a, c ::
      0 <= i < target.Length1 && 0 <= j < target.Length2 && 0 <= a < target.Length3 && 0 <= c < target.Length4 ==>
        target[b, i, j, a, c] == SlotValue(rows, head, Slot(i, j, a), c)
  }

  /** Images other than b are the same in the target as in an earlier state. */
  twostate predicate OthersUnchanged(target: array5<real>, b: nat)
    reads target
  {
    forall bb, i, j, a, c ::
      0 <= bb < target.Length0 && bb != b && 0 <= i < target.Length1 && 0 <= j < target.Length2 &&
      0 <= a < target.Length3 && 0 <= c < target.Length4 ==>
        target[bb, i, j, a, c] == old(target[bb, i, j, a, c])
  }

  /** Lines 83 and 86-87 for one row: its centre scaled by (H, W) and
      the cell that the truncated scaled centre gives. */
  method LocateCell(box: seq<real>, head: Head) returns (y: real, x: real, i: int, j: int)
    requires head.Valid() && ValidLabel(box, head)
    ensures y / head.gridH as real == box[0] && x / head.gridW as real == box[1]
    ensures i == CellOf(box[0], head.gridH) && j == CellOf(box[1], head.gridW)
  {
    y := box[0] * head.gridH as real;
    x := box[1] * head.gridW as real;
    i := Trunc(y);
    j := Trunc(x);
    assert i == CellOf(box[0], head.gridH) by {
      ScaledCell(box[0], head.gridH);
    }
    assert j == CellOf(box[1], head.gridW) by {
      ScaledCell(box[1], head.gridW);
    }
    assert y / head.gridH as real == box[0] by {
      ScaleBack(box[0], head.gridH, y);
    }
    assert x / head.gridW as real == box[1] by {
      ScaleBack(box[1], head.gridW, x);
    }
  }

  /** Channels 0 to 4 of the slot of one row (lines 99-103): the centre
      divided back by (H, W), passed in as cy and cx, the raw size, and
      objectness 1. */
  method WriteChannels(target: array5<real>, b: nat, box: seq<real>, cy: real, cx: real, slot: Slot,
                       ghost done: seq<seq<real>>, head: Head)
    requires head.Valid() && ValidLabel(box, head) && HasShape(target, target.Length0, head)
    requires ImageHolds(target, b, done, head) && ValidRows(done, head)
    requires cy == box[0] && cx == box[1]
    requires slot == SlotOf(box, head)
    modifies target
    ensures ImageHolds(target, b, done + [box[..4]], head)
    ensures OthersUnchanged(target, b)
  {
    SlotOfPrefix(box, 4, head);
    target[b, slot.i, slot.j, slot.a, 0] := cy;
    target[b, slot.i, slot.j, slot.a, 1] := cx;
    target[b, slot.i, slot.j, slot.a, 2] := box[2];
    target[b, slot.i, slot.j, slot.a, 3] := box[3];
    target[b, slot.i, slot.j, slot.a, 4] := 1.0;
    forall i', j', a', c' |
      0 <= i' < target.Length1 && 0 <= j' < target.Length2 && 0 <= a' < target.Length3 && 0 <= c' < target.Length4
      ensures target[b, i', j', a', c'] ==
        if Slot(i', j', a') == slot && c' < 5 then Channel(box, c') else SlotValue(done, head, Slot(i', j', a'), c')
    {
      if !(Slot(i', j', a') == slot && c' < 5) {
        assert target[b, i', j', a', c'] == old(target[b, i', j', a', c']);
      }
    }
    ChannelsWritten(target, b, box, slot, done, head);
    forall bb, i', j', a', c' |
      0 <= bb < target.Length0 && bb != b && 0 <= i' < target.Length1 && 0 <= j' < target.Length2 &&
      0 <= a' < target.Length3 && 0 <= c' < target.Length4
      ensures target[bb, i', j', a', c'] == old(target[bb, i', j', a', c'])
    {
    }
  }

  /** The image after lines 99-103, read against SlotValue. */
  lemma ChannelsWritten(target: array5<real>, b: nat, box: seq<real>, slot: Slot,
                        done: seq<seq<real>>, head: Head)
    requires head.Valid() && ValidLabel(box, head) && ValidRows(done, head) && b < target.Length0
    requires slot == SlotOf(box[..4], head)
    requires forall i', j', a', c' |
      0 <= i' < target.Length1 && 0 <= j' < target.Length2 && 0 <= a' < target.Length3 && 0 <= c' < target.Length4 ::
        target[b, i', j', a', c'] ==
          if Slot(i', j', a') == slot && c' < 5 then Channel(box, c') else SlotValue(done, head, Slot(i', j', a'), c')
    ensures ImageHolds(target, b, done + [box[..4]], head)
  {
    forall i', j', a', c' |
      0 <= i' < target.Length1 && 0 <= j' < target.Length2 && 0 <= a' < target.Length3 && 0 <= c' < target.Length4
      ensures target[b, i', j', a', c'] == SlotValue(done + [box[..4]], head, Slot(i', j', a'), c')
    {
      SlotValueSnoc(done, box[..4], head, Slot(i', j', a'), c');
    }
  }

  /** The class flag of one class id (utils.py line 107). */
  method WriteClassFlag(target: array5<real>, b: nat, box: seq<real>, m: nat, slot: Slot,
                        ghost done: seq<seq<real>>, head: Head)
    requires head.Valid() && ValidLabel(box, head) && HasShape(target, target.Length0, head)
    requires 4 <= m < |box| && slot == SlotOf(box, head) && ValidRows(done, head)
    requires ImageHolds(target, b, done + [box[..m]], head)
    modifies target
    ensures ImageHolds(target, b, done + [box[..m + 1]], head)
    ensures OthersUnchanged(target, b)
  {
    var k := Trunc(box[m]);
    SlotOfPrefix(box, m, head);
    SlotOfPrefix(box, m + 1, head);
    target[b, slot.i, slot.j, slot.a, k + 5] := 1.0;
    forall i', j', a', c' |
      0 <= i' < target.Length1 && 0 <= j' < target.Length2 && 0 <= a' < target.Length3 && 0 <= c' < target.Length4
      ensures target[b, i', j', a', c'] == SlotValue(done + [box[..m + 1]], head, Slot(i', j', a'), c')
    {
      SlotValueSnoc(done, box[..m], head, Slot(i', j', a'), c');
      SlotValueSnoc(done, box[..m + 1], head, Slot(i', j', a'), c');
      HasClassSnoc(box, m, c' - 5);
    }
  }

  /** The body of the `for box in labels_[b]` loop for one row. */
  method WriteLabel(target: array5<real>, b: nat, box: seq<real>, ghost done: seq<seq<real>>, head: Head)
    requires head.Valid() && ValidLabel(box, head) && HasShape(target, target.Length0, head)
    requires ImageHolds(target, b, done, head)
    modifies target
    ensures ImageHolds(target, b, done + [box], head)
    ensures OthersUnchanged(target, b)
  {
    assert ValidRows(done, head);
    var y, x, i, j := LocateCell(box, head);
    var idx := Argmax(AnchorScores(box[2], box[3], head));
    var slot := Slot(i, j, idx);
    WriteChannels(target, b, box, y / head.gridH as real, x / head.gridW as real, slot, done, head);
    for m := 4 to |box|
      invariant ImageHolds(target, b, done + [box[..m]], head)
      invariant OthersUnchanged(target, b)
    {
      WriteClassFlag(target, b, box, m, slot, done, head);
    }
    assert box[..|box|] == box;
  }

  /** Rows of each image written before image b is reached. */
  function Before(labels: seq<seq<seq<real>>>, b: nat, bb: nat): seq<seq<real>>
    requires b <= |labels| && bb < |labels|
  {
    if bb < b then labels[bb] else []
  }

  /** Rows of each image written after row n of image b has been reached. */
  function Done(labels: seq<seq<seq<real>>>, b: nat, n: nat, bb: nat): seq<seq<real>>
    requires b < |labels| && n <= |labels[b]| && bb < |labels|
  {
    if bb < b then labels[bb] else if bb == b then labels[b][..n] else []
  }

  /** `preprocess_true_boxes(labels, anchors, (W, H), device, num_cls)`:
      a fresh tensor [B, H, W, A, 5 + num_cls] whose every entry is the
      value the rows of its image leave at that slot and channel. */
  method PreprocessTrueBoxes(labels: seq<seq<seq<real>>>, anchors: seq<Anchor>,
                             gridW: nat, gridH: nat, numCls: nat)
    returns (target: array5<real>)
    requires Head(gridW, gridH, anchors, numCls).Valid()
    requires forall b :: 0 <= b < |labels| ==> ValidRows(labels[b], Head(gridW, gridH, anchors, numCls))
    ensures fresh(target)
    ensures target.Length0 == |labels| && target.Length1 == gridH && target.Length2 == gridW
    ensures target.Length3 == |anchors| && target.Length4 == 5 + numCls
    ensures forall b, i, j, a, c ::
      0 <= b < |labels| && 0 <= i < gridH && 0 <= j < gridW && 0 <= a < |anchors| && 0 <= c < 5 + numCls ==>
        target[b, i, j, a, c] == SlotValue(labels[b], Head(gridW, gridH, anchors, numCls), Slot(i, j, a), c)
  {
    var head := Head(gridW, gridH, anchors, numCls);
    var nb := |labels|;
    target := new real[nb, gridH, gridW, |anchors|, 5 + numCls]((_, _, _, _, _) => 0.0);
    for b := 0 to nb
      invariant forall bb :: 0 <= bb < nb ==> ImageHolds(target, bb, Before(labels, b, bb), head)
    {
      var rows := labels[b];
      forall bb | 0 <= bb < nb
        ensures ImageHolds(target, bb, Done(labels, b, 0, bb), head)
      {
        assert Done(labels, b, 0, bb) == Before(labels, b, bb);
      }
      for n := 0 to |rows|
        invariant forall bb :: 0 <= bb < nb ==> ImageHolds(target, bb, Done(labels, b, n, bb), head)
      {
        assert ImageHolds(target, b, Done(labels, b, n, b), head);
        label before:
        WriteLabel(target, b, rows[n], rows[..n], head);
        assert rows[..n + 1] == rows[..n] + [rows[n]];
        ghost var next := n + 1;
        forall bb | 0 <= bb < nb && bb != b
          ensures ImageHolds(target, bb, Done(labels, b, next, bb), head)
        {
          assert old@before(ImageHolds(target, bb, Done(labels, b, n, bb), head));
          assert Done(labels, b, next, bb) == Done(labels, b, n, bb);
        }
      }
      assert rows[..|rows|] == rows;
      ghost var b' := b + 1;
      forall bb | 0 <= bb < nb
        ensures ImageHolds(target, bb, Before(labels, b', bb), head)
      {
        assert Done(labels, b, |rows|, bb) == Before(labels, b', bb);
      }
    }
    forall bb | 0 <= bb < nb
      ensures ImageHolds(target, bb, labels[bb], head)
    {
      assert Before(labels, nb, bb) == labels[bb];
    }
  }
}
