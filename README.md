# YOLOv3 box utilities in Dafny

This project models the geometry and label-assignment core of the YOLOv3
`utils.py`, with proofs over exact real arithmetic. It covers four operations:

- `whToxy`: converts a centre-form box to corner form. `Geometry.WhToXy`
  takes an `AxisOrder`: `XFirst` is `reversed=False` and `YFirst` is
  `reversed=True`.
- `iou`: the corner-form intersection over union, `Geometry.Iou`.
- `preprocess_true_boxes`: ground-truth assignment, `Assignment.PreprocessTrueBoxes`.
  - It fills a fresh `array5<real>` of shape [B, H, W, A, 5 + num_cls] that starts at zero.
  - It writes each label row into the slot of its grid cell and its best anchor.
  - The loop body is split the way the source is split: `WriteLabel` is one
    row, `LocateCell` is lines 83 and 86-87, `WriteChannels` is lines 99-103,
    and `WriteClassFlag` is one step of the `for k` loop.
  - Every entry of the result is proved equal to `SlotValue`. That function
    says, for one slot and one channel, what the rows written in order leave there.
- `nms`: greedy non-maximum suppression, `Suppression.Nms`.
  - `Nms` makes the two entry checks, returns the empty result, sorts and sets
    the default budget.
  - The `while` loop of lines 145-166 is the method `Suppression.Suppress`,
    proved equal to the recursive function `Suppression.Greedy`.
  - `Greedy` works over a relation `keep(idx, r)`, "r survives suppression by
    idx". `Below(boxes, t)` is the relation `nms` uses, iou below the threshold.
    The lemmas about the selection hold for every relation satisfying
    `IouBelow`, and `Below` satisfies it.

`torch.sort` does not fix how equal scores are ordered. `Ordering.IsSortOrder`
therefore admits every order with each index exactly once and non-increasing
scores. `Nms` returns, as a ghost output, the order it used.
`Ordering.SortByScore` is one such order, an insertion sort.

Two facts about the source shape the model:

- Line 138 checks only that (x2 - x1) * (y2 - y1) > 0, so a box inverted on
  both axes is accepted. `Geometry.PositiveAreaCases` shows this, and
  `Geometry.IouSelfInverted` shows that such a box has iou 0 with itself.
- The break of lines 163-164 is redundant.
  `Suppression.EmptyMaskMeansNoSurvivors` proves that the mask sums to 0
  exactly when no index is left, and then the loop guard of line 145 fails.

## Model

| member | source | states |
|---|---|---|
| Geometry.WhToXy | utils.py:12-24 | In both modes the corner box has the input's width and height and the input's centre. In reversed mode the width is field 3, the height field 2 and the centre (field 1, field 0). |
| Geometry.WhToXySwapped | utils.py:14-18 | Reversed mode is the normal conversion of the box with its axes swapped, (box[1], box[0], box[3], box[2]). |
| Geometry.WhToXyOrdered | utils.py:12-24 | With non-negative extents, x1 <= x2 and y1 <= y2, in both modes. |
| Geometry.CenterCornerRoundTrip | utils.py:12-24 | Converting to corners and back with `XyToWh` gives the input box, in both modes. |
| Geometry.CornerCenterRoundTrip | utils.py:12-24 | Converting corners to centre form and back gives the corners, so the conversion is a bijection. |
| Geometry.Overlap | utils.py:35-40 | The clamped overlap on one axis is non-negative and at most either interval's clamped length. |
| Geometry.Intersection | utils.py:35-40 | `ins_area` is non-negative. |
| Geometry.Area | utils.py:137 | `area` of `nms`, (x2 - x1) * (y2 - y1). `Union` proves it equal to the (x1 - x2)(y1 - y2) product of lines 42-43. |
| Geometry.IntersectionSymmetric | utils.py:35-40 | The intersection does not depend on the order of the boxes. |
| Geometry.IntersectionWithinAreas | utils.py:35-45 | For two positive-area boxes, including inverted ones, the intersection is at most each area. |
| Geometry.Union | utils.py:41-45 | The sum of the (x1 - x2)(y1 - y2) products minus the intersection is area1 + area2 - intersection. For positive-area boxes it is at least each area. |
| Geometry.Iou | utils.py:31-48 | `iou` of one pair: the intersection over the union, defined where the union is not 0. Its properties are the lemmas below. |
| Geometry.PositiveAreaCases | utils.py:137-138 | The area guard holds exactly for boxes that are proper, or inverted on both axes. |
| Geometry.IouSymmetric | utils.py:31-48 | The union and the iou are symmetric in the two boxes. |
| Geometry.IouBounds | utils.py:31-48 | For positive-area boxes the iou lies in [0, 1]. |
| Geometry.IouSelf | utils.py:31-48 | A proper box has union equal to its area and iou 1 with itself. |
| Geometry.IouSelfInverted | utils.py:31-48 | A box inverted on both axes passes the area guard, yet its iou with itself is 0. |
| Geometry.IouDisjoint | utils.py:35-47 | Boxes that do not overlap on some axis have iou 0. |
| Geometry.IouExample | utils.py:31-48 | (0,0,10,10) against (5,5,15,15): intersection 25, union 175, iou 25/175. |
| Assignment.Trunc | utils.py:86-87 | `int()` truncates toward zero. On non-negative input it is the floor, and on negative input the ceiling. |
| Assignment.AnchorIou | utils.py:88-96 | The stabilised width/height iou of a label and an anchor lies in [0, 1), because of the 1e-8. |
| Assignment.Argmax | utils.py:97 | `np.argmax` returns an index holding the maximum. Every earlier index holds a strictly smaller value, so it is the first maximum. |
| Assignment.BestAnchor | utils.py:88-97 | `np.argmax` over `iou_scores` (one `AnchorIou` per anchor): the chosen anchor has maximal score among all anchors, and every smaller index has a strictly smaller score. |
| Assignment.CellOf | utils.py:83-87 | A centre in [0, 1) scaled by n and truncated is floor(u * n), and it is below n. |
| Assignment.SlotOf | utils.py:83-97 | The slot of a valid row is in range: i < H, j < W, a < A. |
| Assignment.SlotOfCell | utils.py:83-97 | The slot is (floor(box[0] * H), floor(box[1] * W), best anchor of (box[2], box[3])). |
| Assignment.SlotOfPrefix | utils.py:86-97 | The slot depends only on the first four fields of the row. |
| Assignment.CellExample | utils.py:83-87 | A centre of 0.5 on a 13 x 13 grid lands in cell (6, 6). |
| Assignment.SlotValue | utils.py:84-107 | What the rows of one image, written in order, leave at one slot and channel; objectness and class channels are always 0 or 1. `PreprocessTrueBoxes` proves every target entry equal to it. |
| Assignment.UnassignedSlotIsZero | utils.py:81 | A slot that no row maps to stays 0 in every channel. |
| Assignment.LastRowWins | utils.py:84-103 | Channels 0-4 of a slot hold the values of the last row that maps to it. |
| Assignment.ObjectnessMarksAssignedSlots | utils.py:103 | Channel 4 is 1 exactly at slots some row maps to, and 0 elsewhere. |
| Assignment.ClassFlagsAccumulate | utils.py:106-107 | Channel 5 + k is 1 exactly when some row mapping to the slot carries class id k. Flags of colliding rows accumulate. |
| Assignment.SlotValueSnoc | utils.py:84-107 | Writing one more row changes a slot exactly as lines 99-107 do: channels 0-4 are overwritten, the row's class flags are set, and the rest is unchanged. |
| Assignment.HasClassSnoc | utils.py:106-107 | Taking one more entry of `box[4:]` adds exactly that class id. |
| Assignment.LocateCell | utils.py:83-87 | The scaled centre divides back to the label's centre, and (i, j) is the row's cell. |
| Assignment.WriteChannels | utils.py:99-103 | After the five writes, image b holds the rows so far plus this row's first four fields. Other images are unchanged. |
| Assignment.ChannelsWritten | utils.py:99-103 | An image that differs from the earlier state only in channels 0-4 of the row's slot holds the rows plus the row's first four fields. |
| Assignment.WriteClassFlag | utils.py:106-107 | Setting the flag of class id m extends what image b holds by that one id. Other images are unchanged. |
| Assignment.WriteLabel | utils.py:85-107 | After one row, image b holds exactly the earlier rows plus this row, per `SlotValue`. Other images are unchanged. |
| Assignment.PreprocessTrueBoxes | utils.py:77-110 | The result is fresh and has shape [B, H, W, A, 5 + num_cls]. Every entry equals `SlotValue` of its image's rows at that slot and channel. The caller's labels are values and are not modified. |
| Ordering.Range | utils.py:139 | The sequence 0 .. n - 1. |
| Ordering.InsertByScore | utils.py:139 | Insertion adds exactly one occurrence of x. |
| Ordering.InsertKeepsOrder | utils.py:139 | Insertion keeps scores non-increasing. |
| Ordering.InsertKeepsDistinct | utils.py:139 | Inserting a new index keeps the indices distinct. |
| Ordering.SortPrefix | utils.py:139 | The indices 0 .. n - 1, distinct, a permutation of `Range(n)`, with non-increasing scores. |
| Ordering.SortByScore | utils.py:139 | The result is a sort order: every index exactly once, with non-increasing scores. |
| Ordering.SortOrderHeadIsMax | utils.py:139 | The head of a sort order has the maximal score. |
| Ordering.SortOrderUnique | utils.py:139 | With pairwise different scores there is exactly one sort order. |
| Ordering.PrefixesAgree | utils.py:139 | Two sort orders of pairwise different scores agree on every prefix. |
| Ordering.LargerInPrefix | utils.py:139 | An index with a larger score than position k comes before position k. |
| Suppression.PairIou | utils.py:154-159 | The iou that `nms` computes from `area` equals `iou` of lines 31-48 and lies in [0, 1]. |
| Suppression.Below | utils.py:160 | On positive-area boxes, `keep(i, j)` holds exactly when iou(i, j) < threshold. |
| Suppression.AllPositive | utils.py:137-138 | The guard of line 138: every box has positive area. |
| Suppression.CountTrue | utils.py:163 | The sum is at most the mask length, and it is 0 exactly when no entry is true. |
| Suppression.Select | utils.py:161 | Masked selection has as many entries as the mask has true entries. |
| Suppression.Survivors | utils.py:154-161 | The remaining indices that survive suppression by `idx`, in order, at most as many as remain. |
| Suppression.MaskedAreSurvivors | utils.py:154-161 | `remain_idx[keep_mask]`, i.e. `Select(remain, KeepMask(idx, remain, keep))`, is exactly `Survivors(idx, remain, keep)`: the kept remaining indices, in order. |
| Suppression.SurvivorsMembers | utils.py:160-161 | A survivor is a remaining index that is kept, and conversely. |
| Suppression.SurvivorsPrecedes | utils.py:161 | Masking keeps the relative order of the survivors. |
| Suppression.SurvivorsAll | utils.py:160-161 | When every remaining index is kept, masking returns all of them. |
| Suppression.Greedy | utils.py:145-166 | The selection has at most as many entries as the input, and from a non-empty input it starts with the input's head. |
| Suppression.GreedyMembers | utils.py:145-166 | Only candidates are selected. |
| Suppression.GreedyPrecedes | utils.py:145-166 | The selection lists indices in the order of the candidate order. |
| Suppression.GreedyDistinct | utils.py:145-166 | Distinct candidates give distinct selections. |
| Suppression.GreedyOrdered | utils.py:139-166 | Candidates in descending score order give a selection in descending score order. |
| Suppression.GreedyWithinBudget | utils.py:165-166 | The selection has at most max(1, budget) entries. The budget is checked after the append, so a budget of 0 still yields one index. |
| Suppression.GreedyNonOverlapping | utils.py:154-161 | Every selected index survives every index selected before it. |
| Suppression.GreedyCovers | utils.py:145-166 | If the budget did not end the loop, every candidate left out is suppressed by a selected index that precedes it in the candidate order. |
| Suppression.GreedyKeepsAll | utils.py:145-166 | Candidates that all survive each other are all selected, in order, when the budget allows it. |
| Suppression.EmptyMaskMeansNoSurvivors | utils.py:163-164 | The mask sums to 0 exactly when `indices` becomes empty, so the break of line 163 is redundant with the loop guard. |
| Suppression.SelectionSeparated | utils.py:154-161 | Every two different selected boxes have iou below the threshold. |
| Suppression.SelectionCovers | utils.py:145-161 | Without a budget cut, every index that is not selected has iou >= threshold with a selected index whose score is at least its own. |
| Suppression.SelectionFacts | utils.py:139-166 | The selection from a sort order meets `NmsOutput`. |
| Suppression.NmsOutput | utils.py:127-168 | What `nms` promises of its result: distinct indices of boxes, non-increasing scores led by a maximal one, at most N and at most max(1, max_output_size), pairwise iou below the threshold, and without a budget every dropped index covered by a selected one. |
| Suppression.RerunKeepsAll | utils.py:127-168 | Running the suppression again on the selected boxes and their scores, in any of their sort orders and with budget N + 1, keeps all of them. |
| Suppression.SeparatedKept | utils.py:160 | Two different positions of a separated selection survive each other. |
| Suppression.Suppress | utils.py:145-166 | The `while` loop, with `flag` counting selections, returns exactly `Greedy` of its candidate order and budget. |
| Suppression.DefaultBudget | utils.py:142-143 | Without `max_output_size` the budget is N + 1, more than can be selected. Otherwise it is the given value. |
| Suppression.Nms | utils.py:127-168 | It fails on a length mismatch or a non-positive area, returns [] on empty input, and otherwise returns `Greedy` of a sort order under `Below`, meeting `NmsOutput` (details after this table). |
| Suppression.ExampleIous | utils.py:154-159 | (0,0,10,10) against (1,1,11,11) has intersection 81, union 119 and iou 81/119. Against (50,50,60,60) it has iou 0. |
| Suppression.ExampleKeep | utils.py:160 | At threshold 0.5 box 0 suppresses box 1 but not box 2. |
| Suppression.GreedyOfThree | utils.py:145-166 | When the head suppresses the second candidate but not the third, the selection from [0, 1, 2] is [0, 2]. |
| Suppression.NmsExample | utils.py:127-168 | With scores 0.9, 0.8, 0.7 and threshold 0.5 the selection is [0, 2], for every admissible sort order. |

`Suppression.Nms` ensures the following:

- It fails with `LengthMismatch` on a length mismatch.
- It returns an empty result on empty input.
- It fails with `NonPositiveArea` when some box has area <= 0.
- Otherwise it succeeds. Its result is `Greedy` of a sort order of the scores
  under `Below`, with the default budget, and it meets `NmsOutput`:
  - distinct indices below N;
  - non-increasing scores, led by a maximal score;
  - at most N entries, and at most max(1, max_output_size);
  - pairwise iou below the threshold;
  - without a budget, coverage.

## Left out

- `get_classes` (utils.py:53-59): reads a text file, which is I/O.
- `preprocess_image`, `generate_colors` and `draw_boxes`: image loading,
  colours from the process random seed, and rendering. None of them is part
  of the geometry.
- Tensor plumbing:
  - `new_empty`, `torch.from_numpy`, `.to(device)` and `LongTensor`
    (utils.py:13, 109, 131, 168) are not modelled. The results are plain
    sequences and arrays.
  - Broadcasting over leading `...` dimensions is not modelled. `whToxy` and
    `iou` take one box or one pair, and `nms` takes a sequence of boxes.
- `warnings.warn` (utils.py:130) is a side effect with no bearing on the
  result, and is left out.
- Floating point: all arithmetic is over exact reals.
  - The 1e-8 of line 96 is the exact constant `Assignment.Eps`.
  - The `float32` rounding of the target and of `box[0] * H / H` is not
    modelled. `Assignment.ScaleBack` is exact.
- Geometry.Iou: requires a non-zero union. The source divides anyway and
  yields NaN or infinity, which exact reals cannot represent.
- Ordering.SortByScore: it is one admissible order. The tie order of
  `torch.sort` is not modelled; `Nms` is specified over any order that
  `IsSortOrder` admits.
- Monotonicity in the threshold is not stated. Greedy suppression does not
  have it.
- Assignment.PreprocessTrueBoxes: requires the inputs the code handles
  correctly:
  - label rows with at least 4 fields (the `reshape` of line 88 and the
    assert of line 104 fail otherwise);
  - centres in [0, 1) and non-negative sizes;
  - class ids in [0, num_cls), where numpy negative indexing would silently
    put a flag elsewhere;
  - a non-empty anchor list with non-negative sizes and a grid with cells.

  Rows are ragged sequences rather than one rectangular numpy array.
- Suppression.Nms: coverage (`Covered`) is stated only when `max_output_size`
  is not given. With an explicit budget the loop may stop early and leave
  indices uncovered. `Covered` asks for a covering selected index of at
  least the score. The stronger "one that precedes it in the sort order" is
  the lemma `GreedyCovers`.
- Suppression.RerunKeepsAll: it is stated for `Greedy` under any relation
  that meets `IouBelow` on the selected boxes. It is not stated as a second
  call of the `Nms` method.
