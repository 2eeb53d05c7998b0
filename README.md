# YOLOv5 general utilities — a Dafny model

This project models the numerical core of `utils/general.py` from a YOLOv5 fork, in Dafny. It covers:

- **Box geometry:** corner and centre conversions, clipping, and mapping letterboxed coordinates back to the original image.
- **Overlap measures:** `bbox_iou` with IoU, GIoU and DIoU, and the pairwise `box_iou` and `wh_iou` matrices.
- **Training targets:** the assignment in `build_targets`, including the shape filter and the neighbouring-cell rule.
- **Loss bookkeeping:** the parts of `compute_loss` that are not floating-point criteria. These are the decoding ranges, the objectness target tensor, the one-hot class targets, the per-level balance and the final scaling.
- **Non-maximum suppression:** the code before and after the `torchvision` call, with the call itself replaced by an oracle parameter.
- **Detection metrics:** `compute_ap` (101-point interpolation and the continuous sum) and `ap_per_class`.
- **Anchor checks:** the best-possible-recall check of `check_anchors`, the anchor/stride ordering of `check_anchor_order`, and the anchor replacement in between.
- **Small helpers:** `make_divisible`, `check_img_size`, `smooth_BCE` and `labels_to_class_weights`.

All arithmetic is exact `real` arithmetic. Tensors are sequences, or an `array` where the source writes into one in place. The one stateful object, the `Detect` layer's anchor buffers, is a class.

Modules, one per file:

| module | contents |
|---|---|
| `RealMath` | `Max`, `Min`, `Clamp`, `Frac`, `Trunc` (truncation toward zero, as `.long()` does), `Sign`, `Sum` and the product/quotient facts the proofs share |
| `Wrappers` | `Option` and `Result` |
| `Boxes` | box datatypes, `xyxy2xywh`/`xywh2xyxy`, `clip_coords`, `scale_coords` |
| `Iou` | `bbox_iou` (plain, generalized, distance), `box_iou`, `wh_iou` |
| `ShapeMatch` | the width/height ratio test shared by `build_targets`, `check_anchors`'s `metric` and `kmean_anchors`'s `metric` |
| `Targets` | `build_targets` |
| `Loss` | `compute_loss` |
| `Nms` | `non_max_suppression` |
| `Metrics` | `compute_ap`, `ap_per_class` |
| `Anchors` | `check_anchor_order`, `check_anchors`, the `Detect` layer's anchor state |
| `Helpers` | `make_divisible`, `check_img_size`, `smooth_BCE`, `labels_to_class_weights` |

## Model

| member | source | states |
|---|---|---|
| Boxes.XyxyToXywh | utils/general.py:179-186 | each box becomes its centre, width and height; a corner box is well formed exactly when its width and height are non-negative |
| Boxes.XywhToXyxy | utils/general.py:189-196 | each centre box becomes its corners; the corners are ordered exactly when width and height are non-negative |
| Boxes.CornersRoundTrip | utils/general.py:179-196 | corners → centre → corners returns every box unchanged |
| Boxes.CentersRoundTrip | utils/general.py:179-196 | centre → corners → centre returns every box unchanged |
| Boxes.ClipBox | utils/general.py:215-220 | one box clamped to the image: x to [0, width], y to [0, height]; `Boxes.ClipBoxInImage` shows the result is inside, boxes inside are unchanged, and clipping is idempotent |
| Boxes.ClipBoxInImage | utils/general.py:215-220 | a clipped box lies inside the image; a box already inside is unchanged; clipping is idempotent |
| Boxes.ClipCoords | utils/general.py:215-220 | clamps every box of the array in place to the image; afterwards every box is inside it and boxes already inside are untouched |
| Boxes.LetterboxParams | utils/general.py:199-206 | without a given ratio/pad, the gain is the smaller of the two side ratios and the padding centres the scaled image on both axes; a given ratio/pad is used as is |
| Boxes.Letterbox | utils/general.py:199-210 | the forward map that lines 208-210 undo (times the gain, plus the padding); `Boxes.LetterboxRoundTrip` shows the two maps invert each other |
| Boxes.LetterboxRoundTrip | utils/general.py:207-210 | removing the padding and dividing by the gain inverts letterboxing, in both orders |
| Boxes.ScaleBox | utils/general.py:199-212 | one row of scale_coords: unpad, divide by the gain, clip; `Boxes.ScaleBoxRecovers` puts the result inside the original image and recovers a letterboxed box exactly |
| Boxes.ScaleBoxRecovers | utils/general.py:199-212 | a rescaled box lies inside the original image, and a box inside the original image that was letterboxed is recovered exactly |
| Boxes.ScaleCoords | utils/general.py:199-212 | rewrites the coordinate array in place with every box unletterboxed and clipped, and returns that same array |
| Iou.BBoxIou | utils/general.py:329-351 | plain IoU, GIoU or DIoU of one box pair; `Iou.PlainIouBounds` puts IoU in [0, 1), `Iou.GeneralizedIouBounds` and `Iou.DistanceIouBounds` put GIoU and DIoU in (-1, IoU], and `Iou.WellFormedDefined` shows every division is defined for well-formed boxes |
| Iou.InterBounds | utils/general.py:329-331 | the intersection area of two well-formed boxes is non-negative and at most either box's area |
| Iou.WellFormedDefined | utils/general.py:333-351 | for well-formed boxes the union (with its 1e-16), the union minus the intersection and the enclosing area are all at least 1e-16, so no IoU variant divides by zero |
| Iou.PlainIouBounds | utils/general.py:329-338 | plain IoU of well-formed boxes lies in [0, 1); it is strictly below 1 because of the 1e-16 in the union |
| Iou.DisjointIouZero | utils/general.py:329-338 | boxes that do not overlap on one axis have IoU 0 |
| Iou.HullCoversUnion | utils/general.py:336-341 | the enclosing box's area is at least the union of the two boxes |
| Iou.GeneralizedIouBounds | utils/general.py:340-344 | GIoU lies in (-1, IoU] |
| Iou.CentersWithinDiagonal | utils/general.py:347-350 | the squared centre distance is below the squared diagonal of the enclosing box (plus 1e-16) |
| Iou.DistanceIouBounds | utils/general.py:347-351 | DIoU lies in (-1, IoU] |
| Iou.BoxIou | utils/general.py:361-383 | the pairwise IoU matrix without the epsilon; `Iou.BoxIouBounds` puts every entry in [0, 1] and `Iou.BoxIouSelf` gives 1 for a box of positive area against itself |
| Iou.BoxIouSelf | utils/general.py:374-383 | a box with positive area has IoU 1 with itself |
| Iou.BoxIouBounds | utils/general.py:374-383 | entries of the pairwise matrix lie in [0, 1] and bound the epsilon version of bbox_iou from above |
| Iou.WhIou | utils/general.py:386-391 | the pairwise shape-IoU matrix; `Iou.WhIouIsCornerAlignedBoxIou` equates each entry to box IoU of corner-aligned boxes and `Iou.WhIouOneIffSameShape` shows it is 1 exactly for equal shapes |
| Iou.WhIouIsCornerAlignedBoxIou | utils/general.py:386-391 | wh_iou equals box_iou of the two shapes placed at the same corner |
| Iou.WhIouOneIffSameShape | utils/general.py:386-391 | for positive shapes wh_iou lies in (0, 1] and equals 1 exactly when the shapes are equal |
| ShapeMatch.AxisRatio | utils/general.py:87-88 | min(r, 1/r) of one axis lies in [0, 1] |
| ShapeMatch.RatioMetric | utils/general.py:87-88 | the worse axis of the pair lies in [0, 1] |
| ShapeMatch.AxisFitsIffRatio | utils/general.py:833-834 | `max(r, 1/r) < thr` on one axis holds exactly when `min(r, 1/r) > 1/thr` |
| ShapeMatch.FitsIffMetric | utils/general.py:86-89 | the target-assignment shape test and the anchor-check metric accept exactly the same pairs |
| ShapeMatch.MetricRow | utils/general.py:86-88 | one metric per anchor for a label; `ShapeMatch.BestIffSomeAnchorFits` and `ShapeMatch.CountAboveCountsFits` state what its maximum and its count above 1/thr mean |
| ShapeMatch.MaxOf | utils/general.py:89 | the maximum of a row bounds every entry and is attained |
| ShapeMatch.CountAbove | utils/general.py:90 | the count of entries above a threshold is at most the row length |
| ShapeMatch.KmeanMetric | utils/general.py:1098-1102 | the label×anchor metric matrix with each label's best value; `ShapeMatch.BestCountIsCovered` and `ShapeMatch.RowCountsArePairs` relate it to the fitting labels and pairs |
| ShapeMatch.BestIffSomeAnchorFits | utils/general.py:89-91 | a label's best metric beats 1/thr exactly when some anchor passes the shape test |
| ShapeMatch.CountAboveCountsFits | utils/general.py:90 | counting row entries above 1/thr counts the fitting anchors |
| ShapeMatch.CheckAnchorsMetric | utils/general.py:86-92 | the metric is absent exactly when there are no labels (a mean over zero labels) |
| ShapeMatch.BestCountIsCovered | utils/general.py:89-91 | the labels with best metric above 1/thr are the labels some anchor fits |
| ShapeMatch.RowCountsArePairs | utils/general.py:90 | summing the per-label counts counts fitting (label, anchor) pairs |
| ShapeMatch.CheckAnchorsMetricCounts | utils/general.py:86-92 | BPR is the fraction of labels some anchor fits; anchors-above-threshold is the number of fitting pairs per label |
| ShapeMatch.CheckAnchorsMetricBounds | utils/general.py:86-92 | BPR lies in [0, 1] and anchors-above-threshold in [0, number of anchors] |
| Targets.Replicate | utils/general.py:808-811 | the targets repeated once per anchor, anchor-major, each tagged with its anchor; `Targets.ReplicateLayout` gives the length and the row at each position |
| Targets.ReplicateLayout | utils/general.py:808-811 | the replicated table has na·nt rows, and row a·nt + k is target k tagged with anchor a |
| Targets.Block | utils/general.py:808-811 | one copy of every target, tagged with one anchor index |
| Targets.GridRows | utils/general.py:822-824 | every target row is multiplied by the level's grid gain |
| Targets.FilterFits | utils/general.py:833-843 | keeps exactly the rows whose shape passes the ratio test against their own anchor |
| Targets.FilterFitsIndexed | utils/general.py:833-843 | `t[j]` keeps the rows at the ascending positions where the shape mask holds: there are as many rows as positions, and kept row k is input row ps[k] |
| Targets.Expand | utils/general.py:849-885 | the assignments of one direction; `Targets.ExpandIndexed` gives their number and order, `Targets.ExpandMembership` says which rows they come from |
| Targets.Kept | utils/general.py:826-843 | the kept rows carry anchor indices within the level's anchors |
| Targets.ReplicateMembership | utils/general.py:808-811 | a row is in the replicated table exactly when it is some target tagged with some anchor below na (`Targets.ReplicateLayout` gives the counts) |
| Targets.GridRowsMembership | utils/general.py:808-824 | after scaling, the rows are exactly the grid-scaled (target, anchor) candidates |
| Targets.KeptMembership | utils/general.py:826-843 | the kept rows are exactly the candidates whose shape fits their anchor |
| Targets.ExpandMembership | utils/general.py:849-885 | an assignment comes from a direction exactly when that direction selects a kept row |
| Targets.ExpandIndexed | utils/general.py:849-885 | `t.repeat((5, 1, 1))[j]` for one direction: as many assignments as rows the direction selects, and assignment k is the assignment of the k-th selected row, in row order |
| Targets.AllDirectionsMembership | utils/general.py:849-885 | the five offsets together emit exactly the (row, direction) pairs the masks select |
| Targets.AssignmentMembership | utils/general.py:819-912 | an assignment is produced for a level exactly when some target and anchor fit and some selected direction yields it |
| Targets.AssignmentSound | utils/general.py:819-912 | every produced assignment comes from a fitting target, anchor and selected direction |
| Targets.AssignmentComplete | utils/general.py:819-912 | every fitting target, anchor and selected direction is produced |
| Targets.NoTargetsNoAssignments | utils/general.py:826-885 | with no targets a level gets no assignments |
| Targets.UnfitTargetContributesNothing | utils/general.py:833-843 | a target no anchor of the level fits changes nothing at that level |
| Targets.Selected | utils/general.py:850-854 | the five direction masks; `Targets.HorizontalCells` and `Targets.VerticalCells` show left and right (up and down) never both hold and which neighbour each picks, and `Targets.HalfwayOnlyOrigin` that a centre mid-cell selects only the origin |
| Targets.CellBelow | utils/general.py:850-853 | for a centre in the left/lower half of its cell, away from the border, `(gxy - 0.5).long()` is the neighbouring cell below |
| Targets.CellAbove | utils/general.py:850-853 | for a centre in the right/upper half, `(gxy + 0.5).long()` is the neighbouring cell above, or the same cell on an exact grid line |
| Targets.HorizontalCells | utils/general.py:849-895 | origin, up and down keep the centre column; left picks the column before and right the column after, and never both |
| Targets.VerticalCells | utils/general.py:849-895 | origin, left and right keep the centre row; up picks the row before and down the row after, and never both |
| Targets.HalfwayOnlyOrigin | utils/general.py:852-854 | a centre exactly in the middle of its cell is assigned to its own cell only |
| Targets.AxisCell | utils/general.py:879-895 | the chosen cell index places the centre at offset in (-0.5, 1.5) |
| Targets.Assign | utils/general.py:891-912 | the five outputs for one selected row; `Targets.AssignWellPlaced` puts its offsets in (-0.5, 1.5) and `Targets.AssignInGrid` its cell in the grid |
| Targets.AssignWellPlaced | utils/general.py:891-901 | each assignment's box offset lies in (-0.5, 1.5) on both axes |
| Targets.AssignmentWellPlaced | utils/general.py:891-901 | every assignment a level produces has offsets in (-0.5, 1.5) |
| Targets.ScaleAssignments | utils/general.py:826-912 | one level's assignments in the source's order; `Targets.AssignmentMembership`, `Targets.AssignmentSound` and `Targets.AssignmentComplete` say which there are, `Targets.NoTargetsNoAssignments` covers the `else` branch |
| Targets.ScaleAssignmentsWellPlaced | utils/general.py:891-901 | the same, for every member of the computed assignment list |
| Targets.AssignInGrid | utils/general.py:895-901 | a selected neighbour cell of an in-grid centre is itself in the grid |
| Targets.AssignmentInGrid | utils/general.py:822-901 | for normalised targets every emitted cell index lies inside the grid |
| Targets.ScaleAssignmentsInGrid | utils/general.py:822-901 | the same, for every member of the computed assignment list |
| Targets.IndicesOf | utils/general.py:906-907 | the (image, anchor, gj, gi) tuple of every assignment; `Targets.BuildTargets` makes the output this field of each level's assignments, and `Targets.AssignmentInGrid` keeps the cells in the grid |
| Targets.TboxOf | utils/general.py:908-909 | the box offsets and sizes of every assignment; `Targets.AssignmentWellPlaced` puts the offsets in (-0.5, 1.5) |
| Targets.TtarOf | utils/general.py:910 | the unshifted targets of every assignment; `Targets.AssignmentSound` and `Targets.AssignmentComplete` say which targets occur |
| Targets.AnchorsOf | utils/general.py:911 | the anchor shape of every assignment; `Targets.AssignmentSound` shows each is an anchor the target fits |
| Targets.ClassesOf | utils/general.py:912 | the class of every assignment; `Targets.AssignmentSound` traces each back to its target |
| Targets.ScaleStep | utils/general.py:819-912 | one level of the loop computes exactly that level's assignment list |
| Targets.BuildTargets | utils/general.py:799-914 | for every level, the five outputs are the fields of exactly that level's assignment list |
| Loss.DecodeXY | utils/general.py:756 | the decoded centre offset `2σ - 0.5` lies in (-0.5, 1.5) |
| Loss.DecodeXYOnto | utils/general.py:756 | every offset in (-0.5, 1.5) is decoded from exactly one sigmoid value |
| Loss.TargetOffsetsDecodable | utils/general.py:756 | every target offset `build_targets` emits can be produced by the decoder |
| Loss.DecodeWH | utils/general.py:757 | the decoded size `(2σ)² · anchor` lies in (0, 4·anchor) |
| Loss.AxisDecodable | utils/general.py:757 | with thr ≤ 4, a target side that fits the anchor is strictly inside the decoder's range |
| Loss.KeptShapeDecodable | utils/general.py:757 | the two-axis version: every kept target shape can be decoded from its anchor |
| Loss.ObjValue | utils/general.py:764 | the objectness target lies in [1 - gr, 1]; it is 1 for gr = 0 and the clamped IoU for gr = 1 |
| Loss.ObjValueMonotone | utils/general.py:764 | the objectness target does not decrease as the IoU grows |
| Loss.ObjValues | utils/general.py:764 | one objectness value per match; `Loss.ObjValueMonotone` and `Loss.ObjectnessTargetMeaning` state what they are and where they land |
| Loss.Scatter | utils/general.py:764 | indexed assignment keeps the buffer length; of duplicate writes the model applies them in write order (torch leaves the winner unspecified) |
| Loss.ScatterUntouched | utils/general.py:747-764 | a cell that no assignment writes keeps its value |
| Loss.ScatterLastWins | utils/general.py:764 | under the model's write order, a cell written several times holds its last write |
| Loss.ScatterSomeWrite | utils/general.py:764 | a cell that some write names holds the value of one of the writes naming it, whichever wins |
| Loss.ScatterRange | utils/general.py:747-764 | writes within [lo, hi] into zeros leave every cell 0 or within [lo, hi] |
| Loss.Zeros | utils/general.py:747 | the zero-initialised objectness target; `Loss.ObjectnessTargetMeaning` shows unmatched slots stay 0 |
| Loss.ObjectnessTarget | utils/general.py:747-764 | fills a fresh array with zeros and writes the objectness targets at the matched cells, in order |
| Loss.ObjectnessTargetMeaning | utils/general.py:747-764 | an unmatched cell holds 0; a matched cell holds the objectness of one of its matches (the last one under the model's write order); every cell is 0 or within [1 - gr, 1] |
| Loss.FlatIndexMeaning | utils/general.py:764 | (image, anchor, gj, gi) indexing is in range, and two tuples hit the same cell exactly when they are equal |
| Loss.ClassTargets | utils/general.py:768-769 | one target per class |
| Loss.ClassTargetsMeaning | utils/general.py:732-769 | the labelled class gets the positive smoothed target and every other class the negative one; with eps = 0 the row sums to 1 |
| Loss.BoxTerms | utils/general.py:749-760 | one box term per level |
| Loss.ClsTerms | utils/general.py:767-770 | one class term per level |
| Loss.ObjTerms | utils/general.py:776 | one balanced objectness term per level |
| Loss.Composed | utils/general.py:778-786 | the returned loss and breakdown; `Loss.ComposedTotal` shows the last entry is the sum of the three losses and the loss is that sum times the batch size, `Loss.ThreeScalesUnscaled` fixes the balance and the scaling for three outputs |
| Loss.ComputeLoss | utils/general.py:740-786 | no outputs and more than four outputs are errors; otherwise the result is the composed loss of the levels |
| Loss.PrefixTerms | utils/general.py:744-776 | adding a level adds its box and class terms only when it has matches (class terms only above one class), and always its balanced objectness term |
| Loss.ComposedTotal | utils/general.py:785-786 | the breakdown's last entry is the sum of the three losses, and the returned loss is that sum times the batch size |
| Loss.ThreeScalesUnscaled | utils/general.py:742-782 | with three outputs the balance is 4.0, 1.0 and 0.4 and the output-count scaling is 1 |
| Loss.SingleClassNoClassLoss | utils/general.py:767 | with at most one class the class loss is 0 |
| Loss.UnmatchedScaleOnlyObjectness | utils/general.py:749-776 | a level without matches contributes only its objectness term |
| Nms.ConfFilter | utils/general.py:927-945 | keeps exactly the predictions whose objectness exceeds `conf_thres`; the result is empty exactly when none does |
| Nms.Scores | utils/general.py:948 | the obj × cls scores; `Nms.RowDetsMembership` and `Nms.MultiLabelIndexed` state which of them become detections |
| Nms.Above | utils/general.py:955 | the class indices whose score exceeds the threshold |
| Nms.RowDets | utils/general.py:954-956 | one detection per class whose score exceeds the threshold |
| Nms.RowDetsMembership | utils/general.py:954-956 | a row's detections are exactly its classes scoring above the threshold, with those scores |
| Nms.MultiLabel | utils/general.py:954-956 | the multi-label detection matrix; `Nms.MultiLabelIndexed` and `Nms.MultiLabelMembership` give one row per (box, class) pair above the threshold, in row-major order |
| Nms.MultiLabelMembership | utils/general.py:954-956 | a (box, class) detection is emitted exactly when its score exceeds the threshold |
| Nms.MultiLabelSound | utils/general.py:954-956 | every multi-label row is some box with some class scoring above the threshold, with that score |
| Nms.MultiLabelComplete | utils/general.py:954-956 | every (box, class) pair scoring above the threshold yields a multi-label row |
| Nms.LabelPairsIncreasing | utils/general.py:955 | the (row, class) pairs from `nonzero()` are strictly increasing in row-major order, so none repeats |
| Nms.LabelPairsMembership | utils/general.py:955 | a (row, class) pair is listed exactly when its score exceeds the threshold |
| Nms.MultiLabelIndexed | utils/general.py:955-956 | multi-label row k is the detection of the k-th listed pair, so there is exactly one row per qualifying (box, class) pair |
| Nms.ArgMax | utils/general.py:958 | returns the first index attaining the maximum score |
| Nms.BestClass | utils/general.py:957-959 | the best-class detection matrix; `Nms.BestClassIndexed` and `Nms.BestClassMembership` give one row per box whose top score exceeds the threshold, in box order |
| Nms.BestClassMembership | utils/general.py:957-959 | a detection is emitted exactly for a box whose top score exceeds the threshold, with that score and the first class reaching it |
| Nms.BestRowsAscending | utils/general.py:958-959 | the kept row numbers are strictly increasing, so no box appears twice |
| Nms.BestRowsMembership | utils/general.py:958-959 | a row is kept exactly when its top score exceeds the threshold |
| Nms.BestClassIndexed | utils/general.py:958-959 | best-class row k is the detection of the k-th kept row, so there is exactly one row per box whose top score exceeds the threshold |
| Nms.Allowed | utils/general.py:962-963 | keeps exactly the detections of the requested classes; an empty request keeps all |
| Nms.Candidates | utils/general.py:941-972 | None when no prediction survives the filters, otherwise the detection matrix; `Nms.CandidatesMeaning` and `Nms.NoneBelowThreshold` state what survives |
| Nms.CandidatesMeaning | utils/general.py:941-963 | every candidate has confidence above the threshold and, when classes are requested, one of them |
| Nms.NoneBelowThreshold | utils/general.py:941-945 | an image whose predictions all fall below the threshold yields no detections |
| Nms.OffsetBoxes | utils/general.py:978-979 | each box shifted by its class times 4096, or not at all when agnostic; `Nms.OffsetSeparatesClasses` and `Nms.AgnosticKeepsBoxes` state what the shift achieves |
| Nms.OffsetSeparatesClasses | utils/general.py:978-979 | boxes within [0, 4096] of different classes do not overlap after the shift |
| Nms.AgnosticKeepsBoxes | utils/general.py:978 | agnostic mode keeps the boxes as they are |
| Nms.Confs | utils/general.py:979 | the scores handed to the suppression call; `Nms.ImageDetectionsMeaning` states what is kept from them |
| Nms.Cap | utils/general.py:981-982 | keeps the first min(n, 300) kept indices, in order |
| Nms.OverlapCount | utils/general.py:985-989 | the number of boxes above the IoU threshold is at most the number of boxes |
| Nms.Weights | utils/general.py:986 | one merge weight per box |
| Nms.WeightsNonNegative | utils/general.py:986 | with positive scores the weight sum is non-negative |
| Nms.MergedBox | utils/general.py:986-987 | the score-weighted mean of the boxes a kept box overlaps; `Nms.RedundantWeightPositive` shows the weight sum is positive for every box the redundancy filter keeps |
| Nms.RedundantWeightPositive | utils/general.py:986-989 | a kept box that overlaps at least one box has a positive weight sum, so the merge divides by a positive number |
| Nms.MergeOutput | utils/general.py:983-989 | merge mode outputs at most one detection per kept index; `Nms.MergeOutputIndexed` says exactly which, in which order |
| Nms.MergeOutputMeaning | utils/general.py:983-989 | every merged detection carries the confidence and class of a kept candidate whose box overlaps at least two candidate boxes |
| Nms.Merged | utils/general.py:987 | a kept candidate with its merged box keeps its confidence and class |
| Nms.RedundantMask | utils/general.py:989 | the mask `iou.sum(1) > 1`: entry k holds exactly when kept box k overlaps more than one box |
| Nms.MergedAll | utils/general.py:987 | every kept candidate with its merged box, in kept order |
| Nms.MergeOutputIndexed | utils/general.py:983-989 | merge mode outputs exactly the kept candidates at the ascending positions where the redundancy mask holds, in kept order, each with its merged box |
| Nms.Select | utils/general.py:994 | the kept rows in the oracle's order; `Nms.ImageDetectionsMeaning` bounds their number and their confidences |
| Nms.ImageDetections | utils/general.py:938-994 | what one image stores; `Nms.ImageDetectionsMeaning` bounds the count by 300 and every confidence and class |
| Nms.ImageDetectionsMeaning | utils/general.py:938-994 | an image yields at most 300 detections, each above the threshold and of a requested class |
| Nms.NonMaxSuppression | utils/general.py:917-998 | one result per image: the image's detections if the loop reached it before the time limit hit, otherwise None |
| Metrics.PadRecall | utils/general.py:297 | the recall curve gets 0 in front and min(last + 0.001, 1) behind; `Metrics.PaddedNonDecreasing` keeps it non-decreasing |
| Metrics.PadPrecision | utils/general.py:298 | the precision curve gets 0 in front and 0 behind; `Metrics.PaddedWithin` keeps it in [0, 1] |
| Metrics.Envelope | utils/general.py:301 | the reversed running maximum; `Metrics.EnvelopeNonIncreasing` and `Metrics.EnvelopeShape` state its shape and bounds |
| Metrics.EnvelopeNonIncreasing | utils/general.py:301 | the envelope never increases |
| Metrics.EnvelopeShape | utils/general.py:297-301 | the padded envelope never increases, lies above the padded precision, ends in 0 and stays in [0, 1] for precisions in [0, 1] |
| Metrics.Interp | utils/general.py:307 | `np.interp` at one point; `Metrics.InterpBounds` keeps the value within the sampled values and `Metrics.SegmentUnique` shows the segment is unique for sorted sample points |
| Metrics.Segment | utils/general.py:307 | the interpolation segment containing x |
| Metrics.SegmentUnique | utils/general.py:307 | for non-decreasing sample points that segment is the only one |
| Metrics.InterpBounds | utils/general.py:307 | interpolated values stay within the bounds of the sampled values |
| Metrics.Linspace | utils/general.py:306 | the 101 points k/100; `Metrics.TrapzBounds` bounds the integral taken over them |
| Metrics.TrapzTerms | utils/general.py:307 | one trapezoid per interval |
| Metrics.Curve | utils/general.py:306-307 | 101 interpolated precision values |
| Metrics.Widths | utils/general.py:309-310 | the recall steps times the envelope; `Metrics.WidthsBounds` bounds their sum by the recall range and `Metrics.ContinuousAllSteps` relates them to the change points |
| Metrics.ComputeAp | utils/general.py:297-307 | 101-point AP; `Metrics.ComputeApBounds` puts it in [0, 1] and `Metrics.PerfectDetectorAp` gives 0.995 for a perfect detector |
| Metrics.ContinuousAp | utils/general.py:297-310 | continuous AP; `Metrics.ContinuousApBounds` puts it in [0, 1] and `Metrics.ContinuousAllSteps` shows skipping the unchanged-recall steps changes nothing |
| Metrics.ComputeApBounds | utils/general.py:297-307 | 101-point AP lies in [0, 1] for precisions in [0, 1] |
| Metrics.TrapzBounds | utils/general.py:307 | the trapezoid integral over [0, 1] of a curve in [0, 1] lies in [0, 1] |
| Metrics.ContinuousAllSteps | utils/general.py:309-310 | summing only the steps where recall changes equals summing all steps |
| Metrics.ContinuousApBounds | utils/general.py:297-310 | continuous AP lies in [0, 1] for a non-decreasing recall in [0, 1] |
| Metrics.PerfectDetectorAp | utils/general.py:297-310 | with precision 1 everywhere and final recall at least 0.99, 101-point AP is 0.995 and continuous AP equals the final recall |
| Metrics.CumTrue | utils/general.py:256 | running true-positive counts |
| Metrics.CumFalse | utils/general.py:255 | running false-positive counts |
| Metrics.CumTotal | utils/general.py:255-256 | at every rank the true and false counts add up to the rank |
| Metrics.CumTrueShape | utils/general.py:256 | the true-positive count never decreases, and equals the rank when every prediction is correct |
| Metrics.Recall | utils/general.py:259 | one recall per ranked prediction |
| Metrics.Precision | utils/general.py:263 | one precision per ranked prediction |
| Metrics.PrecisionMeaning | utils/general.py:255-263 | precision at rank k is true positives over k + 1, in [0, 1] |
| Metrics.RecallMeaning | utils/general.py:256-259 | recall is non-negative and non-decreasing along the ranking |
| Metrics.ArgSortDesc | utils/general.py:236 | an ordering of all prediction indices |
| Metrics.ArgSortSorts | utils/general.py:236 | that ordering is duplicate-free and sorts by decreasing confidence, so an order the metric code accepts always exists |
| Metrics.Picked | utils/general.py:247 | keeps exactly the ranked predictions of the class |
| Metrics.PickedDescending | utils/general.py:236-247 | the picked predictions stay in decreasing confidence |
| Metrics.CountEq | utils/general.py:248 | the number of labels of a class is 0 exactly when the class is absent |
| Metrics.Unique | utils/general.py:240 | the labels' classes, each once, in increasing order |
| Metrics.Column | utils/general.py:255-256 | the true-positive flags of one IoU threshold for the picked predictions; `Metrics.PrecisionMeaning` and `Metrics.RecallMeaning` state what precision and recall of a column are |
| Metrics.NegConf | utils/general.py:260 | the negated confidences np.interp is given; `Metrics.PickedDescending` makes them non-decreasing |
| Metrics.Row | utils/general.py:260-264 | a row of nt copies of a broadcast value; `Metrics.ClassResultMeaning` bounds the values broadcast |
| Metrics.ClassResult | utils/general.py:246-268 | one AP per IoU threshold |
| Metrics.ClassResultMeaning | utils/general.py:245-268 | precision and AP lie in [0, 1] and recall is non-negative; a class without labels or without predictions scores 0 everywhere |
| Metrics.PerfectClass | utils/general.py:251-268 | a class whose predictions all match and match every label gets AP 0.995 |
| Metrics.F1 | utils/general.py:281 | `2pr / (p + r + 1e-16)`; `Metrics.F1Meaning` puts it in [0, 1] and makes it 0 exactly when p or r is |
| Metrics.F1Meaning | utils/general.py:281 | F1 of a precision and recall in [0, 1] lies in [0, 1] and is 0 exactly when one of them is 0 |
| Metrics.ApPerClass | utils/general.py:223-283 | returns one row per class of the labels, in increasing class order, holding that class's precision, recall and AP, with F1 computed from them and all values in range |
| Metrics.Row2 | utils/general.py:245 | the zero-initialised per-class tables; `Metrics.ApPerClass` overwrites each row with its class result |
| Helpers.Ceil | utils/general.py:136 | the least integer not below r |
| Helpers.MakeDivisible | utils/general.py:134-136 | the ceiling of x / divisor times divisor; `Helpers.MakeDivisibleLeast` and `Helpers.MakeDivisibleMinimal` show it is the least multiple at or above x |
| Helpers.MakeDivisibleLeast | utils/general.py:134-136 | the result is a multiple of the divisor and lies in [x, x + divisor) |
| Helpers.MakeDivisibleMinimal | utils/general.py:134-136 | no multiple of the divisor that is at least x is smaller than the result |
| Helpers.MakeDivisibleFixed | utils/general.py:134-136 | a multiple of the divisor is returned unchanged |
| Helpers.MakeDivisibleIdempotent | utils/general.py:134-136 | applying it twice is the same as once |
| Helpers.CheckImgSize | utils/general.py:69-74 | the checked size is the least stride multiple at or above the requested size; it is the requested size exactly when that is already a multiple |
| Helpers.MakeDivisibleUnchanged | utils/general.py:69-74 | rounding leaves x alone exactly when x is a multiple, which is when the size warning is not printed |
| Helpers.SmoothBce | utils/general.py:424-426 | the positive and negative targets add up to 1 and differ by 1 - eps; eps = 0 gives (1, 0) |
| Helpers.SmoothBceUnique | utils/general.py:424-426 | those two equations determine the pair |
| Helpers.ClassSpan | utils/general.py:146 | one more than the largest label |
| Helpers.Bincount | utils/general.py:146 | counts per class with at least nc bins; `Helpers.CountOfPositive` and `Helpers.ClassWeightsMeaning` state what the counts mean for the weights |
| Helpers.CountOfPositive | utils/general.py:146 | a class that occurs is counted at least once |
| Helpers.Inverse | utils/general.py:152-153 | empty bins count as 1, so every weight is positive |
| Helpers.Normalise | utils/general.py:154 | each weight divided by the total; `Helpers.NormaliseSumsToOne` and `Helpers.NormalisedPositive` state the result is a positive distribution |
| Helpers.NormaliseSumsToOne | utils/general.py:154 | normalised weights sum to 1 |
| Helpers.NormalisedPositive | utils/general.py:153-154 | normalising keeps positive weights positive |
| Helpers.InverseOrder | utils/general.py:153 | a more frequent class gets a smaller inverse |
| Helpers.LabelsToClassWeights | utils/general.py:139-155 | an error without images or with unloaded labels, the empty tensor when the first image's labels are missing, otherwise the weights; `Helpers.ClassWeightsMeaning` states what the weights are |
| Helpers.ClassWeightsMeaning | utils/general.py:139-155 | with labels present, the weights are positive and sum to 1; there is one per class up to the largest label; rarer classes weigh at least as much; an absent class weighs as much as a class seen once |
| Anchors.Split | utils/general.py:104-105 | the flat anchor list becomes nl levels of na anchors each |
| Anchors.FlattenSplit | utils/general.py:104-105 | flattening the levels gives back the flat list |
| Anchors.SplitIndex | utils/general.py:104-105 | anchor j of level i is entry i·na + j of the flat list |
| Anchors.Reverse | utils/general.py:119-121 | `flip(0)` reverses the level order; `Anchors.ReverseKeepsAnchors` shows the same anchors remain |
| Anchors.ReverseKeepsAnchors | utils/general.py:119-121 | reversing the levels keeps the same set of anchors |
| Anchors.OrderedBy | utils/general.py:113-121 | the reordering keeps the number of levels |
| Anchors.PerStride | utils/general.py:105 | every anchor of each level is divided by that level's stride |
| Anchors.PerStrideConsistent | utils/general.py:105 | dividing by the strides makes `anchors · stride == anchor_grid` hold |
| Anchors.SortedSettles | utils/general.py:113-121 | with anchors sorted by area, one call leaves anchor and stride order agreeing, so a second call changes nothing |
| Anchors.AsWrittenBreaksConsistency | utils/general.py:104-106 | the replacement as written breaks `anchors · stride == anchor_grid` for two levels with strides 16 and 8 (see Findings) |
| Anchors.AsWrittenAgreesWithoutFlip | utils/general.py:104-106 | when no flip happens, the written and the corrected replacement agree |
| Anchors.ReplacedConsistent | utils/general.py:104-106 | the corrected replacement keeps `anchors · stride == anchor_grid` and installs exactly the candidate anchors |
| Anchors.CoveredSameAnchors | utils/general.py:89-91 | the covered-label count depends only on which anchors are present, not on their order |
| Anchors.ImprovesMeaning | utils/general.py:96-106 | a replacement happens only when the candidates cover strictly more labels, and the installed anchors have the candidates' BPR |
| Anchors.Detect.constructor | utils/general.py:105 | the layer starts with `anchors == anchor_grid / stride`, the relation line 105 sets up again |
| Anchors.Detect.CheckAnchorOrder | utils/general.py:113-121 | reverses both buffers when the area order and the stride order disagree, and otherwise leaves them alone; strides are unchanged |
| Anchors.Detect.ReplaceAnchorsAsWritten | utils/general.py:104-106 | installs the candidates into the grid, divides by the strides, then reorders both buffers, as the source does |
| Anchors.Detect.ReplaceAnchors | utils/general.py:104-106 | the corrected replacement: installs and reorders the grid, then derives `anchors` from it, so the two stay consistent |
| Anchors.Detect.ShouldReplace | utils/general.py:94-102 | for candidates of any non-zero number, decides replacement exactly when the current BPR is below 0.98 and the candidates' BPR is higher |
| Anchors.Detect.CheckAnchorsAsWritten | utils/general.py:94-109 | check_anchors as written: no replacement leaves both buffers unchanged; an improving candidate list that is not nl·na anchors long is an error (the `view_as` of line 104) with both buffers unchanged; otherwise the as-written replacement of lines 104-106 is installed |
| Anchors.Detect.CheckAnchors | utils/general.py:94-109 | the corrected check_anchors (see Findings): the same decision and the same error for an improving candidate list of the wrong length; when it replaces, `anchors · stride == anchor_grid` holds afterwards; otherwise both buffers are unchanged |

## Left out

- The BCE, Focal-loss and sigmoid criteria of `compute_loss` (lines 728-737, 759-776) use floating-point transcendental functions. Each level's box, class and objectness losses are inputs to `Loss.ComputeLoss`. The model covers what the loss is composed from and how it is composed, not the criteria's values.
- CIoU (lines 352-356) needs `atan`. `Iou.BBoxIou` models plain IoU, GIoU and DIoU only. `compute_loss` calls bbox_iou with CIoU, so that IoU is an input too.
- `torchvision.ops.boxes.nms` (line 980) is foreign code. It is the `Oracle` parameter of `Nms.NonMaxSuppression`. The only assumption about it is `OracleValid`: it returns distinct indices, each within the range of its input boxes (`OracleOk`).
- The clock of `non_max_suppression` (lines 936, 995-996) is `clock`, a parameter holding the elapsed times after each image.
- The fp16 cast (lines 923-924) and the `try/except` around merging (lines 984-992) are not modelled. The exception branch only prints.
- Nms.MergeOutput: when a kept box's weight sum is 0, the model keeps the unmerged box, where torch would produce NaN. `Nms.RedundantWeightPositive` shows the sum is positive whenever the redundancy filter keeps the box.
- Metrics.ApPerClass: `np.argsort` is not stable, so the order among equal confidences is unspecified. That order is the `order` parameter, which must satisfy `SortsDescending`. `Metrics.ArgSortSorts` shows that such an order exists for every input.
- Metrics.InterpBounds: the model states bounds only, not which segment `np.interp` uses, because one call can pass unsorted sample points. Line 260 passes `-conf`, which `Metrics.PickedDescending` makes non-decreasing (`Metrics.NegConf`). Line 307 passes `mrec`, which is unsorted when `recall[-1] > 1`: the sentinel min(recall[-1] + 0.001, 1) of line 297 is then below the last recall. The source never rules that out, since recall is `tpc / (n_gt + 1e-16)` and more true positives than labels is not excluded. numpy promises nothing for unsorted points. The model uses the same segment search there, and its value still lies within the sampled values' bounds.
- Metrics.ApPerClass requires `nt >= 1` (at least one IoU threshold), like the tables the source allocates. Nothing in the model depends on the value of `nt` beyond that.
- `plot_images`, `vis_bbox`, `vis_match`, all printing and file output are not part of this model.
- `kmean_anchors` itself (k-means, random mutation, dataset loading) is not modelled. Its candidate anchors are the parameter `k` of `Anchors.Detect.CheckAnchors`. Only its metric is modelled, as `ShapeMatch.KmeanMetric`.
- The division guards of `box_iou` and `wh_iou` have no epsilon (lines 383, 391). `Iou.BoxIou` and `Iou.WhIou` require non-zero denominators, which `Iou.BoxIouBounds` and `Iou.WhIouOneIffSameShape` discharge for boxes and shapes of positive area.
- Anchors.Detect.CheckAnchors installs the corrected replacement (`Anchors.Detect.ReplaceAnchors`), not lines 105-106 as written; `Anchors.Detect.CheckAnchorsAsWritten` is the as-written version (see Findings).
- Loss.Scatter, Loss.ScatterLastWins, Loss.ObjectnessTargetMeaning: when several matches name the same cell of `tobj` (line 764), torch's indexed assignment leaves the surviving value unspecified. The model chooses write order, so the last match wins. `Loss.ScatterUntouched`, `Loss.ScatterSomeWrite` and `Loss.ScatterRange` hold for any winner. So do the clauses of `Loss.ObjectnessTargetMeaning` saying that an unmatched cell is 0, that a matched cell holds one of its matches' values, and that every cell is 0 or within [1 - gr, 1].
- Anchors.Detect.ReplaceAnchorsAsWritten, Anchors.Detect.ReplaceAnchors, Anchors.Detect.ShouldReplace, Anchors.Detect.CheckAnchorsAsWritten, Anchors.Detect.CheckAnchors: require candidate anchors of positive width and height (`PositiveShapes(k)`). The source never checks this. A zero candidate side makes the ratio metric of lines 87-88 divide by zero, which is not modelled. In practice it holds. The mutated candidates are clipped to at least 2.0 (line 1169). The k-means centroids (line 1141) average label sizes with at least one side of 2 pixels or more (line 1136), so a centroid side is zero only when every label of its cluster has a zero side there.
- Anchors.Detect.ReplaceAnchorsAsWritten, Anchors.Detect.ReplaceAnchors: require exactly nl·na candidates. They model the assignment of lines 104-106, which `view_as` only allows for that length. scipy's `kmeans` (line 1141) can return fewer centroids, since it drops empty clusters. For that case `Anchors.Detect.CheckAnchors` and `Anchors.Detect.CheckAnchorsAsWritten` return `Err(ShapeMismatch)` when the candidates improve the BPR, and do not replace otherwise. An empty candidate list is not modelled: the metric of lines 86-91 fails on it in torch.
- Boxes.LetterboxParams: requires non-zero img0 dimensions when no ratio_pad is given; the source raises `ZeroDivisionError` there (line 207). That error path is not modelled.
- Boxes.ScaleCoords: requires the same, and a non-zero gain; with a zero gain from ratio_pad torch divides by zero (inf/nan), which is not modelled.
- Helpers.MakeDivisible: requires a positive divisor; divisor 0 raises `ZeroDivisionError` (line 135), which is not modelled. Helpers.CheckImgSize inherits this for stride 0.
- Nms.NonMaxSuppression: requires nc >= 1; with no class columns `x[:, 5:].max(1)` (line 958) fails in torch, which is not modelled.
- Integer widths, float rounding and tensor devices are not modelled. All arithmetic is exact.
- "AP of a perfect detector": the 101-point method gives 0.995, not 1. The trapezoid over the last interval meets the 0 that line 298 appends. The model follows the code (`Metrics.PerfectDetectorAp`).

## Findings

| source | as written | input that shows it | evidently intended | confidence | as-written member | corrected member |
|---|---|---|---|---|---|---|
| utils/general.py:104-106 | `anchors` is set to `anchor_grid / stride` before `check_anchor_order` runs. When that call finds the area order of `anchor_grid` disagreeing with the stride order, it reverses `anchors` and `anchor_grid` by level but leaves `stride` alone, so level i of `anchors` ends up as grid level n-1-i divided by the stride of level n-1-i, not of level i. | two levels with strides [16, 8] and candidate anchors 10×10 and 100×100 | `anchors · stride == anchor_grid` level by level, as `Detect` keeps it; reorder the grid first, then divide by the strides | medium, not executed | Anchors.AsWrittenBreaksConsistency | Anchors.ReplacedConsistent |

`Anchors.Detect.ReplaceAnchorsAsWritten` models the replacement as written and `Anchors.Detect.CheckAnchorsAsWritten` the check that calls it. `Anchors.Detect.ReplaceAnchors` is the corrected version, and `Anchors.Detect.CheckAnchors` uses it.
