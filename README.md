# Class-wise detection scoring of 3D-RetinaNet, in Dafny

This project models the scoring engine of `modules/evaluation.py`. That module
turns detections and ground-truth annotations into per-class average precision
(AP) and its mean (mAP). It covers five layers:

- **Box overlap.** `compute_iou` and `compute_iou_dict` give the intersection
  over union (IoU) of a detection box with each ground-truth box.
- **Area under a precision/recall curve.** `voc_ap` has two metrics: the
  exact VOC area under the monotone precision envelope, and the VOC2007
  11-point sum. `pr_to_ap` is the trapezoid rule used for tubes.
- **Greedy matching.** Detections are visited by non-increasing score. Each
  one is a true positive when its frame or video still holds ground truth
  and the best IoU with that ground truth reaches the threshold. The first
  ground truth with that best IoU is then consumed.
- **Class filters.** `get_gt_of_cls`, `get_det_class_tubes`,
  `get_gt_class_tubes`, `get_det_class_frames` and `get_gt_class_frames`
  select one class's detections and ground truth.
- **Drivers.** `evaluate_detections` (per frame, with score/flag buffers and
  a cumulative-sum curve) and `evaluate` (over label types),
  `get_class_ap_from_scores` and `evaluate_ego`, and `compute_class_ap` with
  the per-class loop and mAP of `evaluate_tubes`.

Modules (one file each):

| file | module | models |
|---|---|---|
| `seqs.dfy` | `Seqs` | counting flags, removal by index, index permutations, sums and means |
| `ranking.dfy` | `Ranking` | `np.argmax` (first maximal index) and `np.argsort(-x)` (any non-increasing order) |
| `geometry.dfy` | `Geometry` | boxes, the clipped intersection, the union, IoU |
| `filters.dfy` | `Filters` | the class filters |
| `matching.dfy` | `Matching` | the greedy matching pass, specified as pure functions over pools of ground truth |
| `average_precision.dfy` | `AveragePrecision` | `voc_ap` and `pr_to_ap` |
| `curves.dfy` | `Curves` | the incremental precision/recall table of `compute_class_ap` and the cumulative-sum curve of `evaluate_detections` |
| `class_ap.dfy` | `ClassAp` | `compute_class_ap` and `get_class_ap_from_scores` |
| `evaluation.dfy` | `Evaluation` | `evaluate_detections`, `evaluate`, `evaluate_ego`, `evaluate_tubes` |

The loops of the source are modelled as methods with loops. Each method is
proved against a pure specification function: `Run` for the greedy pass,
`IncrementalCurve` for the table, and `Envelope` and `RecallStepArea` for
`voc_ap`. The properties of the source are proved about those functions.

`np.argsort` is not a stable sort. The sort is therefore specified only by
what it guarantees: every index once, keys non-increasing. Each driver
returns, as a ghost value, the order that the sort picked. Its results are
stated for that order, so they hold for any tie order.

Inputs that the source obtains from elsewhere become parameters:

- the tube IoU `get_tube_3Diou` is the parameter `tubeIou`;
- the detection-tube constructor `make_det_tube` is the parameter
  `makeDetTube`;
- the score field `det['score']` is the parameter `scoreOf`;
- the loaded annotation and detection files become arguments.

## Model

| member | source | states |
|---|---|---|
| Geometry.ComputeIoU | modules/evaluation.py:78-99 | one value per ground-truth box, in order, each the intersection over union with the detection; for well-formed boxes every value is in [0, 1] |
| Geometry.ComputeIoUDict | modules/evaluation.py:72-76 | the IoU of a detection's box with one ground-truth box, in [0, 1] for well-formed boxes |
| Geometry.IntersectionBounds | modules/evaluation.py:85-94 | the clipped intersection is non-negative and no larger than the area of either box |
| Geometry.IoUInUnitInterval | modules/evaluation.py:95-97 | when the union is non-zero the IoU of well-formed boxes lies in [0, 1] |
| Geometry.IoUOfIdentical | modules/evaluation.py:85-97 | a box with positive area has IoU exactly 1 with itself |
| Geometry.IoUOfSeparated | modules/evaluation.py:85-94 | boxes that do not overlap along one axis have IoU 0 (the `iw > 0 and ih > 0` guard) |
| Geometry.IoUSymmetric | modules/evaluation.py:85-97 | IoU does not depend on which box is the detection |
| Ranking.FirstArgMax | modules/evaluation.py:136 | `np.argmax`: an index holding the largest value, and every earlier index holds a strictly smaller value |
| Ranking.ArgSortDesc | modules/evaluation.py:153 | `np.argsort(-keys)`: a permutation of the indices along which the keys never increase |
| AveragePrecision.VocAp | modules/evaluation.py:19-50 | with `use_07_metric` the 11-point sum times 100, otherwise the exact envelope area times 100; in [0, 100] for a curve whose recall is non-decreasing in [0, 1] and whose precision is in [0, 1] |
| AveragePrecision.VocAp07 | modules/evaluation.py:25-33 | the sum over t = 0, 0.1, ..., 1 of the largest precision at recall at least t (0 when there is none), over 11, times 100; in [0, 100] when precision is in [0, 1] |
| AveragePrecision.CountAtLeast | modules/evaluation.py:29 | the count of recalls reaching t is zero exactly when every recall is below t |
| AveragePrecision.MaxAtLeast | modules/evaluation.py:32 | the value is the precision at some point with recall at least t, and no such point has a larger precision |
| AveragePrecision.ElevenPointSumBounds | modules/evaluation.py:28-33 | after k thresholds the running 11-point sum lies in [0, k/11] |
| AveragePrecision.PrecisionEnvelope | modules/evaluation.py:41-42 | the backward sweep leaves in every slot the maximum of the precisions from that slot on |
| AveragePrecision.EnvelopeProps | modules/evaluation.py:41-42 | the envelope is non-increasing and never below the precision it was built from |
| AveragePrecision.EnvelopeWithin | modules/evaluation.py:41-42 | the envelope keeps the bounds of its input |
| AveragePrecision.VocApExact | modules/evaluation.py:34-50 | 100 times the sum, over the points where the padded recall changes, of the recall step times the envelope precision after it; in [0, 100] for a valid curve |
| AveragePrecision.RecallStepAreaBounds | modules/evaluation.py:46-49 | for non-decreasing recall and precision in [0, 1] the area lies between 0 and the total recall gain |
| AveragePrecision.ExactAreaBounds | modules/evaluation.py:37-49 | with the sentinels 0 and 1 around a valid curve the area lies in [0, 1] |
| AveragePrecision.RecallStepAreaFull | modules/evaluation.py:46-49 | under an envelope that is 1 after the first point every recall step counts in full, so the area is the last recall minus the first |
| AveragePrecision.RecallStepAreaZero | modules/evaluation.py:46-49 | under an envelope that is 0 everywhere the area is 0 |
| AveragePrecision.PaddedAreaFull | modules/evaluation.py:34-49 | a curve with precision 1 throughout whose recall reaches 1 has exact VOC area 1 |
| AveragePrecision.PaddedAreaZero | modules/evaluation.py:34-49 | a curve with precision 0 throughout has exact VOC area 0 |
| AveragePrecision.PrToAp | modules/evaluation.py:53-62 | the sum over consecutive rows of the recall step times the mean of the two precisions, 0 for fewer than two rows; a table whose recall never changes encloses area 0 |
| AveragePrecision.TrapezoidBounds | modules/evaluation.py:59-62 | one trapezoid over a non-decreasing recall step is non-negative, and with precisions at most 1 it is at most the recall step |
| AveragePrecision.PrToApNonNegative | modules/evaluation.py:53-62 | the trapezoid sum of a table with non-decreasing recall and non-negative precision is non-negative |
| AveragePrecision.PrToApAtMostRecallGain | modules/evaluation.py:53-62 | that sum is at most the recall of the last row minus the recall of the first |
| Filters.Trunc | modules/evaluation.py:68 | Python `int()` on a float: truncation toward zero, for negative values too |
| Filters.GetGtOfCls | modules/evaluation.py:65-70 | the loop builds exactly the box part of the rows whose truncated label column equals the class, in row order |
| Filters.GtOfClsMembers | modules/evaluation.py:65-70 | a box is kept exactly when some row has that box and the class label |
| Filters.GtOfClsCount | modules/evaluation.py:65-70 | the number of kept boxes is the number of rows labelled with the class |
| Filters.GetGtClassTubes | modules/evaluation.py:259-266 | every video keeps an entry, holding its tubes of the class in order |
| Filters.GtClassTubesMembers | modules/evaluation.py:263-265 | a tube is kept for a video exactly when it is one of the video's tubes and has the class label |
| Filters.GetDetClassTubes | modules/evaluation.py:248-256 | the loop builds, video by video, a (video, detection tube) pair for each tube of the class |
| Filters.DetClassTubesMembers | modules/evaluation.py:248-256 | a pair is produced exactly when its video is listed and it comes from one of that video's tubes with the class label |
| Filters.GetGtClassFrames | modules/evaluation.py:380-389 | every frame keeps an entry, holding the boxes of its annotations that list the class, in order |
| Filters.BoxesOfClassMembers | modules/evaluation.py:384-386 | a box is kept for a frame exactly when one of the frame's annotations has that box and lists the class |
| Filters.GetDetClassFrames | modules/evaluation.py:369-377 | the loop builds, frame by frame, a (frame, detection) pair for each row of the class's detections of the listed frames; only listed frames need an array for the class |
| Filters.DetClassFramesMembers | modules/evaluation.py:369-377 | a pair is produced exactly when its frame is one of the frames iterated and in the frame list, and its row is one of that frame's detections of the class |
| Matching.MatchInPool | modules/evaluation.py:130-141 | a detection that is not a true positive leaves the pool unchanged; a true positive needs a non-empty pool and removes exactly one entry |
| Matching.MatchInPoolDecision | modules/evaluation.py:130-139 | a detection is a true positive exactly when some ground truth in its pool has an IoU reaching the threshold (so an empty pool never yields one) |
| Matching.MatchInPoolRemoval | modules/evaluation.py:136-141 | on a true positive the entry removed is a first index of the maximum IoU, and that IoU reaches the threshold |
| Matching.MatchInPoolShrinks | modules/evaluation.py:141 | the pool after a step is a sub-multiset of the pool before, strictly smaller on a true positive |
| Matching.MatchStep | modules/evaluation.py:292-299 | only the detection's own unit loses ground truth; every other pool and the set of units are unchanged |
| Matching.RunShrinks | modules/evaluation.py:286-299 | after any sequence of detections each unit's pool is a sub-multiset of its initial pool |
| Matching.RunConservesGroundTruth | modules/evaluation.py:286-306 | the ground truth left plus the true positives equals the ground truth at the start, so there are never more true positives than ground truth |
| Matching.RunPerUnit | modules/evaluation.py:292-299 | per unit, the ground truth left plus that unit's true positives equals its initial pool |
| Matching.RunPoolShrinks | modules/evaluation.py:125-141 | the per-frame pass leaves a sub-multiset of the frame's ground truth |
| Matching.RunPoolConserves | modules/evaluation.py:125-141 | in one frame the boxes left plus the true positives equal the class's boxes of the frame |
| Curves.FloorPositives | modules/evaluation.py:149-150 | the positive count is floored at 1 and otherwise unchanged |
| Curves.IncrementalCurveRows | modules/evaluation.py:270-311 | row 0 of the table is precision 1, recall 0; row k is the true positives among the first k detections over k, and over the positive count |
| Curves.IncrementalCurveValid | modules/evaluation.py:301-311 | with no more true positives than positives the table's recall never decreases and lies in [0, 1], and its precision lies in [0, 1] |
| Curves.IncrementalApBounds | modules/evaluation.py:313 | 100 times the trapezoid area of such a table lies in [0, 100] |
| Curves.PerfectRankingFullAp | modules/evaluation.py:268-313 | when every detection is a true positive and they cover all positives the AP is exactly 100 |
| Curves.NoTruePositivesZeroAp | modules/evaluation.py:268-313 | with no true positive the trapezoid area is 0 and the last recall is 0 |
| Curves.CumulativeCounts | modules/evaluation.py:155-158 | at rank i the cumulative true and false positives sum to i + 1, neither column ever decreases, and the true positives end at the number of true flags |
| Curves.EpsNeverApplies | modules/evaluation.py:161 | the `eps` floor in the precision denominator never takes effect: precision is the true positives over the rank plus one |
| Curves.BatchCurveValid | modules/evaluation.py:155-161 | with no more true flags than positives the cumulative-sum recall is non-decreasing in [0, 1] and the precision is in [0, 1] |
| Curves.AllTrueBatchCurve | modules/evaluation.py:155-161 | when every flag is true, every precision of the cumulative-sum curve is 1 and the recall at rank i is (i + 1) over the positive count |
| Curves.NoTrueBatchCurve | modules/evaluation.py:155-161 | when no flag is true, every recall and every precision of the cumulative-sum curve is 0 |
| Curves.IncrementalMatchesBatch | modules/evaluation.py:155-161 | row i + 1 of the incremental table equals the i-th precision/recall pair of the cumulative-sum form |
| ClassAp.TotalGroundTruth | modules/evaluation.py:274-275 | the sum of the pool sizes over all units |
| ClassAp.MatchDetection | modules/evaluation.py:287-299 | one step of the greedy pass against the pools, as `MatchStep` specifies it |
| ClassAp.MatchNext | modules/evaluation.py:286-299 | matching detection i after the first i keeps the flags and pools equal to those of the greedy pass over the first i + 1 |
| ClassAp.RecordOutcome | modules/evaluation.py:301-311 | after one detection the counters keep tp + fp = detections seen and tp + fn = positives, the table gains exactly its next row, and the rows after it are unchanged |
| ClassAp.MatchRanked | modules/evaluation.py:285-311 | the loop's table is the incremental curve of the greedy flags in rank order; the pools left are those of the greedy pass; `count` is the last index, or 0 with no detections |
| ClassAp.ComputeClassAp | modules/evaluation.py:268-315 | the positives are the pooled ground truth floored at 1; detections are ranked by non-increasing score; the AP is 100 times the trapezoid area of the greedy table and lies in [0, 100] |
| ClassAp.GreedyApBounds | modules/evaluation.py:313 | whatever the order and the comparator, the greedy AP lies in [0, 100] |
| ClassAp.GreedyApWithoutGroundTruth | modules/evaluation.py:268-315 | with no ground truth at all the greedy AP is 0 |
| ClassAp.ClassApFromScores | modules/evaluation.py:194-209 | the flags are reordered by non-increasing score and scored with the exact VOC area of the cumulative-sum curve, positives floored at 1; the AP is in [0, 100] when the flags hold no more trues than positives |
| ClassAp.ScoreApBounds | modules/evaluation.py:196-208 | for any ranking, with no more true flags than positives, that AP lies in [0, 100] |
| ClassAp.ScoreApPerfect | modules/evaluation.py:194-209 | when every detection is a true positive and there are exactly as many positives as detections (at least one), the score-based AP is exactly 100 for any tie order |
| ClassAp.ScoreApWithoutTruePositives | modules/evaluation.py:194-209 | with no true positive the score-based AP is 0, whatever the order and the positive count |
| Evaluation.MatchBox | modules/evaluation.py:130-141 | one detection box against the frame's remaining ground truth, as `MatchInPool` with IoU specifies it |
| Evaluation.MatchNext | modules/evaluation.py:125-141 | the next detection of a frame, matched against the ground truth the earlier detections left, gives exactly the flag and the pool of one more step of the frame's greedy pass |
| Evaluation.MatchSorted | modules/evaluation.py:125-148 | the buffers gain the frame's scores in the given order and the greedy flags of the frame's pass; later slots stay false |
| Evaluation.MatchFrame | modules/evaluation.py:122-148 | the frame's detections are sorted by non-increasing score, then written to the buffers as `MatchSorted` states |
| Evaluation.WriteDetection | modules/evaluation.py:143-148 | one slot of each buffer is written: the score and the flag; the slots after it keep their scores and stay false |
| Evaluation.FrameFlagsBound | modules/evaluation.py:125-141 | a frame never yields more true positives than it has boxes of the class |
| Evaluation.CollectFrame | modules/evaluation.py:114-148 | after frame nf the buffers hold the ranked scores and flags of frames 0..nf, the detection count is their total and the positives are the class's boxes so far |
| Evaluation.CollectClassDetections | modules/evaluation.py:110-152 | the trimmed buffers are the frame-by-frame ranked scores and greedy flags; the positive count is the class's boxes over all frames, floored at 1 |
| Evaluation.ClassFlagsBound | modules/evaluation.py:114-148 | over all frames the true positives never exceed the class's ground-truth boxes |
| Evaluation.EvaluateClass | modules/evaluation.py:109-166 | one class: the AP of the buffered flags re-ranked by score, with positive count, detection count and AP in [0, 100] |
| Evaluation.ClassesDoneBounds | modules/evaluation.py:163-164 | every per-class AP in the reports lies in [0, 100] |
| Evaluation.ReportClass | modules/evaluation.py:163-167 | the next class's report (name, floored positives, detection count, AP) is appended, and every class reported so far still carries its own outcome |
| Evaluation.WriteAp | modules/evaluation.py:164 | slot i of the AP array becomes the new class's AP, so the filled prefix is the AP column of the reports; every other slot is unchanged |
| Evaluation.EvaluateDetections | modules/evaluation.py:102-171 | one report per class, in class order, each the outcome of that class; the AP list is the reports' APs; mAP is their mean and lies in [0, 100] |
| Evaluation.Evaluate | modules/evaluation.py:182-191 | one result per label type, each the result of `evaluate_detections` on that label type, with mAP in [0, 100] |
| Evaluation.EgoFlags | modules/evaluation.py:220-221 | frame f is a positive for class c exactly when its label equals c |
| Evaluation.EgoPositives | modules/evaluation.py:223 | the positive count is the number of frames labelled with the class |
| Evaluation.ReportEgoClass | modules/evaluation.py:218-228 | one ego class: the class's score column ranks the frames, the AP is the exact VOC area of the label flags in [0, 100], and the report keeps the unfloored positive count and the frame count |
| Evaluation.EvaluateEgo | modules/evaluation.py:212-230 | one report per class in order, each the outcome of that class; the mean of the APs, in [0, 100], with each result wrapped in a one-element list |
| Evaluation.DetTubes | modules/evaluation.py:330-333 | the detection tubes of every listed video are kept as loaded |
| Evaluation.TubeDetsComparable | modules/evaluation.py:337-340 | every detection of a class comes from a video that has a ground-truth entry, so the matcher never looks up a missing video |
| Evaluation.ReportTubeClass | modules/evaluation.py:335-346 | one tube class: the greedy AP of the class's detections ranked by score against the class's ground truth, its floored positive count and the last index |
| Evaluation.NextTubeClass | modules/evaluation.py:335-346 | one more class: the reports grow by one, the AP list stays the reports' AP column and the running sum stays its sum, and every class reported so far carries its own outcome |
| Evaluation.EvaluateTubes | modules/evaluation.py:318-349 | one report per class in order, each the outcome of that class; the AP list is the reports' APs; mAP is their sum over the number of classes and lies in [0, 100] |

## Left out

- Reading the annotation and detection files (`json.load`), logging, and the report strings. A report is the record (class name, positive count, detection count, AP). The source joins these into a string.
- Evaluation.EvaluateTubes: the trailing "Mean AP" line that the source appends to the reports is left out, so the model has exactly one report per class.
- `get_gt_tubes`, `get_gt_frames`, `eval_framewise_ego_actions_aarav` and `eval_framewise_ego_actions` are not part of this model. They load data or dispatch through helpers of `data.datasets`, which is not part of this model either. Their results are inputs here: the video list and tubes of `evaluate_tubes`, and the frame maps of the frame filters.
- `evaluate_frames` (modules/evaluation.py:429-481): its file loading, its loop over label types, its per-class loop (lines 456-469) and its mAP (`sap/len(classes)`, line 471) are left out. Each pass of that loop is made of modelled members: `Filters.GetGtClassFrames`, `Filters.GetDetClassFrames`, and `ClassAp.ComputeClassAp` with `Geometry.ComputeIoUDict` as the overlap. The same loop-and-mean shape is modelled for tubes by `Evaluation.EvaluateTubes`.
- `get_tube_3Diou` and `make_det_tube` (`modules/tube_helper.py`) are not part of this model. They are the parameters `tubeIou` and `makeDetTube`, and `det['score']` is `scoreOf`.
- Floating point. All arithmetic is on exact reals, so float32 storage of `pr` and `ap_all`, rounding, and the decimal thresholds produced by `np.arange(0., 1.1, 0.1)` are not modelled. The `eps` floor is proved never to apply.
- Geometry.ComputeIoU: requires a non-zero union for each pair. The source divides without a guard and yields `nan` or `inf`.
- Geometry.ComputeIoUDict: requires a non-zero union as well, for the same reason.
- Evaluation.EvaluateDetections: requires a non-zero union between every detection and every ground-truth box of the class in the same frame. That is more than the source needs: the source only computes the IoU against ground truth still in the frame's pool, so a pair whose box an earlier detection has already consumed is never compared. It also requires at most `num_frames * 2000` detections per class; beyond that the source's buffers overflow with an `IndexError`. It further requires a non-empty class list, whose mean the source would make `nan`.
- Evaluation.Evaluate: carries the same requirements per label type.
- Evaluation.EvaluateEgo: requires as many score rows as labels and a score column for every class, which the source's array indexing assumes. It also requires a non-empty class list.
- Evaluation.EvaluateTubes: requires a non-empty class list, which the source divides by. It also requires every listed video to have detections and ground truth, since the source would raise `KeyError`.
- The video list is taken as given. In the source it comes from the keys of a dictionary, so it has no repeated entries; the model does not rely on or check that.
- ClassAp.ComputeClassAp: requires every detection's video to have a ground-truth entry, since the source raises `KeyError` otherwise. It returns the ground truth left over instead of deleting it from the caller's dictionary in place. The `scores` and `istp` arrays it fills but never reads are left out.
- Filters.GetGtOfCls: a non-empty one-dimensional `gt_boxes` array, which the source's shape test skips entirely, is not modelled. Ground truth is always a list of rows.
- Non-stable sort ties. For equal scores the model proves its results for whichever order the sort picked, but does not pin that order down.
