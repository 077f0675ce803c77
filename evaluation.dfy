/** The evaluation drivers of modules/evaluation.py: the frame-level batch
    evaluator (`evaluate_detections`, and `evaluate` over label types), the
    ego-action evaluator (`evaluate_ego`) and the tube evaluator
    (`evaluate_tubes`). Each loops over the classes, computes one AP per
    class and reports the mean. */
module Evaluation {
  import opened Seqs
  import opened Ranking
  import opened Geometry
  import opened Matching
  import opened Curves
  import opened Filters
  import opened ClassAp

  /** One entry of the report list (`ap_strs`): the class name, the
      positive count, the detection count and the AP that the source joins
      into one string. */
  datatype Report = Report(className: string, numPositives: nat, detCount: nat, ap: real)

  // ---------------------------------------------------------------------
  // Frame-level batch evaluation (`evaluate_detections`)

  /** The score column of a frame's detections. */
  function FrameScores(dets: seq<FrameDet>): (r: seq<real>)
    ensures |r| == |dets| && forall k :: 0 <= k < |dets| ==> r[k] == dets[k].score
  {
    seq(|dets|, k requires 0 <= k < |dets| => dets[k].score)
  }

  /** Every entry of `order` indexes a sequence of length `n`. */
  predicate ValidOrder(order: seq<nat>, n: nat) {
    forall k :: 0 <= k < |order| ==> order[k] < n
  }

  /** The detection boxes of a frame, read in the order `order`. */
  function RankedBoxes(dets: seq<FrameDet>, order: seq<nat>): (r: seq<Box>)
    requires ValidOrder(order, |dets|)
    ensures |r| == |order| && forall k :: 0 <= k < |order| ==> r[k] == dets[order[k]].box
  {
    seq(|order|, k requires 0 <= k < |order| => dets[order[k]].box)
  }

  /** Every detection box of the frame has a non-zero union with every
      ground-truth box it may be compared with (`compute_iou` divides by
      the union without a guard). */
  predicate DetsComparable(dets: seq<FrameDet>, gts: seq<Box>) {
    forall k, g :: 0 <= k < |dets| && g in gts ==> UnionArea(dets[k].box, g) != 0.0
  }

  lemma RankedComparable(dets: seq<FrameDet>, order: seq<nat>, gts: seq<Box>)
    requires ValidOrder(order, |dets|) && DetsComparable(dets, gts)
    ensures AllComparableTo(RankedBoxes(dets, order), gts, IoU)
  {
    var ds := RankedBoxes(dets, order);
    forall i, g | 0 <= i < |ds| && g in gts ensures IoU.requires(ds[i], g) {
      assert ds[i] == dets[order[i]].box;
    }
  }

  /** The true-positive flags of one frame's detections taken in the order
      `order`, matched greedily against the frame's ground truth of the
      class with the first-maximal IoU. */
  function FrameFlags(dets: seq<FrameDet>, order: seq<nat>, gts: seq<Box>, iouThresh: real): (r: seq<bool>)
    requires ValidOrder(order, |dets|) && DetsComparable(dets, gts)
    ensures |r| == |order|
  {
    RankedComparable(dets, order, gts);
    RunPool(RankedBoxes(dets, order), gts, IoU, iouThresh).0
  }

  /** A frame contributes at most as many true positives as it has ground
      truth of the class. */
  lemma FrameFlagsBound(dets: seq<FrameDet>, order: seq<nat>, gts: seq<Box>, iouThresh: real)
    requires ValidOrder(order, |dets|) && DetsComparable(dets, gts)
    ensures CountTrue(FrameFlags(dets, order, gts, iouThresh)) <= |gts|
  {
    RankedComparable(dets, order, gts);
    RunPoolConserves(RankedBoxes(dets, order), gts, IoU, iouThresh);
  }

  /** The body of the inner loop of `evaluate_detections` for one box: when
      the frame still has ground truth of the class, the IoUs with it are
      computed, the first maximal one is taken, and when it reaches the
      threshold the box is a true positive and that ground truth is
      deleted. */
  method MatchBox(box: Box, clsGtBoxes: seq<Box>, iouThresh: real) returns (isPositive: bool, remaining: seq<Box>)
    requires Comparable(box, clsGtBoxes, IoU)
    ensures (isPositive, remaining) == MatchInPool(box, clsGtBoxes, IoU, iouThresh)
  {
    isPositive := false;
    remaining := clsGtBoxes;
    if |clsGtBoxes| > 0 {
      forall m | 0 <= m < |clsGtBoxes| ensures UnionArea(box, clsGtBoxes[m]) != 0.0 {
        assert clsGtBoxes[m] in clsGtBoxes;
        assert IoU.requires(box, clsGtBoxes[m]);
      }
      var iou := ComputeIoU(box, clsGtBoxes);
      assert iou == Overlaps(box, clsGtBoxes, IoU);
      var maxId := FirstArgMax(iou);
      if iou[maxId] >= iouThresh {
        isPositive := true;
        remaining := RemoveAt(clsGtBoxes, maxId);
      }
    }
  }

  /** The next detection of a frame, `ds[j]`, matched against the pool left
      by the detections before it: one more step of `RunPool`. */
  method MatchNext(ghost ds: seq<Box>, ghost j: nat, box: Box, ghost clsGtBoxes: seq<Box>, iouThresh: real,
                   ghost flags: seq<bool>, pool: seq<Box>)
    returns (isPositive: bool, remaining: seq<Box>)
    requires j < |ds| && ds[j] == box && AllComparableTo(ds, clsGtBoxes, IoU)
    requires (flags, pool) == RunPool(ds[..j], clsGtBoxes, IoU, iouThresh)
    ensures (flags + [isPositive], remaining) == RunPool(ds[..j + 1], clsGtBoxes, IoU, iouThresh)
  {
    RunPoolExtend(ds, j, clsGtBoxes, IoU, iouThresh);
    isPositive, remaining := MatchBox(box, pool, iouThresh);
  }

  /** One frame of one class in `evaluate_detections`: the frame's
      detections are visited by non-increasing score and matched against
      the frame's ground truth of the class; each visited detection's score
      is written at the next free slot of the score buffer, and its slot in
      the zeroed flag buffer is set when it is a true positive. */
  method MatchFrame(frameDets: seq<FrameDet>, clsGtBoxes: seq<Box>, iouThresh: real,
                    scores: array<real>, istp: array<bool>, detCount: nat)
    returns (newCount: nat, ghost order: seq<nat>)
    requires DetsComparable(frameDets, clsGtBoxes)
    requires detCount + |frameDets| <= scores.Length && istp.Length == scores.Length
    requires forall m :: detCount <= m < istp.Length ==> !istp[m]
    modifies scores, istp
    ensures newCount == detCount + |frameDets|
    ensures IsDescendingOrder(FrameScores(frameDets), order)
    ensures scores[..newCount] == old(scores[..detCount]) + Apply(FrameScores(frameDets), order)
    ensures istp[..newCount] == old(istp[..detCount]) + FrameFlags(frameDets, order, clsGtBoxes, iouThresh)
    ensures forall m :: newCount <= m < istp.Length ==> !istp[m]
  {
    newCount := detCount;
    order := [];
    if |frameDets| > 0 {
      var sortedIds := ArgSortDesc(FrameScores(frameDets));
      order := sortedIds;
      newCount := MatchSorted(frameDets, sortedIds, clsGtBoxes, iouThresh, scores, istp, detCount);
    }
  }

  /** The loop of `MatchFrame` over the detections in the order `sortedIds`. */
  method MatchSorted(frameDets: seq<FrameDet>, sortedIds: seq<nat>, clsGtBoxes: seq<Box>, iouThresh: real,
                     scores: array<real>, istp: array<bool>, detCount: nat)
    returns (newCount: nat)
    requires ValidOrder(sortedIds, |frameDets|) && DetsComparable(frameDets, clsGtBoxes)
    requires detCount + |sortedIds| <= scores.Length && istp.Length == scores.Length
    requires forall m :: detCount <= m < istp.Length ==> !istp[m]
    modifies scores, istp
    ensures newCount == detCount + |sortedIds|
    ensures scores[..newCount] == old(scores[..detCount]) + Apply(FrameScores(frameDets), sortedIds)
    ensures istp[..newCount] == old(istp[..detCount]) + FrameFlags(frameDets, sortedIds, clsGtBoxes, iouThresh)
    ensures forall m :: newCount <= m < istp.Length ==> !istp[m]
  {
    newCount := detCount;
    ghost var ds := RankedBoxes(frameDets, sortedIds);
    ghost var ranked := Apply(FrameScores(frameDets), sortedIds);
    RankedComparable(frameDets, sortedIds, clsGtBoxes);
    ghost var flags: seq<bool> := [];
    var pool := clsGtBoxes;
    var j := 0;
    while j < |sortedIds|
      invariant 0 <= j <= |sortedIds|
      invariant newCount == detCount + j
      invariant (flags, pool) == RunPool(ds[..j], clsGtBoxes, IoU, iouThresh)
      invariant scores[..newCount] == old(scores[..detCount]) + ranked[..j]
      invariant istp[..newCount] == old(istp[..detCount]) + flags
      invariant forall m :: newCount <= m < istp.Length ==> !istp[m]
    {
      var k := sortedIds[j];
      var box := frameDets[k].box;
      var score := frameDets[k].score;
      var isPositive;
      isPositive, pool := MatchNext(ds, j, box, clsGtBoxes, iouThresh, flags, pool);
      WriteDetection(scores, istp, newCount, score, isPositive, old(scores[..detCount]), ranked, j,
                     old(istp[..detCount]), flags);
      flags := flags + [isPositive];
      newCount := newCount + 1;
      j := j + 1;
    }
    assert ranked[..j] == ranked;
    assert ds[..j] == ds;
  }

  /** Writes one visited detection into the buffers: its score always, its
      flag only when it is a true positive (the buffer starts zeroed). The
      filled parts grow by one entry each. */
  method WriteDetection(scores: array<real>, istp: array<bool>, slot: nat, score: real, isPositive: bool,
                        ghost scoreBase: seq<real>, ghost ranked: seq<real>, ghost j: nat,
                        ghost flagBase: seq<bool>, ghost flags: seq<bool>)
    requires slot < scores.Length && istp.Length == scores.Length
    requires forall m :: slot <= m < istp.Length ==> !istp[m]
    requires j < |ranked| && ranked[j] == score && scores[..slot] == scoreBase + ranked[..j]
    requires istp[..slot] == flagBase + flags
    modifies scores, istp
    ensures scores[..slot + 1] == scoreBase + ranked[..j + 1]
    ensures istp[..slot + 1] == flagBase + (flags + [isPositive])
    ensures forall m :: slot + 1 <= m < istp.Length ==> !istp[m]
    ensures forall m :: slot + 1 <= m < scores.Length ==> scores[m] == old(scores[m])
  {
    scores[slot] := score;
    if isPositive {
      istp[slot] := true;
    }
    assert scores[..slot + 1] == scores[..slot] + [score];
    assert istp[..slot + 1] == istp[..slot] + [isPositive];
    assert ranked[..j + 1] == ranked[..j] + [score];
  }

  // ---------------------------------------------------------------------
  // One class over all frames

  /** One descending order per frame, each an order in which
      `np.argsort(-scores)` may visit that frame's detections. */
  predicate FrameOrders(frames: seq<seq<FrameDet>>, orders: seq<seq<nat>>) {
    && |orders| == |frames|
    && forall f :: 0 <= f < |frames| ==> IsDescendingOrder(FrameScores(frames[f]), orders[f])
  }

  /** Every detection of every frame has a non-zero union with every
      ground-truth box of class `cls` in its frame. */
  predicate FramesComparable(frames: seq<seq<FrameDet>>, gtBoxes: seq<seq<GtRow>>, cls: int)
    requires |frames| == |gtBoxes|
  {
    forall f :: 0 <= f < |frames| ==> DetsComparable(frames[f], GtOfCls(gtBoxes[f], cls))
  }

  /** The number of detections over all frames. */
  function TotalDetections(frames: seq<seq<FrameDet>>): nat
    decreases |frames|
  {
    if frames == [] then 0 else TotalDetections(frames[..|frames| - 1]) + |frames[|frames| - 1]|
  }

  /** The ground truth of class `cls` over all frames. */
  function ClassPositives(gtBoxes: seq<seq<GtRow>>, cls: int): nat
    decreases |gtBoxes|
  {
    if gtBoxes == [] then 0 else ClassPositives(gtBoxes[..|gtBoxes| - 1], cls) + |GtOfCls(gtBoxes[|gtBoxes| - 1], cls)|
  }

  /** The scores written to the buffer: frame by frame, each frame's
      scores in its visiting order. */
  function ClassScores(frames: seq<seq<FrameDet>>, orders: seq<seq<nat>>): (r: seq<real>)
    requires FrameOrders(frames, orders)
    ensures |r| == TotalDetections(frames)
    decreases |frames|
  {
    if frames == [] then []
    else
      var n := |frames| - 1;
      assert FrameOrders(frames[..n], orders[..n]);
      ClassScores(frames[..n], orders[..n]) + Apply(FrameScores(frames[n]), orders[n])
  }

  /** The true-positive flags written to the buffer: frame by frame, the
      greedy matching of each frame against that frame's ground truth of
      the class. */
  function ClassFlags(frames: seq<seq<FrameDet>>, orders: seq<seq<nat>>, gtBoxes: seq<seq<GtRow>>, cls: int,
                      iouThresh: real): (r: seq<bool>)
    requires |gtBoxes| == |frames| && FrameOrders(frames, orders) && FramesComparable(frames, gtBoxes, cls)
    ensures |r| == TotalDetections(frames)
    decreases |frames|
  {
    if frames == [] then []
    else
      var n := |frames| - 1;
      assert FrameOrders(frames[..n], orders[..n]);
      assert FramesComparable(frames[..n], gtBoxes[..n], cls);
      ClassFlags(frames[..n], orders[..n], gtBoxes[..n], cls, iouThresh)
        + FrameFlags(frames[n], orders[n], GtOfCls(gtBoxes[n], cls), iouThresh)
  }

  /** Each ground truth is matched at most once: the buffered true
      positives of a class never exceed its ground truth. */
  lemma {:induction false} ClassFlagsBound(frames: seq<seq<FrameDet>>, orders: seq<seq<nat>>, gtBoxes: seq<seq<GtRow>>,
                                           cls: int, iouThresh: real)
    requires |gtBoxes| == |frames| && FrameOrders(frames, orders) && FramesComparable(frames, gtBoxes, cls)
    ensures CountTrue(ClassFlags(frames, orders, gtBoxes, cls, iouThresh)) <= ClassPositives(gtBoxes, cls)
    decreases |frames|
  {
    if frames != [] {
      var n := |frames| - 1;
      assert FrameOrders(frames[..n], orders[..n]);
      assert FramesComparable(frames[..n], gtBoxes[..n], cls);
      ClassFlagsBound(frames[..n], orders[..n], gtBoxes[..n], cls, iouThresh);
      FrameFlagsBound(frames[n], orders[n], GtOfCls(gtBoxes[n], cls), iouThresh);
      CountTrueAppend(ClassFlags(frames[..n], orders[..n], gtBoxes[..n], cls, iouThresh),
                      FrameFlags(frames[n], orders[n], GtOfCls(gtBoxes[n], cls), iouThresh));
    }
  }

  lemma {:induction false} TotalDetectionsPrefix(frames: seq<seq<FrameDet>>, i: nat)
    requires i < |frames|
    ensures TotalDetections(frames[..i + 1]) == TotalDetections(frames[..i]) + |frames[i]|
    ensures TotalDetections(frames[..i + 1]) <= TotalDetections(frames)
    decreases |frames|
  {
    assert frames[..i + 1][..i] == frames[..i];
    if i + 1 < |frames| {
      TotalDetectionsPrefix(frames[..|frames| - 1], i);
      assert frames[..|frames| - 1][..i + 1] == frames[..i + 1];
      assert frames[..|frames| - 1][..i] == frames[..i];
    } else {
      assert frames[..i + 1] == frames;
    }
  }

  /** Adding frame `nf` to the frames already processed appends that
      frame's scores, flags and ground-truth count. */
  lemma ClassSnoc(frames: seq<seq<FrameDet>>, orders: seq<seq<nat>>, order: seq<nat>, gtBoxes: seq<seq<GtRow>>,
                  cls: int, iouThresh: real, nf: nat)
    requires nf < |frames| == |gtBoxes| && FramesComparable(frames, gtBoxes, cls)
    requires FrameOrders(frames[..nf], orders) && IsDescendingOrder(FrameScores(frames[nf]), order)
    ensures FramesComparable(frames[..nf], gtBoxes[..nf], cls)
    ensures FramesComparable(frames[..nf + 1], gtBoxes[..nf + 1], cls)
    ensures FrameOrders(frames[..nf + 1], orders + [order])
    ensures ClassScores(frames[..nf + 1], orders + [order])
            == ClassScores(frames[..nf], orders) + Apply(FrameScores(frames[nf]), order)
    ensures ClassFlags(frames[..nf + 1], orders + [order], gtBoxes[..nf + 1], cls, iouThresh)
            == ClassFlags(frames[..nf], orders, gtBoxes[..nf], cls, iouThresh)
               + FrameFlags(frames[nf], order, GtOfCls(gtBoxes[nf], cls), iouThresh)
    ensures ClassPositives(gtBoxes[..nf + 1], cls) == ClassPositives(gtBoxes[..nf], cls) + |GtOfCls(gtBoxes[nf], cls)|
  {
    assert frames[..nf + 1][..nf] == frames[..nf];
    assert gtBoxes[..nf + 1][..nf] == gtBoxes[..nf];
    assert (orders + [order])[..nf] == orders;
  }

  /** One pass of the loop over frames: select and count frame `nf`'s ground
      truth of the class, then match and buffer the frame's detections. */
  method CollectFrame(gtBoxes: seq<seq<GtRow>>, frames: seq<seq<FrameDet>>, cls: int, iouThresh: real,
                      scoreBuf: array<real>, istpBuf: array<bool>, nf: nat, detCount: nat, positives: nat,
                      ghost orders: seq<seq<nat>>)
    returns (newCount: nat, positives': nat, ghost order: seq<nat>)
    requires nf < |frames| == |gtBoxes| && FramesComparable(frames, gtBoxes, cls)
    requires TotalDetections(frames) <= scoreBuf.Length == istpBuf.Length
    requires FramesComparable(frames[..nf], gtBoxes[..nf], cls) && FrameOrders(frames[..nf], orders)
    requires detCount == TotalDetections(frames[..nf]) && positives == ClassPositives(gtBoxes[..nf], cls)
    requires detCount <= scoreBuf.Length
    requires scoreBuf[..detCount] == ClassScores(frames[..nf], orders)
    requires istpBuf[..detCount] == ClassFlags(frames[..nf], orders, gtBoxes[..nf], cls, iouThresh)
    requires forall m :: detCount <= m < istpBuf.Length ==> !istpBuf[m]
    modifies scoreBuf, istpBuf
    ensures FramesComparable(frames[..nf + 1], gtBoxes[..nf + 1], cls) && FrameOrders(frames[..nf + 1], orders + [order])
    ensures newCount == TotalDetections(frames[..nf + 1]) && positives' == ClassPositives(gtBoxes[..nf + 1], cls)
    ensures newCount <= scoreBuf.Length
    ensures scoreBuf[..newCount] == ClassScores(frames[..nf + 1], orders + [order])
    ensures istpBuf[..newCount] == ClassFlags(frames[..nf + 1], orders + [order], gtBoxes[..nf + 1], cls, iouThresh)
    ensures forall m :: newCount <= m < istpBuf.Length ==> !istpBuf[m]
  {
    var frameDets := frames[nf];
    var clsGtBoxes := GetGtOfCls(gtBoxes[nf], cls);
    positives' := positives + |clsGtBoxes|;
    TotalDetectionsPrefix(frames, nf);
    newCount, order := MatchFrame(frameDets, clsGtBoxes, iouThresh, scoreBuf, istpBuf, detCount);
    ClassSnoc(frames, orders, order, gtBoxes, cls, iouThresh, nf);
  }

  /** The loop over frames of `evaluate_detections` for one class: the
      frame's ground truth of the class is selected and counted, and the
      frame's detections are matched and written to buffers of
      `num_frames * 2000` entries; the filled prefixes are returned. */
  method CollectClassDetections(gtBoxes: seq<seq<GtRow>>, frames: seq<seq<FrameDet>>, cls: int, iouThresh: real)
    returns (scores: seq<real>, istp: seq<bool>, numPositives: nat, ghost orders: seq<seq<nat>>)
    requires |frames| == |gtBoxes| && FramesComparable(frames, gtBoxes, cls)
    requires TotalDetections(frames) <= |gtBoxes| * 2000
    ensures FrameOrders(frames, orders)
    ensures scores == ClassScores(frames, orders)
    ensures istp == ClassFlags(frames, orders, gtBoxes, cls, iouThresh)
    ensures numPositives == FloorPositives(ClassPositives(gtBoxes, cls))
  {
    var numFrames := |gtBoxes|;
    var scoreBuf := new real[numFrames * 2000](_ => 0.0);
    var istpBuf := new bool[numFrames * 2000](_ => false);
    var detCount := 0;
    var positives := 0;
    orders := [];
    var nf := 0;
    while nf < numFrames
      invariant 0 <= nf <= numFrames
      invariant FrameOrders(frames[..nf], orders)
      invariant FramesComparable(frames[..nf], gtBoxes[..nf], cls)
      invariant detCount == TotalDetections(frames[..nf]) && detCount <= scoreBuf.Length == istpBuf.Length
      invariant scoreBuf[..detCount] == ClassScores(frames[..nf], orders)
      invariant istpBuf[..detCount] == ClassFlags(frames[..nf], orders, gtBoxes[..nf], cls, iouThresh)
      invariant forall m :: detCount <= m < istpBuf.Length ==> !istpBuf[m]
      invariant positives == ClassPositives(gtBoxes[..nf], cls)
    {
      var newCount;
      ghost var order;
      newCount, positives, order := CollectFrame(gtBoxes, frames, cls, iouThresh, scoreBuf, istpBuf, nf, detCount,
                                                 positives, orders);
      orders := orders + [order];
      detCount := newCount;
      nf := nf + 1;
    }
    assert frames[..nf] == frames && gtBoxes[..nf] == gtBoxes;
    numPositives := if positives < 1 then 1 else positives;
    scores := scoreBuf[..detCount];
    istp := istpBuf[..detCount];
  }

  /** The outcome of one class of `evaluate_detections`: the frame orders
      and the overall ranking chosen by the sorts, the floored positive
      count, the number of detections, and the exact VOC AP of the buffered
      flags ranked by score. */
  ghost predicate ClassResult(gtBoxes: seq<seq<GtRow>>, frames: seq<seq<FrameDet>>, cls: int, iouThresh: real,
                              orders: seq<seq<nat>>, ranked: seq<nat>, numPositives: nat, detCount: nat, ap: real)
    requires |frames| == |gtBoxes| && FramesComparable(frames, gtBoxes, cls)
  {
    && FrameOrders(frames, orders)
    && IsDescendingOrder(ClassScores(frames, orders), ranked)
    && numPositives == FloorPositives(ClassPositives(gtBoxes, cls))
    && detCount == TotalDetections(frames)
    && ap == ScoreAp(ClassFlags(frames, orders, gtBoxes, cls, iouThresh), ranked, numPositives)
  }

  /** One class of `evaluate_detections`: collect the buffered scores and
      flags over all frames, floor the positive count at 1 and score the
      flags with the cumulative-sum VOC AP. Because every ground truth is
      matched at most once, the AP is in [0, 100]. */
  method EvaluateClass(gtBoxes: seq<seq<GtRow>>, frames: seq<seq<FrameDet>>, cls: int, iouThresh: real)
    returns (clsAp: real, numPositives: nat, detCount: nat, ghost orders: seq<seq<nat>>, ghost ranked: seq<nat>)
    requires |frames| == |gtBoxes| && FramesComparable(frames, gtBoxes, cls)
    requires TotalDetections(frames) <= |gtBoxes| * 2000
    ensures ClassResult(gtBoxes, frames, cls, iouThresh, orders, ranked, numPositives, detCount, clsAp)
    ensures 0.0 <= clsAp <= 100.0
  {
    var scores, istp;
    scores, istp, numPositives, orders := CollectClassDetections(gtBoxes, frames, cls, iouThresh);
    detCount := |scores|;
    ClassFlagsBound(frames, orders, gtBoxes, cls, iouThresh);
    clsAp, ranked := ClassApFromScores(scores, istp, numPositives);
  }

  /** What `evaluate_detections` needs of its inputs: a detection list per
      class covering every frame, a non-zero union between every detection
      and every ground-truth box of the class in its frame (a superset of
      the pairs the greedy pass compares), and at most `num_frames * 2000`
      detections per class (the size of its buffers). */
  predicate DetectionInputs(gtBoxes: seq<seq<GtRow>>, detBoxes: seq<seq<seq<FrameDet>>>, numClasses: nat) {
    && |detBoxes| >= numClasses
    && forall c :: 0 <= c < numClasses ==>
         && |detBoxes[c]| >= |gtBoxes|
         && FramesComparable(detBoxes[c][..|gtBoxes|], gtBoxes, c)
         && TotalDetections(detBoxes[c][..|gtBoxes|]) <= |gtBoxes| * 2000
  }

  /** The AP column of a list of reports. */
  function ApsOf(reports: seq<Report>): (r: seq<real>)
    ensures |r| == |reports| && forall c :: 0 <= c < |reports| ==> r[c] == reports[c].ap
  {
    seq(|reports|, c requires 0 <= c < |reports| => reports[c].ap)
  }

  lemma ApsOfSnoc(reports: seq<Report>, report: Report)
    ensures ApsOf(reports + [report]) == ApsOf(reports) + [report.ap]
  {
  }

  /** Class `c` of `evaluate_detections` produced `report`, with frame
      orders `clsOrders` and ranking `ranked`. */
  ghost predicate ClassReported(gtBoxes: seq<seq<GtRow>>, detBoxes: seq<seq<seq<FrameDet>>>, classes: seq<string>,
                                iouThresh: real, c: nat, report: Report, clsOrders: seq<seq<nat>>, ranked: seq<nat>)
    requires DetectionInputs(gtBoxes, detBoxes, |classes|) && c < |classes|
  {
    && report.className == classes[c]
    && 0.0 <= report.ap <= 100.0
    && ClassResult(gtBoxes, detBoxes[c][..|gtBoxes|], c, iouThresh, clsOrders, ranked,
                   report.numPositives, report.detCount, report.ap)
  }

  /** The reports of the first `|apStrs|` classes of `evaluate_detections`,
      in class order, each the outcome of its class. */
  ghost predicate ClassesDone(gtBoxes: seq<seq<GtRow>>, detBoxes: seq<seq<seq<FrameDet>>>, classes: seq<string>,
                              iouThresh: real, apStrs: seq<Report>, orders: seq<seq<seq<nat>>>, rankings: seq<seq<nat>>)
    requires DetectionInputs(gtBoxes, detBoxes, |classes|)
  {
    && |apStrs| <= |classes| && |orders| == |apStrs| && |rankings| == |apStrs|
    && forall c {:trigger ClassReported(gtBoxes, detBoxes, classes, iouThresh, c, apStrs[c], orders[c], rankings[c])} ::
         0 <= c < |apStrs| ==> ClassReported(gtBoxes, detBoxes, classes, iouThresh, c, apStrs[c], orders[c], rankings[c])
  }

  lemma ClassesDoneExtend(gtBoxes: seq<seq<GtRow>>, detBoxes: seq<seq<seq<FrameDet>>>, classes: seq<string>,
                          iouThresh: real, apStrs: seq<Report>, orders: seq<seq<seq<nat>>>, rankings: seq<seq<nat>>,
                          report: Report, clsOrders: seq<seq<nat>>, ranked: seq<nat>)
    requires DetectionInputs(gtBoxes, detBoxes, |classes|)
    requires ClassesDone(gtBoxes, detBoxes, classes, iouThresh, apStrs, orders, rankings) && |apStrs| < |classes|
    requires ClassReported(gtBoxes, detBoxes, classes, iouThresh, |apStrs|, report, clsOrders, ranked)
    ensures ClassesDone(gtBoxes, detBoxes, classes, iouThresh, apStrs + [report], orders + [clsOrders], rankings + [ranked])
  {
    var reports, orders', rankings' := apStrs + [report], orders + [clsOrders], rankings + [ranked];
    assert reports[|apStrs|] == report && orders'[|apStrs|] == clsOrders && rankings'[|apStrs|] == ranked;
    assert forall c :: 0 <= c < |apStrs| ==> reports[c] == apStrs[c] && orders'[c] == orders[c] && rankings'[c] == rankings[c];
  }

  /** The body of the class loop of `evaluate_detections` for the next
      class, `|apStrs|`: its AP and its report. */
  method ReportClass(gtBoxes: seq<seq<GtRow>>, detBoxes: seq<seq<seq<FrameDet>>>, classes: seq<string>,
                     iouThresh: real, apStrs: seq<Report>, ghost orders: seq<seq<seq<nat>>>, ghost rankings: seq<seq<nat>>)
    returns (report: Report, ghost clsOrders: seq<seq<nat>>, ghost ranked: seq<nat>)
    requires DetectionInputs(gtBoxes, detBoxes, |classes|)
    requires ClassesDone(gtBoxes, detBoxes, classes, iouThresh, apStrs, orders, rankings) && |apStrs| < |classes|
    ensures ClassesDone(gtBoxes, detBoxes, classes, iouThresh, apStrs + [report], orders + [clsOrders], rankings + [ranked])
  {
    var clsInd := |apStrs|;
    var clsAp, numPositives, detCount;
    clsAp, numPositives, detCount, clsOrders, ranked :=
      EvaluateClass(gtBoxes, detBoxes[clsInd][..|gtBoxes|], clsInd, iouThresh);
    report := Report(classes[clsInd], numPositives, detCount, clsAp);
    ClassesDoneExtend(gtBoxes, detBoxes, classes, iouThresh, apStrs, orders, rankings, report, clsOrders, ranked);
  }

  /** Every AP of the reports is in [0, 100]. */
  lemma ClassesDoneBounds(gtBoxes: seq<seq<GtRow>>, detBoxes: seq<seq<seq<FrameDet>>>, classes: seq<string>,
                          iouThresh: real, apStrs: seq<Report>, orders: seq<seq<seq<nat>>>, rankings: seq<seq<nat>>)
    requires DetectionInputs(gtBoxes, detBoxes, |classes|)
    requires ClassesDone(gtBoxes, detBoxes, classes, iouThresh, apStrs, orders, rankings)
    ensures forall c :: 0 <= c < |apStrs| ==> 0.0 <= ApsOf(apStrs)[c] <= 100.0
  {
    forall c | 0 <= c < |apStrs| ensures 0.0 <= ApsOf(apStrs)[c] <= 100.0 {
      assert ClassReported(gtBoxes, detBoxes, classes, iouThresh, c, apStrs[c], orders[c], rankings[c]);
    }
  }

  /** The outcome of `evaluate_detections`: one AP and one report per class,
      in class order, each the outcome of that class, and their mean. */
  ghost predicate DetectionResult(gtBoxes: seq<seq<GtRow>>, detBoxes: seq<seq<seq<FrameDet>>>, classes: seq<string>,
                                  iouThresh: real, mAP: real, apAll: seq<real>, apStrs: seq<Report>,
                                  orders: seq<seq<seq<nat>>>, rankings: seq<seq<nat>>)
    requires |classes| > 0 && DetectionInputs(gtBoxes, detBoxes, |classes|)
  {
    && |apAll| == |classes| && |apStrs| == |classes|
    && ClassesDone(gtBoxes, detBoxes, classes, iouThresh, apStrs, orders, rankings)
    && apAll == ApsOf(apStrs)
    && mAP == Mean(apAll)
  }

  /** Store the AP of the next class in slot `i` of the AP array. */
  method WriteAp(apArr: array<real>, i: nat, ghost apStrs: seq<Report>, report: Report)
    requires i < apArr.Length && apArr[..i] == ApsOf(apStrs)
    modifies apArr
    ensures apArr[..i + 1] == ApsOf(apStrs + [report])
    ensures forall k :: 0 <= k < apArr.Length && k != i ==> apArr[k] == old(apArr[k])
  {
    apArr[i] := report.ap;
    assert apArr[..i + 1] == ApsOf(apStrs) + [report.ap];
    ApsOfSnoc(apStrs, report);
  }

  /** `evaluate_detections`: one AP per class, stored in a zeroed array of
      one entry per class, and their mean, with one report per class. Every
      AP and the mean are in [0, 100]. */
  method EvaluateDetections(gtBoxes: seq<seq<GtRow>>, detBoxes: seq<seq<seq<FrameDet>>>, classes: seq<string>,
                            iouThresh: real)
    returns (mAP: real, apAll: seq<real>, apStrs: seq<Report>,
             ghost orders: seq<seq<seq<nat>>>, ghost rankings: seq<seq<nat>>)
    requires |classes| > 0 && DetectionInputs(gtBoxes, detBoxes, |classes|)
    ensures DetectionResult(gtBoxes, detBoxes, classes, iouThresh, mAP, apAll, apStrs, orders, rankings)
    ensures forall c :: 0 <= c < |apAll| ==> 0.0 <= apAll[c] <= 100.0
    ensures 0.0 <= mAP <= 100.0
  {
    var numFrames := |gtBoxes|;
    var apArr := new real[|classes|](_ => 0.0);
    apStrs := [];
    orders, rankings := [], [];
    var clsInd := 0;
    while clsInd < |classes|
      invariant 0 <= clsInd <= |classes|
      invariant |apStrs| == clsInd && |orders| == clsInd && |rankings| == clsInd
      invariant apArr[..clsInd] == ApsOf(apStrs)
      invariant ClassesDone(gtBoxes, detBoxes, classes, iouThresh, apStrs, orders, rankings)
    {
      var report;
      ghost var clsOrders, ranked;
      report, clsOrders, ranked := ReportClass(gtBoxes, detBoxes, classes, iouThresh, apStrs, orders, rankings);
      WriteAp(apArr, clsInd, apStrs, report);
      apStrs := apStrs + [report];
      orders := orders + [clsOrders];
      rankings := rankings + [ranked];
      clsInd := clsInd + 1;
    }
    assert apArr[..] == apArr[..clsInd];
    apAll := apArr[..];
    mAP := Mean(apAll);
    assert (forall c :: 0 <= c < |apAll| ==> 0.0 <= apAll[c] <= 100.0) && 0.0 <= mAP <= 100.0 by {
      ClassesDoneBounds(gtBoxes, detBoxes, classes, iouThresh, apStrs, orders, rankings);
      MeanBounds(apAll, 0.0, 100.0);
    }
  }

  /** The results of the first `|aps|` label types of `evaluate`, each the
      result of `evaluate_detections` on that label type. */
  ghost predicate LabelTypesDone(gts: seq<seq<seq<GtRow>>>, dets: seq<seq<seq<seq<FrameDet>>>>,
                                 allClasses: seq<seq<string>>, iouThresh: real,
                                 aps: seq<real>, apsAll: seq<seq<real>>, apStrs: seq<seq<Report>>,
                                 orders: seq<seq<seq<seq<nat>>>>, rankings: seq<seq<seq<nat>>>)
    requires |dets| >= |gts| && |allClasses| >= |gts|
    requires forall t :: 0 <= t < |gts| ==> |allClasses[t]| > 0 && DetectionInputs(gts[t], dets[t], |allClasses[t]|)
  {
    && |aps| <= |gts| && |apsAll| == |aps| && |apStrs| == |aps| && |orders| == |aps| && |rankings| == |aps|
    && forall t :: 0 <= t < |aps| ==>
         && DetectionResult(gts[t], dets[t], allClasses[t], iouThresh, aps[t], apsAll[t], apStrs[t], orders[t], rankings[t])
         && 0.0 <= aps[t] <= 100.0
  }

  lemma LabelTypesDoneExtend(gts: seq<seq<seq<GtRow>>>, dets: seq<seq<seq<seq<FrameDet>>>>,
                             allClasses: seq<seq<string>>, iouThresh: real,
                             aps: seq<real>, apsAll: seq<seq<real>>, apStrs: seq<seq<Report>>,
                             orders: seq<seq<seq<seq<nat>>>>, rankings: seq<seq<seq<nat>>>,
                             a: real, b: seq<real>, c: seq<Report>, o: seq<seq<seq<nat>>>, r: seq<seq<nat>>)
    requires |dets| >= |gts| && |allClasses| >= |gts|
    requires forall t :: 0 <= t < |gts| ==> |allClasses[t]| > 0 && DetectionInputs(gts[t], dets[t], |allClasses[t]|)
    requires LabelTypesDone(gts, dets, allClasses, iouThresh, aps, apsAll, apStrs, orders, rankings)
    requires |aps| < |gts| && 0.0 <= a <= 100.0
    requires DetectionResult(gts[|aps|], dets[|aps|], allClasses[|aps|], iouThresh, a, b, c, o, r)
    ensures LabelTypesDone(gts, dets, allClasses, iouThresh, aps + [a], apsAll + [b], apStrs + [c], orders + [o],
                           rankings + [r])
  {
  }

  /** `evaluate`: `evaluate_detections` once per label type, collecting the
      three results of each in label-type order. */
  method Evaluate(gts: seq<seq<seq<GtRow>>>, dets: seq<seq<seq<seq<FrameDet>>>>, allClasses: seq<seq<string>>,
                  iouThresh: real)
    returns (aps: seq<real>, apsAll: seq<seq<real>>, apStrs: seq<seq<Report>>,
             ghost orders: seq<seq<seq<seq<nat>>>>, ghost rankings: seq<seq<seq<nat>>>)
    requires |dets| >= |gts| && |allClasses| >= |gts|
    requires forall t :: 0 <= t < |gts| ==> |allClasses[t]| > 0 && DetectionInputs(gts[t], dets[t], |allClasses[t]|)
    ensures |aps| == |gts|
    ensures LabelTypesDone(gts, dets, allClasses, iouThresh, aps, apsAll, apStrs, orders, rankings)
  {
    aps, apsAll, apStrs, orders, rankings := [], [], [], [], [];
    var nlt := 0;
    while nlt < |gts|
      invariant 0 <= nlt <= |gts| && |aps| == nlt
      invariant LabelTypesDone(gts, dets, allClasses, iouThresh, aps, apsAll, apStrs, orders, rankings)
    {
      var a, b, c;
      ghost var o, r;
      a, b, c, o, r := EvaluateDetections(gts[nlt], dets[nlt], allClasses[nlt], iouThresh);
      LabelTypesDoneExtend(gts, dets, allClasses, iouThresh, aps, apsAll, apStrs, orders, rankings, a, b, c, o, r);
      aps, apsAll, apStrs := aps + [a], apsAll + [b], apStrs + [c];
      orders, rankings := orders + [o], rankings + [r];
      nlt := nlt + 1;
    }
  }

  // ---------------------------------------------------------------------
  // Ego-action evaluation (`evaluate_ego`)

  /** Column `c` of the frame-by-class score matrix. */
  function Column(dets: seq<seq<real>>, c: nat): (r: seq<real>)
    requires forall f :: 0 <= f < |dets| ==> c < |dets[f]|
    ensures |r| == |dets| && forall f :: 0 <= f < |dets| ==> r[f] == dets[f][c]
  {
    seq(|dets|, f requires 0 <= f < |dets| => dets[f][c])
  }

  /** The flags of class `c`: a frame is a positive when its label is `c`. */
  function EgoFlags(gts: seq<int>, c: int): (r: seq<bool>)
    ensures |r| == |gts| && forall f :: 0 <= f < |gts| ==> r[f] == (gts[f] == c)
  {
    seq(|gts|, f requires 0 <= f < |gts| => gts[f] == c)
  }

  /** The positive count of class `c` is the number of frames labelled `c`. */
  lemma {:induction false} EgoPositives(gts: seq<int>, c: int)
    ensures CountTrue(EgoFlags(gts, c)) == multiset(gts)[c]
    decreases |gts|
  {
    if gts != [] {
      var g' := gts[..|gts| - 1];
      EgoPositives(g', c);
      assert EgoFlags(gts, c) == EgoFlags(g', c) + [gts[|gts| - 1] == c];
      CountTrueAppend(EgoFlags(g', c), [gts[|gts| - 1] == c]);
      assert gts == g' + [gts[|gts| - 1]];
    }
  }

  /** The outcome of one class of `evaluate_ego`: the ranking chosen by the
      sort of the class's score column, the AP of the label flags in that
      ranking, and the report with the unfloored positive count. */
  ghost predicate EgoClassResult(gts: seq<int>, dets: seq<seq<real>>, classes: seq<string>, c: nat, ranked: seq<nat>,
                                 report: Report)
    requires |dets| == |gts| && c < |classes| && forall f :: 0 <= f < |dets| ==> |classes| <= |dets[f]|
  {
    && report.className == classes[c]
    && IsDescendingOrder(Column(dets, c), ranked)
    && report.numPositives == multiset(gts)[c]
    && report.detCount == |gts|
    && report.ap == ScoreAp(EgoFlags(gts, c), ranked, multiset(gts)[c])
    && 0.0 <= report.ap <= 100.0
  }

  /** The reports of the first `|reports|` classes of `evaluate_ego`, in
      class order, each the outcome of its class. */
  ghost predicate EgoDone(gts: seq<int>, dets: seq<seq<real>>, classes: seq<string>, reports: seq<Report>,
                          rankings: seq<seq<nat>>)
    requires |dets| == |gts| && forall f :: 0 <= f < |dets| ==> |classes| <= |dets[f]|
  {
    && |reports| <= |classes| && |rankings| == |reports|
    && forall c {:trigger EgoClassResult(gts, dets, classes, c, rankings[c], reports[c])} ::
         0 <= c < |reports| ==> EgoClassResult(gts, dets, classes, c, rankings[c], reports[c])
  }

  lemma EgoDoneExtend(gts: seq<int>, dets: seq<seq<real>>, classes: seq<string>, reports: seq<Report>,
                      rankings: seq<seq<nat>>, report: Report, ranked: seq<nat>)
    requires |dets| == |gts| && forall f :: 0 <= f < |dets| ==> |classes| <= |dets[f]|
    requires EgoDone(gts, dets, classes, reports, rankings) && |reports| < |classes|
    requires EgoClassResult(gts, dets, classes, |reports|, ranked, report)
    ensures EgoDone(gts, dets, classes, reports + [report], rankings + [ranked])
  {
    var reports', rankings' := reports + [report], rankings + [ranked];
    forall c | 0 <= c < |reports'| ensures EgoClassResult(gts, dets, classes, c, rankings'[c], reports'[c]) {
      if c < |reports| {
        assert EgoClassResult(gts, dets, classes, c, rankings[c], reports[c]);
        assert reports'[c] == reports[c] && rankings'[c] == rankings[c];
      } else {
        assert reports'[c] == report && rankings'[c] == ranked;
      }
    }
  }

  /** Every AP of the ego reports is in [0, 100]. */
  lemma EgoDoneBounds(gts: seq<int>, dets: seq<seq<real>>, classes: seq<string>, reports: seq<Report>,
                      rankings: seq<seq<nat>>)
    requires |dets| == |gts| && forall f :: 0 <= f < |dets| ==> |classes| <= |dets[f]|
    requires EgoDone(gts, dets, classes, reports, rankings)
    ensures forall c :: 0 <= c < |reports| ==> 0.0 <= ApsOf(reports)[c] <= 100.0
  {
    forall c | 0 <= c < |reports| ensures 0.0 <= ApsOf(reports)[c] <= 100.0 {
      assert EgoClassResult(gts, dets, classes, c, rankings[c], reports[c]);
    }
  }

  /** One class of `evaluate_ego`: the class's score column ranks the
      frames, a frame is a true positive exactly when it is labelled with
      the class, and the positive count is the number of such frames. */
  method ReportEgoClass(gts: seq<int>, dets: seq<seq<real>>, classes: seq<string>, clsInd: nat)
    returns (report: Report, ghost ranked: seq<nat>)
    requires |dets| == |gts| && clsInd < |classes| && forall f :: 0 <= f < |dets| ==> |classes| <= |dets[f]|
    ensures EgoClassResult(gts, dets, classes, clsInd, ranked, report)
  {
    var scores := Column(dets, clsInd);
    var istp := EgoFlags(gts, clsInd);
    var numPositives := CountTrue(istp);
    EgoPositives(gts, clsInd);
    var clsAp;
    clsAp, ranked := ClassApFromScores(scores, istp, numPositives);
    report := Report(classes[clsInd], numPositives, |gts|, clsAp);
  }

  /** `evaluate_ego`: one report per class and the mean of the APs, each
      returned as a one-element list. */
  method EvaluateEgo(gts: seq<int>, dets: seq<seq<real>>, classes: seq<string>)
    returns (mAPs: seq<real>, apAlls: seq<seq<real>>, apStrs: seq<seq<Report>>, ghost rankings: seq<seq<nat>>)
    requires |classes| > 0 && |dets| == |gts|
    requires forall f :: 0 <= f < |dets| ==> |classes| <= |dets[f]|
    ensures |mAPs| == 1 && |apAlls| == 1 && |apStrs| == 1
    ensures |apStrs[0]| == |classes| && apAlls[0] == ApsOf(apStrs[0])
    ensures EgoDone(gts, dets, classes, apStrs[0], rankings)
    ensures mAPs[0] == Mean(apAlls[0]) && 0.0 <= mAPs[0] <= 100.0
  {
    var apArr := new real[|classes|](_ => 0.0);
    var reports: seq<Report> := [];
    rankings := [];
    var clsInd := 0;
    while clsInd < |classes|
      invariant 0 <= clsInd <= |classes| && |reports| == clsInd
      invariant apArr[..clsInd] == ApsOf(reports)
      invariant EgoDone(gts, dets, classes, reports, rankings)
    {
      var report;
      ghost var ranked;
      report, ranked := ReportEgoClass(gts, dets, classes, clsInd);
      WriteAp(apArr, clsInd, reports, report);
      EgoDoneExtend(gts, dets, classes, reports, rankings, report, ranked);
      reports := reports + [report];
      rankings := rankings + [ranked];
      clsInd := clsInd + 1;
    }
    assert apArr[..] == apArr[..clsInd];
    var apAll := apArr[..];
    assert 0.0 <= Mean(apAll) <= 100.0 by {
      EgoDoneBounds(gts, dets, classes, reports, rankings);
      MeanBounds(apAll, 0.0, 100.0);
    }
    mAPs, apAlls, apStrs := [Mean(apAll)], [apAll], [reports];
  }

  // ---------------------------------------------------------------------
  // Tube evaluation (`evaluate_tubes`)

  /** The detection tubes of the videos of the subset (`det_tubes`). */
  function DetTubes<V, B>(videoList: seq<V>, detections: map<V, seq<Tube<B>>>): (r: map<V, seq<Tube<B>>>)
    requires forall i :: 0 <= i < |videoList| ==> videoList[i] in detections
    ensures forall i :: 0 <= i < |videoList| ==> videoList[i] in r && r[videoList[i]] == detections[videoList[i]]
  {
    map v | v in videoList :: detections[v]
  }

  /** The ground-truth tubes of class `clId`, video by video. */
  function GtTubesOfClass<V, B>(gtTubes: map<V, seq<Tube<B>>>, clId: int): (r: map<V, seq<Tube<B>>>)
    ensures r.Keys == gtTubes.Keys
  {
    map v | v in gtTubes :: TubesOfClass(gtTubes[v], clId)
  }

  /** The detections of class `clId` over the subset's videos. */
  function TubeClassDets<V, B, D>(videoList: seq<V>, detections: map<V, seq<Tube<B>>>, clId: int,
                                  makeDetTube: Tube<B> -> D): seq<ClassDet<V, D>>
    requires forall i :: 0 <= i < |videoList| ==> videoList[i] in detections
  {
    DetClassTubes(videoList, DetTubes(videoList, detections), clId, makeDetTube)
  }

  /** Every detection of the class comes from a video with ground truth, so
      `compute_class_ap` never looks up a missing video. */
  lemma TubeDetsComparable<V, B, D>(videoList: seq<V>, detections: map<V, seq<Tube<B>>>, gtTubes: map<V, seq<Tube<B>>>,
                                    clId: int, makeDetTube: Tube<B> -> D, tubeIou: (D, Tube<B>) -> real)
    requires forall i :: 0 <= i < |videoList| ==> videoList[i] in detections && videoList[i] in gtTubes
    ensures AllComparable(TubeClassDets(videoList, detections, clId, makeDetTube), GtTubesOfClass(gtTubes, clId), tubeIou)
  {
    var ds := TubeClassDets(videoList, detections, clId, makeDetTube);
    forall i | 0 <= i < |ds| ensures ds[i].unit in GtTubesOfClass(gtTubes, clId) {
      DetClassTubesMembers(videoList, DetTubes(videoList, detections), clId, makeDetTube, ds[i]);
    }
  }

  /** The outcome of one class of `evaluate_tubes`: the ranking chosen by
      the sort on detection scores, the greedy AP of the class's detections
      in that ranking against its ground truth, and the report. */
  ghost predicate TubeClassResult<V, B, D>(videoList: seq<V>, detections: map<V, seq<Tube<B>>>,
                                           gtTubes: map<V, seq<Tube<B>>>, c: nat, tubeIou: (D, Tube<B>) -> real,
                                           makeDetTube: Tube<B> -> D, scoreOf: D -> real, iouThresh: real,
                                           ranked: seq<nat>, report: Report)
    requires forall i :: 0 <= i < |videoList| ==> videoList[i] in detections
  {
    var classDets := TubeClassDets(videoList, detections, c, makeDetTube);
    && IsDescendingOrder(DetScores(classDets, scoreOf), ranked)
    && AllComparable(Apply(classDets, ranked), GtTubesOfClass(gtTubes, c), tubeIou)
    && report.ap == GreedyAp(Apply(classDets, ranked), GtTubesOfClass(gtTubes, c), tubeIou, iouThresh)
    && report.numPositives == FloorPositives(PoolSize(GtTubesOfClass(gtTubes, c)))
    && report.detCount == (if |classDets| == 0 then 0 else |classDets| - 1)
    && 0.0 <= report.ap <= 100.0
  }

  /** The reports of the first `|apStrs|` classes of `evaluate_tubes`, in
      class order, each the outcome of its class. */
  ghost predicate TubesDone<V, B, D>(videoList: seq<V>, detections: map<V, seq<Tube<B>>>,
                                     gtTubes: map<V, seq<Tube<B>>>, classes: seq<string>, tubeIou: (D, Tube<B>) -> real,
                                     makeDetTube: Tube<B> -> D, scoreOf: D -> real, iouThresh: real,
                                     apStrs: seq<Report>, rankings: seq<seq<nat>>)
    requires forall i :: 0 <= i < |videoList| ==> videoList[i] in detections
    decreases |apStrs|
  {
    && |apStrs| <= |classes| && |rankings| == |apStrs|
    && (apStrs != [] ==>
          var n := |apStrs| - 1;
          && TubesDone(videoList, detections, gtTubes, classes, tubeIou, makeDetTube, scoreOf, iouThresh,
                       apStrs[..n], rankings[..n])
          && apStrs[n].className == classes[n]
          && TubeClassResult(videoList, detections, gtTubes, n, tubeIou, makeDetTube, scoreOf, iouThresh,
                             rankings[n], apStrs[n]))
  }

  /** The report of each class `c` is the outcome of class `c`. */
  lemma {:induction false} TubesDoneAt<V, B, D>(videoList: seq<V>, detections: map<V, seq<Tube<B>>>,
                                               gtTubes: map<V, seq<Tube<B>>>, classes: seq<string>,
                                               tubeIou: (D, Tube<B>) -> real, makeDetTube: Tube<B> -> D,
                                               scoreOf: D -> real, iouThresh: real,
                                               apStrs: seq<Report>, rankings: seq<seq<nat>>, c: nat)
    requires forall i :: 0 <= i < |videoList| ==> videoList[i] in detections
    requires TubesDone(videoList, detections, gtTubes, classes, tubeIou, makeDetTube, scoreOf, iouThresh, apStrs, rankings)
    requires c < |apStrs|
    ensures apStrs[c].className == classes[c]
    ensures TubeClassResult(videoList, detections, gtTubes, c, tubeIou, makeDetTube, scoreOf, iouThresh,
                            rankings[c], apStrs[c])
    decreases |apStrs|
  {
    var n := |apStrs| - 1;
    if c < n {
      TubesDoneAt(videoList, detections, gtTubes, classes, tubeIou, makeDetTube, scoreOf, iouThresh,
                  apStrs[..n], rankings[..n], c);
      assert apStrs[..n][c] == apStrs[c] && rankings[..n][c] == rankings[c];
    }
  }

  lemma TubesDoneExtend<V, B, D>(videoList: seq<V>, detections: map<V, seq<Tube<B>>>,
                                 gtTubes: map<V, seq<Tube<B>>>, classes: seq<string>, tubeIou: (D, Tube<B>) -> real,
                                 makeDetTube: Tube<B> -> D, scoreOf: D -> real, iouThresh: real,
                                 apStrs: seq<Report>, rankings: seq<seq<nat>>, report: Report, ranked: seq<nat>)
    requires forall i :: 0 <= i < |videoList| ==> videoList[i] in detections
    requires TubesDone(videoList, detections, gtTubes, classes, tubeIou, makeDetTube, scoreOf, iouThresh, apStrs, rankings)
    requires |apStrs| < |classes| && report.className == classes[|apStrs|]
    requires TubeClassResult(videoList, detections, gtTubes, |apStrs|, tubeIou, makeDetTube, scoreOf, iouThresh,
                             ranked, report)
    ensures TubesDone(videoList, detections, gtTubes, classes, tubeIou, makeDetTube, scoreOf, iouThresh,
                      apStrs + [report], rankings + [ranked])
  {
    assert (apStrs + [report])[..|apStrs|] == apStrs;
    assert (rankings + [ranked])[..|apStrs|] == rankings;
  }

  /** The body of the class loop of `evaluate_tubes` for the next class,
      `|apStrs|`: select its detections and ground truth, score them, and
      build its report. */
  method ReportTubeClass<V, B, D>(videoList: seq<V>, detTubes: map<V, seq<Tube<B>>>, detections: map<V, seq<Tube<B>>>,
                                  gtTubes: map<V, seq<Tube<B>>>, classes: seq<string>, tubeIou: (D, Tube<B>) -> real,
                                  makeDetTube: Tube<B> -> D, scoreOf: D -> real, iouThresh: real,
                                  apStrs: seq<Report>, ghost rankings: seq<seq<nat>>)
    returns (report: Report, ghost ranked: seq<nat>)
    requires forall i :: 0 <= i < |videoList| ==> videoList[i] in detections && videoList[i] in gtTubes
    requires detTubes == DetTubes(videoList, detections)
    requires TubesDone(videoList, detections, gtTubes, classes, tubeIou, makeDetTube, scoreOf, iouThresh, apStrs, rankings)
    requires |apStrs| < |classes|
    ensures TubesDone(videoList, detections, gtTubes, classes, tubeIou, makeDetTube, scoreOf, iouThresh,
                      apStrs + [report], rankings + [ranked])
  {
    var clId := |apStrs|;
    var classDets := GetDetClassTubes(videoList, detTubes, clId, makeDetTube);
    var classGts := GetGtClassTubes(gtTubes, clId);
    assert classGts == GtTubesOfClass(gtTubes, clId);
    TubeDetsComparable(videoList, detections, gtTubes, clId, makeDetTube, tubeIou);
    var classAp, numPositives, count, remaining;
    classAp, numPositives, count, ranked, remaining := ComputeClassAp(classDets, classGts, tubeIou, scoreOf, iouThresh);
    report := Report(classes[clId], numPositives, count, classAp);
    assert TubeClassResult(videoList, detections, gtTubes, clId, tubeIou, makeDetTube, scoreOf, iouThresh, ranked, report);
    TubesDoneExtend(videoList, detections, gtTubes, classes, tubeIou, makeDetTube, scoreOf, iouThresh, apStrs, rankings,
                    report, ranked);
  }

  /** Adding a report adds its AP to the AP list and to the running sum. */
  lemma TotalsSnoc(sap: real, apAll: seq<real>, apStrs: seq<Report>, report: Report)
    requires apAll == ApsOf(apStrs) && sap == Sum(apAll)
    ensures apAll + [report.ap] == ApsOf(apStrs + [report]) && sap + report.ap == Sum(apAll + [report.ap])
  {
    assert (apAll + [report.ap])[..|apAll|] == apAll;
    ApsOfSnoc(apStrs, report);
  }

  /** One pass of the class loop of `evaluate_tubes`: report the next
      class and add its AP to the running sum and the AP list. */
  method NextTubeClass<V, B, D>(videoList: seq<V>, detTubes: map<V, seq<Tube<B>>>, detections: map<V, seq<Tube<B>>>,
                                gtTubes: map<V, seq<Tube<B>>>, classes: seq<string>, tubeIou: (D, Tube<B>) -> real,
                                makeDetTube: Tube<B> -> D, scoreOf: D -> real, iouThresh: real,
                                sap: real, apAll: seq<real>, apStrs: seq<Report>, ghost rankings: seq<seq<nat>>)
    returns (sap': real, apAll': seq<real>, apStrs': seq<Report>, ghost rankings': seq<seq<nat>>)
    requires forall i :: 0 <= i < |videoList| ==> videoList[i] in detections && videoList[i] in gtTubes
    requires detTubes == DetTubes(videoList, detections)
    requires |apStrs| < |classes| && apAll == ApsOf(apStrs) && sap == Sum(apAll)
    requires TubesDone(videoList, detections, gtTubes, classes, tubeIou, makeDetTube, scoreOf, iouThresh, apStrs, rankings)
    ensures |apStrs'| == |apStrs| + 1 && apAll' == ApsOf(apStrs') && sap' == Sum(apAll')
    ensures TubesDone(videoList, detections, gtTubes, classes, tubeIou, makeDetTube, scoreOf, iouThresh, apStrs', rankings')
  {
    var report;
    ghost var ranked;
    report, ranked := ReportTubeClass(videoList, detTubes, detections, gtTubes, classes, tubeIou, makeDetTube, scoreOf,
                                      iouThresh, apStrs, rankings);
    TotalsSnoc(sap, apAll, apStrs, report);
    sap', apAll', apStrs', rankings' := sap + report.ap, apAll + [report.ap], apStrs + [report], rankings + [ranked];
  }

  /** Every AP of the tube reports is in [0, 100]. */
  lemma TubesDoneBounds<V, B, D>(videoList: seq<V>, detections: map<V, seq<Tube<B>>>,
                                 gtTubes: map<V, seq<Tube<B>>>, classes: seq<string>, tubeIou: (D, Tube<B>) -> real,
                                 makeDetTube: Tube<B> -> D, scoreOf: D -> real, iouThresh: real,
                                 apStrs: seq<Report>, rankings: seq<seq<nat>>)
    requires forall i :: 0 <= i < |videoList| ==> videoList[i] in detections
    requires TubesDone(videoList, detections, gtTubes, classes, tubeIou, makeDetTube, scoreOf, iouThresh, apStrs, rankings)
    ensures forall c :: 0 <= c < |apStrs| ==> 0.0 <= ApsOf(apStrs)[c] <= 100.0
  {
    forall c | 0 <= c < |apStrs| ensures 0.0 <= ApsOf(apStrs)[c] <= 100.0 {
      TubesDoneAt(videoList, detections, gtTubes, classes, tubeIou, makeDetTube, scoreOf, iouThresh, apStrs, rankings, c);
    }
  }

  /** `evaluate_tubes` after loading its files: keeps the detection tubes
      of the subset's videos, then for each class selects that class's
      detections and ground truth, scores them with `compute_class_ap`, and
      returns the sum of the APs divided by the number of classes, the APs
      and the reports. The 3D IoU (`get_tube_3Diou`) and the detection-tube
      constructor (`make_det_tube`) are the parameters `tubeIou` and
      `makeDetTube`. */
  method EvaluateTubes<V, B, D>(videoList: seq<V>, gtTubes: map<V, seq<Tube<B>>>, detections: map<V, seq<Tube<B>>>,
                                classes: seq<string>, tubeIou: (D, Tube<B>) -> real, makeDetTube: Tube<B> -> D,
                                scoreOf: D -> real, iouThresh: real)
    returns (mAP: real, apAll: seq<real>, apStrs: seq<Report>, ghost rankings: seq<seq<nat>>)
    requires |classes| > 0
    requires forall i :: 0 <= i < |videoList| ==> videoList[i] in detections && videoList[i] in gtTubes
    ensures |apStrs| == |classes| && apAll == ApsOf(apStrs)
    ensures TubesDone(videoList, detections, gtTubes, classes, tubeIou, makeDetTube, scoreOf, iouThresh, apStrs, rankings)
    ensures mAP == Mean(apAll) && 0.0 <= mAP <= 100.0
  {
    apAll, apStrs, rankings := [], [], [];
    var sap := 0.0;
    var detTubes := DetTubes(videoList, detections);
    var clId := 0;
    while clId < |classes|
      invariant 0 <= clId <= |classes|
      invariant |apStrs| == clId && apAll == ApsOf(apStrs)
      invariant sap == Sum(apAll)
      invariant TubesDone(videoList, detections, gtTubes, classes, tubeIou, makeDetTube, scoreOf, iouThresh, apStrs, rankings)
    {
      sap, apAll, apStrs, rankings := NextTubeClass(videoList, detTubes, detections, gtTubes, classes, tubeIou, makeDetTube,
                                                    scoreOf, iouThresh, sap, apAll, apStrs, rankings);
      clId := clId + 1;
    }
    mAP := sap / (|classes| as real);
    assert 0.0 <= mAP <= 100.0 by {
      TubesDoneBounds(videoList, detections, gtTubes, classes, tubeIou, makeDetTube, scoreOf, iouThresh, apStrs, rankings);
      MeanBounds(apAll, 0.0, 100.0);
    }
  }
}
