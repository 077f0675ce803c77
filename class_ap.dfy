/** Average precision of one class (modules/evaluation.py): the incremental
    greedy evaluator `compute_class_ap`, used for tubes and frames, and the
    cumulative-sum evaluator `get_class_ap_from_scores`, used for the
    frame-level batch form and for ego actions. */
module ClassAp {
  import opened Seqs
  import opened Ranking
  import opened AveragePrecision
  import opened Matching
  import opened Curves

  /** The confidence of every class detection, in list order
      (`det['score']`). */
  function DetScores<U, D>(classDets: seq<ClassDet<U, D>>, scoreOf: D -> real): (r: seq<real>)
    ensures |r| == |classDets|
  {
    Project(classDets, (cd: ClassDet<U, D>) => scoreOf(cd.det))
  }

  /** Reading the class detections in any order keeps every detection
      comparable with its unit's pool. */
  lemma ApplyComparable<U, D, G>(ds: seq<ClassDet<U, D>>, p: seq<nat>, pools: map<U, seq<G>>, matchFunc: (D, G) --> real)
    requires forall k :: 0 <= k < |p| ==> p[k] < |ds|
    requires AllComparable(ds, pools, matchFunc)
    ensures AllComparable(Apply(ds, p), pools, matchFunc)
  {
  }

  /** The AP `compute_class_ap` reports for detections taken in the order
      `ranked`: 100 times the trapezoid area of the incremental table built
      from the greedy pass, with the pooled ground-truth count (at least 1)
      as the recall denominator. */
  ghost function GreedyAp<U, D, G>(ranked: seq<ClassDet<U, D>>, classGts: map<U, seq<G>>, matchFunc: (D, G) --> real,
                                   iouThresh: real): real
    requires AllComparable(ranked, classGts, matchFunc)
  {
    100.0 * PrToAp(IncrementalCurve(Run(ranked, classGts, matchFunc, iouThresh).flags, FloorPositives(PoolSize(classGts))))
  }

  /** Whatever the order and the comparator, the greedy AP is in [0, 100]. */
  lemma GreedyApBounds<U, D, G>(ranked: seq<ClassDet<U, D>>, classGts: map<U, seq<G>>, matchFunc: (D, G) --> real,
                                iouThresh: real)
    requires AllComparable(ranked, classGts, matchFunc)
    ensures 0.0 <= GreedyAp(ranked, classGts, matchFunc, iouThresh) <= 100.0
  {
    RunConservesGroundTruth(ranked, classGts, matchFunc, iouThresh);
    IncrementalApBounds(Run(ranked, classGts, matchFunc, iouThresh).flags, FloorPositives(PoolSize(classGts)));
  }

  /** A class with no ground truth at all scores 0, whatever was detected. */
  lemma GreedyApWithoutGroundTruth<U, D, G>(ranked: seq<ClassDet<U, D>>, classGts: map<U, seq<G>>,
                                            matchFunc: (D, G) --> real, iouThresh: real)
    requires AllComparable(ranked, classGts, matchFunc)
    requires PoolSize(classGts) == 0
    ensures GreedyAp(ranked, classGts, matchFunc, iouThresh) == 0.0
  {
    var flags := Run(ranked, classGts, matchFunc, iouThresh).flags;
    RunConservesGroundTruth(ranked, classGts, matchFunc, iouThresh);
    CountTrueZero(flags);
    NoTruePositivesZeroAp(flags, FloorPositives(PoolSize(classGts)));
  }

  /** `sum([len(class_gts[iid]) for iid in class_gts])`. */
  method TotalGroundTruth<U, G>(classGts: map<U, seq<G>>) returns (total: nat)
    ensures total == PoolSize(classGts)
  {
    total := 0;
    var rest := classGts.Keys;
    while rest != {}
      invariant rest <= classGts.Keys
      invariant total + SizeOver(classGts, rest) == PoolSize(classGts)
      decreases rest
    {
      var iid :| iid in rest;
      SizeOverSplit(classGts, rest, iid);
      total := total + |classGts[iid]|;
      rest := rest - {iid};
    }
  }

  /** The body of the loop of `compute_class_ap` for one detection of unit
      `iid`: when the unit still has ground truth, compute the overlaps,
      take the first largest, and on reaching the threshold delete that
      ground truth and report a true positive. */
  method MatchDetection<U, D, G>(classGts: map<U, seq<G>>, iid: U, det: D, matchFunc: (D, G) --> real, iouThresh: real)
    returns (isPositive: bool, pools: map<U, seq<G>>)
    requires iid in classGts && Comparable(det, classGts[iid], matchFunc)
    ensures (isPositive, pools) == MatchStep(classGts, ClassDet(iid, det), matchFunc, iouThresh)
  {
    isPositive := false;
    pools := classGts;
    if |classGts[iid]| > 0 {
      var ious := Overlaps(det, classGts[iid], matchFunc);
      var maxIouId := FirstArgMax(ious);
      if ious[maxIouId] >= iouThresh {
        isPositive := true;
        pools := classGts[iid := RemoveAt(classGts[iid], maxIouId)];
      }
    }
  }

  /** After the first `i` detections of `ds` the greedy pass has produced
      the outcomes `flags` and left the pools `remaining`. */
  ghost predicate Matched<U, D, G>(ds: seq<ClassDet<U, D>>, i: nat, classGts: map<U, seq<G>>,
                                       matchFunc: (D, G) --> real, iouThresh: real, flags: seq<bool>,
                                       remaining: map<U, seq<G>>)
    requires i <= |ds|
  {
    && AllComparable(ds[..i], classGts, matchFunc)
    && flags == Run(ds[..i], classGts, matchFunc, iouThresh).flags
    && remaining == Run(ds[..i], classGts, matchFunc, iouThresh).pools
  }

  /** Detection `i` of the ranked sequence `ds` matched against the pools
      left by the first `i`: one more step of the greedy pass. */
  method MatchNext<U, D, G>(ghost ds: seq<ClassDet<U, D>>, ghost i: nat, ghost classGts: map<U, seq<G>>, iid: U, det: D,
                            matchFunc: (D, G) --> real, iouThresh: real, remaining: map<U, seq<G>>,
                            ghost flags: seq<bool>)
    returns (isPositive: bool, remaining': map<U, seq<G>>)
    requires AllComparable(ds, classGts, matchFunc) && i < |ds| && ds[i] == ClassDet(iid, det)
    requires Matched(ds, i, classGts, matchFunc, iouThresh, flags, remaining)
    ensures Matched(ds, i + 1, classGts, matchFunc, iouThresh, flags + [isPositive], remaining')
  {
    RunExtend(ds, i, classGts, matchFunc, iouThresh);
    isPositive, remaining' := MatchDetection(remaining, iid, det, matchFunc, iouThresh);
  }

  /** The bookkeeping after one detection with outcome `b`: the tp / fp / fn
      counters move and row `|flags| + 1` of the table gets precision
      tp / (tp + fp) and recall tp / (tp + fn). */
  method RecordOutcome(pr: array<PrPoint>, i: nat, ghost flags: seq<bool>, b: bool, numPositives: nat,
                       tp: nat, fp: nat, fn: int)
    returns (tp': nat, fp': nat, fn': int)
    requires i == |flags| && i + 1 < pr.Length && numPositives >= 1
    requires pr[..i + 1] == IncrementalCurve(flags, numPositives)
    requires tp == CountTrue(flags) && tp + fp == i && tp + fn == numPositives
    modifies pr
    ensures pr[..i + 2] == IncrementalCurve(flags + [b], numPositives)
    ensures tp' == CountTrue(flags + [b]) && tp' + fp' == i + 1 && tp' + fn' == numPositives
    ensures forall k :: i + 2 <= k < pr.Length ==> pr[k] == old(pr[k])
  {
    if b {
      tp', fp', fn' := tp + 1, fp, fn - 1;
    } else {
      tp', fp', fn' := tp, fp + 1, fn;
    }
    CountTrueAppend(flags, [b]);
    ghost var before := pr[..i + 1];
    pr[i + 1] := Row(tp', tp' + fp', numPositives);
    IncrementalCurveSnoc(flags, b, numPositives);
    assert pr[..i + 2] == before + [pr[i + 1]];
  }

  /** The loop of `compute_class_ap` over the detections in the order
      `ranked`: a detection is a true positive when its unit still has
      ground truth and the best overlap with it reaches the threshold, and
      the first ground truth with that best overlap is then deleted from the
      unit. After detection `i` row `i + 1` of `pr` gets precision
      tp / (tp + fp) and recall tp / (tp + fn). */
  method MatchRanked<U, D, G>(classDets: seq<ClassDet<U, D>>, ranked: seq<nat>, classGts: map<U, seq<G>>,
                              matchFunc: (D, G) --> real, iouThresh: real, numPositives: nat, pr: array<PrPoint>)
    returns (count: nat, remaining: map<U, seq<G>>)
    requires forall k :: 0 <= k < |ranked| ==> ranked[k] < |classDets|
    requires AllComparable(Apply(classDets, ranked), classGts, matchFunc)
    requires numPositives >= 1
    requires pr.Length == |ranked| + 1 && pr[0] == PrPoint(1.0, 0.0)
    modifies pr
    ensures pr[..] == IncrementalCurve(Run(Apply(classDets, ranked), classGts, matchFunc, iouThresh).flags, numPositives)
    ensures remaining == Run(Apply(classDets, ranked), classGts, matchFunc, iouThresh).pools
    ensures count == if |ranked| == 0 then 0 else |ranked| - 1
  {
    ghost var ds := Apply(classDets, ranked);
    var fn: int := numPositives;
    var fp: nat, tp: nat := 0, 0;
    remaining := classGts;
    ghost var flags: seq<bool> := [];
    count := 0;
    var i := 0;
    PrefixComparable(ds, 0, classGts, matchFunc);
    while i < |ranked|
      invariant 0 <= i <= |ranked|
      invariant Matched(ds, i, classGts, matchFunc, iouThresh, flags, remaining)
      invariant tp == CountTrue(flags) && tp + fp == i && tp + fn == numPositives
      invariant pr[..i + 1] == IncrementalCurve(flags, numPositives)
      invariant count == if i == 0 then 0 else i - 1
    {
      count := i;
      var detection := classDets[ranked[i]];
      var isPositive;
      isPositive, remaining := MatchNext(ds, i, classGts, detection.unit, detection.det, matchFunc, iouThresh,
                                         remaining, flags);
      ghost var flags' := flags + [isPositive];
      tp, fp, fn := RecordOutcome(pr, i, flags, isPositive, numPositives, tp, fp, fn);
      flags := flags';
      i := i + 1;
    }
    assert ds[..i] == ds;
    assert pr[..] == pr[..i + 1];
  }

  /** `compute_class_ap`: the positive count is the pooled ground truth
      (at least 1), the class detections are ranked by non-increasing score
      and matched greedily, and the AP is 100 times the trapezoid area of the
      precision/recall rows, in [0, 100]. `count` is the index of the last
      detection (0 when there is none); `remaining` is the ground truth left
      unmatched, which the source deletes from the caller's dictionary in
      place. */
  method ComputeClassAp<U, D, G>(classDets: seq<ClassDet<U, D>>, classGts: map<U, seq<G>>,
                                 matchFunc: (D, G) --> real, scoreOf: D -> real, iouThresh: real)
    returns (classAp: real, numPositives: nat, count: nat, ranked: seq<nat>, remaining: map<U, seq<G>>)
    requires AllComparable(classDets, classGts, matchFunc)
    ensures IsDescendingOrder(DetScores(classDets, scoreOf), ranked)
    ensures AllComparable(Apply(classDets, ranked), classGts, matchFunc)
    ensures classAp == GreedyAp(Apply(classDets, ranked), classGts, matchFunc, iouThresh)
    ensures remaining == Run(Apply(classDets, ranked), classGts, matchFunc, iouThresh).pools
    ensures numPositives == FloorPositives(PoolSize(classGts))
    ensures count == if |classDets| == 0 then 0 else |classDets| - 1
    ensures 0.0 <= classAp <= 100.0
  {
    var pr := new PrPoint[|classDets| + 1](_ => PrPoint(0.0, 0.0));
    pr[0] := PrPoint(1.0, 0.0);
    var total := TotalGroundTruth(classGts);
    numPositives := if total < 1 then 1 else total;
    ranked := ArgSortDesc(DetScores(classDets, scoreOf));
    ApplyComparable(classDets, ranked, classGts, matchFunc);
    count, remaining := MatchRanked(classDets, ranked, classGts, matchFunc, iouThresh, numPositives, pr);
    classAp := 100.0 * PrToAp(pr[..]);
    GreedyApBounds(Apply(classDets, ranked), classGts, matchFunc, iouThresh);
  }

  // ---------------------------------------------------------------------
  // Cumulative-sum evaluation (`get_class_ap_from_scores`)

  /** The AP of flags ranked in the order `ranked`: the exact VOC area under
      the cumulative-sum curve, with the positive count floored at 1. */
  function ScoreAp(istp: seq<bool>, ranked: seq<nat>, numPositives: nat): (ap: real)
    requires forall k :: 0 <= k < |ranked| ==> ranked[k] < |istp|
  {
    var sorted := Apply(istp, ranked);
    100.0 * RecallStepArea(PadRecall(BatchRecall(sorted, FloorPositives(numPositives))),
                           Envelope(PadPrecision(BatchPrecision(sorted))))
  }

  /** Once at most `numPositives` flags are set, the score-based AP is in
      [0, 100], whichever tie order the sort chose. */
  lemma ScoreApBounds(istp: seq<bool>, ranked: seq<nat>, numPositives: nat)
    requires IsPermutation(ranked, |istp|)
    requires CountTrue(istp) <= numPositives
    ensures 0.0 <= ScoreAp(istp, ranked, numPositives) <= 100.0
  {
    var sorted := Apply(istp, ranked);
    CountTruePermutation(istp, ranked);
    BatchCurveValid(sorted, FloorPositives(numPositives));
    ExactAreaBounds(BatchRecall(sorted, FloorPositives(numPositives)), BatchPrecision(sorted));
  }

  /** Every detection a true positive, one per positive: the score-based AP
      is 100, whichever tie order the sort chose. */
  lemma ScoreApPerfect(istp: seq<bool>, ranked: seq<nat>)
    requires |istp| >= 1
    requires forall i :: 0 <= i < |istp| ==> istp[i]
    requires IsPermutation(ranked, |istp|)
    ensures ScoreAp(istp, ranked, |istp|) == 100.0
  {
    var n := |istp|;
    var sorted := Apply(istp, ranked);
    AllTrueBatchCurve(sorted, n);
    var rec := BatchRecall(sorted, n);
    assert rec[n - 1] == n as real / n as real == 1.0;
    PaddedAreaFull(rec, BatchPrecision(sorted));
  }

  /** No true positive at all: the score-based AP is 0, whatever the order
      and the positive count. */
  lemma ScoreApWithoutTruePositives(istp: seq<bool>, ranked: seq<nat>, numPositives: nat)
    requires forall k :: 0 <= k < |ranked| ==> ranked[k] < |istp|
    requires CountTrue(istp) == 0
    ensures ScoreAp(istp, ranked, numPositives) == 0.0
  {
    var sorted := Apply(istp, ranked);
    CountTrueZero(istp);
    assert CountTrue(sorted) == 0;
    NoTrueBatchCurve(sorted, FloorPositives(numPositives));
    PaddedAreaZero(BatchRecall(sorted, FloorPositives(numPositives)), BatchPrecision(sorted));
  }

  /** `get_class_ap_from_scores`: floors the positive count at 1, reorders
      the flags by non-increasing score, takes cumulative true and false
      positive counts, and returns the exact VOC AP of the resulting curve. */
  method ClassApFromScores(scores: seq<real>, istp: seq<bool>, numPositives: nat) returns (clsAp: real, ranked: seq<nat>)
    requires |scores| == |istp|
    ensures IsDescendingOrder(scores, ranked)
    ensures clsAp == ScoreAp(istp, ranked, numPositives)
    ensures CountTrue(istp) <= numPositives ==> 0.0 <= clsAp <= 100.0
  {
    var positives := if numPositives < 1 then 1 else numPositives;
    ranked := ArgSortDesc(scores);
    var sorted := Apply(istp, ranked);
    var recall := BatchRecall(sorted, positives);
    var precision := BatchPrecision(sorted);
    clsAp := VocAp(recall, precision, false);
    if CountTrue(istp) <= numPositives {
      ScoreApBounds(istp, ranked, numPositives);
    }
  }
}
