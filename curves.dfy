/** Precision/recall curves built from true-positive flags listed in rank
    order (modules/evaluation.py). Two constructions appear in the source:
    the incremental table of `compute_class_ap`, which keeps running
    true-positive, false-positive and false-negative counters, and the
    cumulative-sum form of `evaluate_detections` and
    `get_class_ap_from_scores`. */
module Curves {
  import opened Seqs
  import opened AveragePrecision

  /** `np.finfo(np.float64).eps`, the floor of the precision denominator. */
  const Eps: real := 1.0 / 4503599627370496.0

  /** The recall denominator: a positive count below 1 is replaced by 1. */
  function FloorPositives(n: nat): (r: nat)
    ensures r >= 1 && (n >= 1 ==> r == n)
    ensures n == 0 ==> r == 1
  {
    if n < 1 then 1 else n
  }

  // ---------------------------------------------------------------------
  // Ratios of counts

  /** `a / b` for counts with `a <= b` lies in [0, 1]. */
  lemma RatioWithin(a: nat, b: nat)
    requires 1 <= b && a <= b
    ensures 0.0 <= (a as real) / (b as real) <= 1.0
  {
    assert (a as real) / (b as real) <= (b as real) / (b as real);
  }

  /** Dividing by the same positive count keeps the order. */
  lemma RatioMonotone(a: nat, b: nat, n: nat)
    requires 1 <= n && a <= b
    ensures (a as real) / (n as real) <= (b as real) / (n as real)
  {
  }

  // ---------------------------------------------------------------------
  // Incremental table (`compute_class_ap`)

  /** One row written after `seen` detections of which `tp` were true
      positives: precision tp / (tp + fp) with tp + fp = seen, recall
      tp / (tp + fn) with tp + fn = the positive count. */
  function Row(tp: nat, seen: nat, numPositives: nat): PrPoint
    requires seen >= 1 && numPositives >= 1
  {
    PrPoint((tp as real) / (seen as real), (tp as real) / (numPositives as real))
  }

  /** The `pr` table after the flags have been processed in order: the
      sentinel row (precision 1, recall 0), then one row per detection. */
  function IncrementalCurve(flags: seq<bool>, numPositives: nat): (pr: seq<PrPoint>)
    requires numPositives >= 1
    ensures |pr| == |flags| + 1
    decreases |flags|
  {
    if flags == [] then [PrPoint(1.0, 0.0)]
    else IncrementalCurve(flags[..|flags| - 1], numPositives) + [Row(CountTrue(flags), |flags|, numPositives)]
  }

  /** Processing one more flag appends one row. */
  lemma IncrementalCurveSnoc(flags: seq<bool>, b: bool, numPositives: nat)
    requires numPositives >= 1
    ensures IncrementalCurve(flags + [b], numPositives)
            == IncrementalCurve(flags, numPositives) + [Row(CountTrue(flags + [b]), |flags| + 1, numPositives)]
  {
    assert (flags + [b])[..|flags|] == flags;
  }

  /** Row `k` (for `k >= 1`) of the table reports the flags among the first
      `k` detections, and row 0 is the sentinel. */
  lemma {:induction false} IncrementalCurveRows(flags: seq<bool>, numPositives: nat)
    requires numPositives >= 1
    ensures IncrementalCurve(flags, numPositives)[0] == PrPoint(1.0, 0.0)
    ensures forall k :: 1 <= k <= |flags| ==>
              IncrementalCurve(flags, numPositives)[k] == Row(CountTrue(flags[..k]), k, numPositives)
    decreases |flags|
  {
    if flags != [] {
      var f' := flags[..|flags| - 1];
      var pr, pr' := IncrementalCurve(flags, numPositives), IncrementalCurve(f', numPositives);
      IncrementalCurveRows(f', numPositives);
      assert pr == pr' + [Row(CountTrue(flags), |flags|, numPositives)];
      forall k | 1 <= k <= |flags| ensures pr[k] == Row(CountTrue(flags[..k]), k, numPositives) {
        if k < |flags| {
          assert flags[..k] == f'[..k];
          assert pr[k] == pr'[k];
        } else {
          assert flags[..k] == flags;
        }
      }
    }
  }

  /** With no more true positives than positives, the table is a valid curve:
      recall never decreases and stays in [0, 1], precision stays in [0, 1]. */
  lemma {:induction false} IncrementalCurveValid(flags: seq<bool>, numPositives: nat)
    requires numPositives >= 1 && CountTrue(flags) <= numPositives
    ensures RecallNonDecreasing(IncrementalCurve(flags, numPositives))
    ensures PrecisionWithin(IncrementalCurve(flags, numPositives), 0.0, 1.0)
    ensures forall i :: 0 <= i < |flags| + 1 ==> 0.0 <= IncrementalCurve(flags, numPositives)[i].recall <= 1.0
  {
    var pr := IncrementalCurve(flags, numPositives);
    IncrementalCurveRows(flags, numPositives);
    assert flags[..|flags|] == flags;
    forall i | 1 <= i < |pr|
      ensures 0.0 <= pr[i].precision <= 1.0 && 0.0 <= pr[i].recall <= 1.0
    {
      CountTruePrefix(flags, i, |flags|);
      RatioWithin(CountTrue(flags[..i]), i);
      RatioWithin(CountTrue(flags[..i]), numPositives);
    }
    forall a, b | 0 <= a < b < |pr| ensures pr[a].recall <= pr[b].recall {
      if a > 0 {
        CountTruePrefix(flags, a, b);
        RatioMonotone(CountTrue(flags[..a]), CountTrue(flags[..b]), numPositives);
      } else {
        RatioWithin(CountTrue(flags[..b]), b);
      }
    }
  }

  /** The trapezoid area of the incremental table, as `compute_class_ap`
      reports it (times 100), lies in [0, 100]. */
  lemma IncrementalApBounds(flags: seq<bool>, numPositives: nat)
    requires numPositives >= 1 && CountTrue(flags) <= numPositives
    ensures 0.0 <= 100.0 * PrToAp(IncrementalCurve(flags, numPositives)) <= 100.0
  {
    var pr := IncrementalCurve(flags, numPositives);
    IncrementalCurveValid(flags, numPositives);
    IncrementalCurveRows(flags, numPositives);
    PrToApAtMostRecallGain(pr);
  }

  /** A ranking whose every detection is a true positive, with exactly as
      many detections as positives, scores AP 100. */
  lemma PerfectRankingFullAp(flags: seq<bool>)
    requires |flags| >= 1 && forall i :: 0 <= i < |flags| ==> flags[i]
    ensures 100.0 * PrToAp(IncrementalCurve(flags, |flags|)) == 100.0
  {
    AllTrueArea(flags, |flags|);
    assert (|flags| as real) / (|flags| as real) == 1.0;
  }

  /** Along an all-true prefix every trapezoid has height 1 and width 1/n. */
  lemma {:induction false} AllTrueArea(flags: seq<bool>, n: nat)
    requires n >= 1 && |flags| <= n && forall i :: 0 <= i < |flags| ==> flags[i]
    ensures PrToAp(IncrementalCurve(flags, n)) == (|flags| as real) / (n as real)
    ensures IncrementalCurve(flags, n)[|flags|] == PrPoint(1.0, (|flags| as real) / (n as real))
    decreases |flags|
  {
    if flags != [] {
      var f' := flags[..|flags| - 1];
      AllTrueArea(f', n);
      var pr := IncrementalCurve(flags, n);
      var m := |flags|;
      assert CountTrue(flags) == m;
      assert pr == IncrementalCurve(f', n) + [Row(m, m, n)];
      assert pr[..|pr| - 1] == IncrementalCurve(f', n);
      AllTrueStep(m, n);
    }
  }

  /** The arithmetic of one all-true step: the new row is (1, m/n) and the
      trapezoid from (1, (m-1)/n) or the sentinel (1, 0) has area 1/n. */
  lemma AllTrueStep(m: nat, n: nat)
    requires 1 <= m <= n
    ensures Row(m, m, n) == PrPoint(1.0, (m as real) / (n as real))
    ensures ((m - 1) as real) / (n as real) + Trapezoid(PrPoint(1.0, ((m - 1) as real) / (n as real)), Row(m, m, n))
            == (m as real) / (n as real)
  {
    assert (m as real) / (m as real) == 1.0;
    var r := 1.0 / (n as real);
    assert (m as real) / (n as real) - ((m - 1) as real) / (n as real) == r;
  }

  /** Without a single true positive the trapezoid area is 0. */
  lemma {:induction false} NoTruePositivesZeroAp(flags: seq<bool>, numPositives: nat)
    requires numPositives >= 1 && forall i :: 0 <= i < |flags| ==> !flags[i]
    ensures PrToAp(IncrementalCurve(flags, numPositives)) == 0.0
    ensures IncrementalCurve(flags, numPositives)[|flags|].recall == 0.0
    decreases |flags|
  {
    if flags != [] {
      var f' := flags[..|flags| - 1];
      NoTruePositivesZeroAp(f', numPositives);
      var pr := IncrementalCurve(flags, numPositives);
      assert CountTrue(flags) == 0;
      assert pr == IncrementalCurve(f', numPositives) + [Row(0, |flags|, numPositives)];
      assert pr[..|pr| - 1] == IncrementalCurve(f', numPositives);
    }
  }

  // ---------------------------------------------------------------------
  // Cumulative-sum form (`get_class_ap_from_scores`)

  /** `istp == 0`: the false-positive indicator of each ranked detection. */
  function Negate(flags: seq<bool>): (r: seq<bool>)
    ensures |r| == |flags| && forall i :: 0 <= i < |flags| ==> r[i] == !flags[i]
  {
    Project(flags, (b: bool) => !b)
  }

  /** `np.cumsum(flags)`: entry `i` counts the set flags among the first `i + 1`. */
  function CumSum(flags: seq<bool>): (c: seq<nat>)
    ensures |c| == |flags|
  {
    seq(|flags|, i requires 0 <= i < |flags| => CountTrue(flags[..i + 1]))
  }

  /** `recall = tp / num_postives`. */
  function BatchRecall(istp: seq<bool>, numPositives: nat): (rec: seq<real>)
    requires numPositives >= 1
    ensures |rec| == |istp|
  {
    var tp := CumSum(istp);
    seq(|istp|, i requires 0 <= i < |istp| => tp[i] as real / numPositives as real)
  }

  /** `precision = tp / np.maximum(tp + fp, eps)`. */
  function BatchPrecision(istp: seq<bool>): (prec: seq<real>)
    ensures |prec| == |istp|
  {
    var tp, fp := CumSum(istp), CumSum(Negate(istp));
    seq(|istp|, i requires 0 <= i < |istp| => tp[i] as real / Max((tp[i] + fp[i]) as real, Eps))
  }

  /** Every flag is counted by exactly one of the two indicators. */
  lemma {:induction false} CountTrueNegate(flags: seq<bool>)
    ensures CountTrue(flags) + CountTrue(Negate(flags)) == |flags|
    decreases |flags|
  {
    if flags != [] {
      var n := |flags| - 1;
      var f', g := flags[..n], Negate(flags);
      CountTrueNegate(f');
      assert g[..n] == Negate(f');
      assert CountTrue(g) == CountTrue(Negate(f')) + (if g[n] then 1 else 0);
      assert CountTrue(flags) == CountTrue(f') + (if flags[n] then 1 else 0);
    }
  }

  /** At rank `i` the two cumulative columns add up to `i + 1`. */
  lemma {:induction false} CumulativeAt(istp: seq<bool>, i: nat)
    requires i < |istp|
    ensures CumSum(istp)[i] + CumSum(Negate(istp))[i] == i + 1
  {
    var p := istp[..i + 1];
    assert CumSum(istp)[i] == CountTrue(p);
    assert Negate(istp)[..i + 1] == Negate(p);
    assert CumSum(Negate(istp))[i] == CountTrue(Negate(p));
    CountTrueNegate(p);
  }

  /** The true-positive column never exceeds the total true-positive count. */
  lemma CumulativeAtMost(istp: seq<bool>, i: nat)
    requires i < |istp|
    ensures CumSum(istp)[i] <= CountTrue(istp)
  {
    assert CumSum(istp)[i] == CountTrue(istp[..i + 1]);
    CountTruePrefix(istp, i + 1, |istp|);
    assert istp[..|istp|] == istp;
  }

  /** The two cumulative columns add up to the rank plus one, neither
      column ever decreases, and the true-positive column ends at the total. */
  lemma {:induction false} CumulativeCounts(istp: seq<bool>)
    ensures forall i :: 0 <= i < |istp| ==> CumSum(istp)[i] + CumSum(Negate(istp))[i] == i + 1
    ensures forall i, j :: 0 <= i <= j < |istp| ==> CumSum(istp)[i] <= CumSum(istp)[j]
    ensures forall i, j :: 0 <= i <= j < |istp| ==> CumSum(Negate(istp))[i] <= CumSum(Negate(istp))[j]
    ensures |istp| > 0 ==> CumSum(istp)[|istp| - 1] == CountTrue(istp)
  {
    forall i | 0 <= i < |istp| ensures CumSum(istp)[i] + CumSum(Negate(istp))[i] == i + 1 {
      CumulativeAt(istp, i);
    }
    forall i, j | 0 <= i <= j < |istp| ensures CumSum(istp)[i] <= CumSum(istp)[j] {
      CumulativeMonotone(istp, i, j);
    }
    forall i, j | 0 <= i <= j < |istp| ensures CumSum(Negate(istp))[i] <= CumSum(Negate(istp))[j] {
      CumulativeMonotone(Negate(istp), i, j);
    }
    if |istp| > 0 {
      assert CumSum(istp)[|istp| - 1] == CountTrue(istp[..|istp|]);
      assert istp[..|istp|] == istp;
    }
  }

  /** A cumulative count column never decreases. */
  lemma CumulativeMonotone(istp: seq<bool>, i: nat, j: nat)
    requires i <= j < |istp|
    ensures CumSum(istp)[i] <= CumSum(istp)[j]
  {
    assert CumSum(istp)[i] == CountTrue(istp[..i + 1]);
    assert CumSum(istp)[j] == CountTrue(istp[..j + 1]);
    CountTruePrefix(istp, i + 1, j + 1);
  }

  /** The `eps` floor never takes effect: every denominator is at least 1, so
      precision is true positives over the rank plus one. */
  lemma {:induction false} EpsNeverApplies(istp: seq<bool>)
    ensures forall i :: 0 <= i < |istp| ==>
              BatchPrecision(istp)[i] == CumSum(istp)[i] as real / ((i + 1) as real)
  {
    forall i | 0 <= i < |istp|
      ensures BatchPrecision(istp)[i] == CumSum(istp)[i] as real / ((i + 1) as real)
    {
      CumulativeAt(istp, i);
    }
  }

  /** A ranking made only of true positives: the cumulative count at rank `i`
      is `i + 1`, so every precision is 1 and recall grows by one positive
      per rank. */
  lemma {:induction false} AllTrueBatchCurve(istp: seq<bool>, numPositives: nat)
    requires numPositives >= 1
    requires forall i :: 0 <= i < |istp| ==> istp[i]
    ensures forall i :: 0 <= i < |istp| ==>
              BatchPrecision(istp)[i] == 1.0
              && BatchRecall(istp, numPositives)[i] == (i + 1) as real / numPositives as real
  {
    forall i | 0 <= i < |istp|
      ensures BatchPrecision(istp)[i] == 1.0
      ensures BatchRecall(istp, numPositives)[i] == (i + 1) as real / numPositives as real
    {
      AllTrueCounts(istp, i);
      FullRatio(i + 1);
    }
  }

  /** Over hits only, the cumulative columns at rank `i` are `i + 1` and 0. */
  lemma AllTrueCounts(istp: seq<bool>, i: nat)
    requires i < |istp|
    requires forall k :: 0 <= k < |istp| ==> istp[k]
    ensures CumSum(istp)[i] == i + 1 && CumSum(Negate(istp))[i] == 0
  {
    var prefix := istp[..i + 1];
    assert forall k :: 0 <= k < |prefix| ==> prefix[k];
    CumulativeAt(istp, i);
  }

  /** A count of at least 1 over itself, with the `eps` floor, is 1. */
  lemma FullRatio(n: nat)
    requires n >= 1
    ensures n as real / Max(n as real, Eps) == 1.0
  {
    assert Max(n as real, Eps) == n as real;
  }

  /** A ranking without a true positive: every recall and every precision
      of the cumulative-sum curve is 0. */
  lemma {:induction false} NoTrueBatchCurve(istp: seq<bool>, numPositives: nat)
    requires numPositives >= 1
    requires CountTrue(istp) == 0
    ensures forall i :: 0 <= i < |istp| ==>
              BatchPrecision(istp)[i] == 0.0 && BatchRecall(istp, numPositives)[i] == 0.0
  {
    forall i | 0 <= i < |istp| ensures CumSum(istp)[i] == 0 {
      CountTruePrefix(istp, i + 1, |istp|);
      assert istp[..|istp|] == istp;
    }
  }

  /** With no more true positives than positives, the cumulative-sum curve is
      valid: recall non-decreasing in [0, 1], precision in [0, 1]. */
  lemma {:induction false} BatchCurveValid(istp: seq<bool>, numPositives: nat)
    requires numPositives >= 1 && CountTrue(istp) <= numPositives
    ensures ValidCurve(BatchRecall(istp, numPositives), BatchPrecision(istp))
  {
    var rec, prec := BatchRecall(istp, numPositives), BatchPrecision(istp);
    var tp := CumSum(istp);
    EpsNeverApplies(istp);
    forall i | 0 <= i < |istp| ensures 0.0 <= rec[i] <= 1.0 && 0.0 <= prec[i] <= 1.0 {
      CumulativeAt(istp, i);
      CumulativeAtMost(istp, i);
      RatioWithin(tp[i], i + 1);
      RatioWithin(tp[i], numPositives);
    }
    forall i, j | 0 <= i < j < |istp| ensures rec[i] <= rec[j] {
      CumulativeMonotone(istp, i, j);
      RatioMonotone(tp[i], tp[j], numPositives);
    }
  }

  /** The two constructions agree: row `i + 1` of the incremental table is
      the `i`-th precision/recall pair of the cumulative-sum form. */
  lemma IncrementalMatchesBatch(flags: seq<bool>, numPositives: nat)
    requires numPositives >= 1
    ensures forall i :: 0 <= i < |flags| ==>
              IncrementalCurve(flags, numPositives)[i + 1]
                == PrPoint(BatchPrecision(flags)[i], BatchRecall(flags, numPositives)[i])
  {
    IncrementalCurveRows(flags, numPositives);
    EpsNeverApplies(flags);
  }
}
