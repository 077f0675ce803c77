/** Average-precision integrators (modules/evaluation.py, `voc_ap` and
    `pr_to_ap`): the PASCAL VOC rule, either the 11-point interpolation or the
    exact area under the precision envelope, and the trapezoid rule over a
    precision/recall table. Values are exact reals. */
module AveragePrecision {
  import opened Seqs

  /** One row of a precision/recall table: column 0 precision, column 1 recall. */
  datatype PrPoint = PrPoint(precision: real, recall: real)

  predicate NonDecreasing(s: seq<real>) {
    forall i, j :: 0 <= i < j < |s| ==> s[i] <= s[j]
  }

  predicate NonIncreasing(s: seq<real>) {
    forall i, j :: 0 <= i < j < |s| ==> s[i] >= s[j]
  }

  predicate Within(s: seq<real>, lo: real, hi: real) {
    forall i :: 0 <= i < |s| ==> lo <= s[i] <= hi
  }

  /** A recall column that never decreases and stays in [0, 1], with
      precisions in [0, 1]: what the curve builders produce. */
  predicate ValidCurve(rec: seq<real>, prec: seq<real>) {
    |rec| == |prec| && NonDecreasing(rec) && Within(rec, 0.0, 1.0) && Within(prec, 0.0, 1.0)
  }

  function Max(a: real, b: real): real { if a >= b then a else b }

  // ---------------------------------------------------------------------
  // Trapezoid rule

  /** Area of one trapezoid between consecutive rows: recall step times the
      mean of the two precisions. */
  function Trapezoid(a: PrPoint, b: PrPoint): (area: real) {
    (b.recall - a.recall) * (b.precision + a.precision) * 0.5
  }

  /** `pr_to_ap`: the sum of the trapezoids over consecutive rows. A table
      whose recall never moves encloses no area. */
  function PrToAp(pr: seq<PrPoint>): (ap: real)
    ensures (forall i :: 0 <= i < |pr| ==> pr[i].recall == pr[0].recall) ==> ap == 0.0
  {
    if |pr| < 2 then 0.0
    else PrToAp(pr[..|pr| - 1]) + Trapezoid(pr[|pr| - 2], pr[|pr| - 1])
  }

  predicate RecallNonDecreasing(pr: seq<PrPoint>) {
    forall i, j :: 0 <= i < j < |pr| ==> pr[i].recall <= pr[j].recall
  }

  predicate PrecisionWithin(pr: seq<PrPoint>, lo: real, hi: real) {
    forall i :: 0 <= i < |pr| ==> lo <= pr[i].precision <= hi
  }

  /** The product of a non-negative width and a height in [0, 2]. */
  lemma ProductBounds(d: real, h: real)
    requires 0.0 <= d && 0.0 <= h
    ensures 0.0 <= d * h
    ensures h <= 2.0 ==> d * h <= 2.0 * d
  {
    if h <= 2.0 {
      assert d * h <= d * 2.0;
    }
  }

  lemma TrapezoidBounds(a: PrPoint, b: PrPoint)
    requires a.recall <= b.recall
    requires 0.0 <= a.precision && 0.0 <= b.precision
    ensures 0.0 <= Trapezoid(a, b)
    ensures a.precision <= 1.0 && b.precision <= 1.0 ==> Trapezoid(a, b) <= b.recall - a.recall
  {
    var d, h := b.recall - a.recall, b.precision + a.precision;
    ProductBounds(d, h);
    var p := d * h;
    assert Trapezoid(a, b) == p * 0.5;
  }

  /** With recall never decreasing and non-negative precisions, the
      trapezoid area is non-negative. */
  lemma {:induction false} PrToApNonNegative(pr: seq<PrPoint>)
    requires RecallNonDecreasing(pr)
    requires forall i :: 0 <= i < |pr| ==> 0.0 <= pr[i].precision
    ensures 0.0 <= PrToAp(pr)
  {
    if |pr| >= 2 {
      PrToApNonNegative(pr[..|pr| - 1]);
      TrapezoidBounds(pr[|pr| - 2], pr[|pr| - 1]);
    }
  }

  /** With precisions in [0, 1], the area is at most the recall gained from
      the first row to the last. */
  lemma {:induction false} PrToApAtMostRecallGain(pr: seq<PrPoint>)
    requires |pr| > 0
    requires RecallNonDecreasing(pr) && PrecisionWithin(pr, 0.0, 1.0)
    ensures 0.0 <= PrToAp(pr) <= pr[|pr| - 1].recall - pr[0].recall
  {
    if |pr| >= 2 {
      PrToApAtMostRecallGain(pr[..|pr| - 1]);
      TrapezoidBounds(pr[|pr| - 2], pr[|pr| - 1]);
    }
  }

  // ---------------------------------------------------------------------
  // VOC 2007 11-point interpolation

  /** `np.sum(rec >= t)`: how many recall entries reach `t`. */
  function CountAtLeast(rec: seq<real>, t: real): (n: nat)
    ensures n == 0 <==> forall i :: 0 <= i < |rec| ==> rec[i] < t
  {
    if rec == [] then 0
    else CountAtLeast(rec[..|rec| - 1], t) + (if rec[|rec| - 1] >= t then 1 else 0)
  }

  /** `np.max(prec[rec >= t])`: the largest precision whose recall reaches `t`. */
  function MaxAtLeast(rec: seq<real>, prec: seq<real>, t: real): (p: real)
    requires |rec| == |prec| && CountAtLeast(rec, t) > 0
    ensures exists i :: 0 <= i < |rec| && rec[i] >= t && p == prec[i]
    ensures forall i :: 0 <= i < |rec| && rec[i] >= t ==> prec[i] <= p
  {
    var n := |rec|;
    if CountAtLeast(rec[..n - 1], t) == 0 then
      assert rec[n - 1] >= t;
      prec[n - 1]
    else
      var p := MaxAtLeast(rec[..n - 1], prec[..n - 1], t);
      if rec[n - 1] >= t then Max(p, prec[n - 1]) else p
  }

  /** The interpolated precision at recall level `t`: the best precision at
      any recall of at least `t`, or 0 when no recall gets there. */
  function InterpolatedPrecision(rec: seq<real>, prec: seq<real>, t: real): real
    requires |rec| == |prec|
  {
    if CountAtLeast(rec, t) == 0 then 0.0 else MaxAtLeast(rec, prec, t)
  }

  /** The recall thresholds 0.0, 0.1, ..., 1.0 (`np.arange(0., 1.1, 0.1)`). */
  function Threshold(k: nat): real {
    (k as real) / 10.0
  }

  /** The running 11-point sum after the first `k` thresholds. */
  function ElevenPointSum(rec: seq<real>, prec: seq<real>, k: nat): real
    requires |rec| == |prec|
  {
    if k == 0 then 0.0
    else ElevenPointSum(rec, prec, k - 1) + InterpolatedPrecision(rec, prec, Threshold(k - 1)) / 11.0
  }

  lemma InterpolatedPrecisionWithin(rec: seq<real>, prec: seq<real>, t: real)
    requires |rec| == |prec| && Within(prec, 0.0, 1.0)
    ensures 0.0 <= InterpolatedPrecision(rec, prec, t) <= 1.0
  {
  }

  lemma {:induction false} ElevenPointSumBounds(rec: seq<real>, prec: seq<real>, k: nat)
    requires |rec| == |prec| && Within(prec, 0.0, 1.0)
    ensures 0.0 <= ElevenPointSum(rec, prec, k) <= (k as real) / 11.0
  {
    if k > 0 {
      ElevenPointSumBounds(rec, prec, k - 1);
      InterpolatedPrecisionWithin(rec, prec, Threshold(k - 1));
    }
  }

  /** `voc_ap(rec, prec, use_07_metric=True)`: the mean of the 11
      interpolated precisions, on the percentage scale. */
  method VocAp07(rec: seq<real>, prec: seq<real>) returns (ap: real)
    requires |rec| == |prec|
    ensures ap == ElevenPointSum(rec, prec, 11) * 100.0
    ensures Within(prec, 0.0, 1.0) ==> 0.0 <= ap <= 100.0
  {
    var acc := 0.0;
    var k := 0;
    while k < 11
      invariant 0 <= k <= 11
      invariant acc == ElevenPointSum(rec, prec, k)
    {
      var t := Threshold(k);
      var p;
      if CountAtLeast(rec, t) == 0 {
        p := 0.0;
      } else {
        p := MaxAtLeast(rec, prec, t);
      }
      acc := acc + p / 11.0;
      k := k + 1;
    }
    ap := acc * 100.0;
    if Within(prec, 0.0, 1.0) {
      ElevenPointSumBounds(rec, prec, 11);
    }
  }

  // ---------------------------------------------------------------------
  // Exact area under the precision envelope

  /** The largest entry of `s` at index `i` or later. */
  function SuffixMax(s: seq<real>, i: nat): real
    requires i < |s|
    decreases |s| - i
  {
    if i == |s| - 1 then s[i] else Max(s[i], SuffixMax(s, i + 1))
  }

  /** The precision envelope: each entry replaced by the largest entry at or
      after it. */
  function Envelope(s: seq<real>): (e: seq<real>)
    ensures |e| == |s|
  {
    seq(|s|, i requires 0 <= i < |s| => SuffixMax(s, i))
  }

  /** The suffix maximum can only shrink as the suffix starts later. */
  lemma {:induction false} SuffixMaxAntitone(s: seq<real>, a: nat, b: nat)
    requires a <= b < |s|
    ensures SuffixMax(s, b) <= SuffixMax(s, a)
    decreases b - a
  {
    if a < b {
      SuffixMaxAntitone(s, a + 1, b);
    }
  }

  lemma {:induction false} SuffixMaxWithin(s: seq<real>, i: nat, lo: real, hi: real)
    requires i < |s| && Within(s, lo, hi)
    ensures lo <= SuffixMax(s, i) <= hi
    decreases |s| - i
  {
    if i < |s| - 1 {
      SuffixMaxWithin(s, i + 1, lo, hi);
    }
  }

  /** The envelope never increases and dominates the input pointwise. */
  lemma EnvelopeProps(s: seq<real>)
    ensures NonIncreasing(Envelope(s))
    ensures forall i :: 0 <= i < |s| ==> s[i] <= Envelope(s)[i]
  {
    var e := Envelope(s);
    forall a, b | 0 <= a < b < |s| ensures e[a] >= e[b] {
      SuffixMaxAntitone(s, a, b);
    }
  }

  /** Entries in [lo, hi] keep the envelope in [lo, hi]. */
  lemma EnvelopeWithin(s: seq<real>, lo: real, hi: real)
    requires Within(s, lo, hi)
    ensures Within(Envelope(s), lo, hi)
  {
    forall i | 0 <= i < |s| ensures lo <= Envelope(s)[i] <= hi {
      SuffixMaxWithin(s, i, lo, hi);
    }
  }

  /** The backward loop of `voc_ap`: `mpre[i-1] = max(mpre[i-1], mpre[i])`
      for i from the last index down to 1, in place. */
  method PrecisionEnvelope(mpre: array<real>)
    modifies mpre
    ensures mpre[..] == Envelope(old(mpre[..]))
  {
    ghost var s := mpre[..];
    var i := mpre.Length - 1;
    while i > 0
      invariant -1 <= i < mpre.Length
      invariant mpre.Length > 0 ==> 0 <= i
      invariant forall j :: 0 <= j < i ==> mpre[j] == s[j]
      invariant forall j :: 0 <= i <= j < mpre.Length ==> mpre[j] == SuffixMax(s, j)
    {
      mpre[i - 1] := Max(mpre[i - 1], mpre[i]);
      i := i - 1;
    }
  }

  /** The area term of `voc_ap`: over every index where the padded recall
      changes, the recall step times the envelope precision after it. */
  function RecallStepArea(mrec: seq<real>, mpre: seq<real>): real
    requires |mrec| == |mpre|
  {
    var n := |mrec|;
    if n < 2 then 0.0
    else RecallStepArea(mrec[..n - 1], mpre[..n - 1]) + StepTerm(mrec[n - 2], mrec[n - 1], mpre[n - 1])
  }

  /** One rectangle of the area: counted only where the recall changes. */
  function StepTerm(r0: real, r1: real, p: real): real {
    if r1 != r0 then (r1 - r0) * p else 0.0
  }

  /** A rectangle of height within [0, 1] over a non-negative step is no
      larger than the step: the step splits into the two non-negative parts
      `d * p` and `d * (1 - p)`. */
  lemma StepTermBounds(r0: real, r1: real, p: real)
    requires r0 <= r1 && 0.0 <= p <= 1.0
    ensures 0.0 <= StepTerm(r0, r1, p) <= r1 - r0
  {
    if r1 != r0 {
      var d, q := r1 - r0, 1.0 - p;
      assert 0.0 <= d * p && 0.0 <= d * q;
      assert d * p + d * q == d;
    }
  }

  lemma {:induction false} RecallStepAreaBounds(mrec: seq<real>, mpre: seq<real>)
    requires |mrec| == |mpre| > 0
    requires NonDecreasing(mrec) && Within(mpre, 0.0, 1.0)
    ensures 0.0 <= RecallStepArea(mrec, mpre) <= mrec[|mrec| - 1] - mrec[0]
  {
    var n := |mrec|;
    if n >= 2 {
      var r', p' := mrec[..n - 1], mpre[..n - 1];
      assert NonDecreasing(r') by {
        forall i, j | 0 <= i < j < |r'| ensures r'[i] <= r'[j] {
          assert r'[i] == mrec[i] && r'[j] == mrec[j];
        }
      }
      assert Within(p', 0.0, 1.0) by {
        forall i | 0 <= i < |p'| ensures 0.0 <= p'[i] <= 1.0 {
          assert p'[i] == mpre[i];
        }
      }
      RecallStepAreaBounds(r', p');
      assert mrec[n - 2] <= mrec[n - 1] && 0.0 <= mpre[n - 1] <= 1.0;
      StepTermBounds(mrec[n - 2], mrec[n - 1], mpre[n - 1]);
      assert r'[|r'| - 1] == mrec[n - 2] && r'[0] == mrec[0];
    }
  }

  /** Under an envelope equal to 1 after the first point, every recall step
      counts in full, so the area is the whole recall span. */
  lemma {:induction false} RecallStepAreaFull(mrec: seq<real>, mpre: seq<real>)
    requires |mrec| == |mpre| > 0
    requires forall j :: 1 <= j < |mpre| ==> mpre[j] == 1.0
    ensures RecallStepArea(mrec, mpre) == mrec[|mrec| - 1] - mrec[0]
  {
    var n := |mrec|;
    if n >= 2 {
      var r', p' := mrec[..n - 1], mpre[..n - 1];
      assert forall j :: 1 <= j < |p'| ==> p'[j] == mpre[j];
      RecallStepAreaFull(r', p');
      assert r'[|r'| - 1] == mrec[n - 2] && r'[0] == mrec[0];
    }
  }

  /** Under an envelope that is 0 everywhere, the area is 0. */
  lemma {:induction false} RecallStepAreaZero(mrec: seq<real>, mpre: seq<real>)
    requires |mrec| == |mpre|
    requires forall j :: 0 <= j < |mpre| ==> mpre[j] == 0.0
    ensures RecallStepArea(mrec, mpre) == 0.0
  {
    var n := |mrec|;
    if n >= 2 {
      var r', p' := mrec[..n - 1], mpre[..n - 1];
      assert forall j :: 0 <= j < |p'| ==> p'[j] == mpre[j];
      RecallStepAreaZero(r', p');
      assert mpre[n - 1] == 0.0;
    }
  }

  /** Recall padded with the sentinels 0 and 1, precision with 0 and 0. */
  function PadRecall(rec: seq<real>): seq<real> { [0.0] + rec + [1.0] }

  function PadPrecision(prec: seq<real>): seq<real> { [0.0] + prec + [0.0] }

  /** A curve whose precision is 1 throughout and whose recall reaches 1 has
      exact area 1: the envelope is 1 up to the last point, so every recall
      step counts in full, and the closing step to the sentinel is empty. */
  lemma PaddedAreaFull(rec: seq<real>, prec: seq<real>)
    requires |rec| == |prec| >= 1
    requires forall i :: 0 <= i < |prec| ==> prec[i] == 1.0
    requires rec[|rec| - 1] == 1.0
    ensures RecallStepArea(PadRecall(rec), Envelope(PadPrecision(prec))) == 1.0
  {
    var n := |rec|;
    var mrec, padded := PadRecall(rec), PadPrecision(prec);
    var env := Envelope(padded);
    assert Within(padded, 0.0, 1.0);
    EnvelopeProps(padded);
    EnvelopeWithin(padded, 0.0, 1.0);
    assert padded[n] == 1.0;
    forall j | 1 <= j <= n ensures env[j] == 1.0 {
      assert env[j] >= env[n] >= padded[n];
    }
    assert env[n + 1] == 0.0;
    RecallStepAreaFull(mrec[..n + 1], env[..n + 1]);
    assert mrec[..n + 1][n] == 1.0 && mrec[n + 1] == 1.0;
  }

  /** A curve whose precision is 0 throughout has exact area 0. */
  lemma PaddedAreaZero(rec: seq<real>, prec: seq<real>)
    requires |rec| == |prec|
    requires forall i :: 0 <= i < |prec| ==> prec[i] == 0.0
    ensures RecallStepArea(PadRecall(rec), Envelope(PadPrecision(prec))) == 0.0
  {
    var padded := PadPrecision(prec);
    assert Within(padded, 0.0, 0.0);
    EnvelopeWithin(padded, 0.0, 0.0);
    RecallStepAreaZero(PadRecall(rec), Envelope(padded));
  }

  /** `voc_ap(rec, prec, use_07_metric=False)`, on the percentage scale. */
  method VocApExact(rec: seq<real>, prec: seq<real>) returns (ap: real)
    requires |rec| == |prec|
    ensures ap == RecallStepArea(PadRecall(rec), Envelope(PadPrecision(prec))) * 100.0
    ensures ValidCurve(rec, prec) ==> 0.0 <= ap <= 100.0
  {
    var mrec := [0.0] + rec + [1.0];
    var padded := [0.0] + prec + [0.0];
    var mpre := new real[|padded|](i requires 0 <= i < |padded| => padded[i]);
    assert mpre[..] == padded;
    PrecisionEnvelope(mpre);
    ap := RecallStepArea(mrec, mpre[..]) * 100.0;
    if ValidCurve(rec, prec) {
      ExactAreaBounds(rec, prec);
    }
  }

  /** On a valid curve the exact VOC area lies in [0, 1]. */
  lemma ExactAreaBounds(rec: seq<real>, prec: seq<real>)
    requires ValidCurve(rec, prec)
    ensures 0.0 <= RecallStepArea(PadRecall(rec), Envelope(PadPrecision(prec))) <= 1.0
  {
    var mrec := PadRecall(rec);
    assert NonDecreasing(mrec) by {
      forall i, j | 0 <= i < j < |mrec| ensures mrec[i] <= mrec[j] {
        if 0 < i && j < |mrec| - 1 {
          assert mrec[i] == rec[i - 1] && mrec[j] == rec[j - 1];
        } else if i == 0 && j < |mrec| - 1 {
          assert mrec[j] == rec[j - 1];
        } else if 0 < i {
          assert mrec[i] == rec[i - 1];
        }
      }
    }
    var mpre := PadPrecision(prec);
    assert Within(mpre, 0.0, 1.0) by {
      forall i | 0 <= i < |mpre| ensures 0.0 <= mpre[i] <= 1.0 {
        if 0 < i < |mpre| - 1 {
          assert mpre[i] == prec[i - 1];
        }
      }
    }
    EnvelopeWithin(mpre, 0.0, 1.0);
    RecallStepAreaBounds(mrec, Envelope(mpre));
  }

  /** `voc_ap`: dispatch on `use_07_metric`. */
  method VocAp(rec: seq<real>, prec: seq<real>, use07Metric: bool) returns (ap: real)
    requires |rec| == |prec|
    ensures use07Metric ==> ap == ElevenPointSum(rec, prec, 11) * 100.0
    ensures !use07Metric ==> ap == RecallStepArea(PadRecall(rec), Envelope(PadPrecision(prec))) * 100.0
    ensures ValidCurve(rec, prec) ==> 0.0 <= ap <= 100.0
  {
    if use07Metric {
      ap := VocAp07(rec, prec);
    } else {
      ap := VocApExact(rec, prec);
    }
  }
}
