/** Box overlap: intersection-over-union of one box against a list of
    ground-truth boxes (modules/evaluation.py, `compute_iou` and
    `compute_iou_dict`). Coordinates are exact reals. */
module Geometry {

  /** An axis-aligned box `[x_min, y_min, x_max, y_max]`. */
  datatype Box = Box(xmin: real, ymin: real, xmax: real, ymax: real)

  /** A frame-level detection record `{'box': ..., 'score': ...}`. */
  datatype FrameDet = FrameDet(box: Box, score: real)

  /** Minimum not above maximum on both axes. */
  predicate WellFormed(b: Box) {
    b.xmin <= b.xmax && b.ymin <= b.ymax
  }

  function Max(a: real, b: real): real { if a >= b then a else b }

  function Min(a: real, b: real): real { if a <= b then a else b }

  function Area(b: Box): real {
    (b.xmax - b.xmin) * (b.ymax - b.ymin)
  }

  /** Width and height of the overlap of the two boxes, floored at zero. */
  function OverlapWidth(box: Box, gt: Box): real {
    Max(Min(gt.xmax, box.xmax) - Max(gt.xmin, box.xmin), 0.0)
  }

  function OverlapHeight(box: Box, gt: Box): real {
    Max(Min(gt.ymax, box.ymax) - Max(gt.ymin, box.ymin), 0.0)
  }

  /** Overlap area; it counts as zero unless both the overlap width and the
      overlap height are strictly positive. */
  function Intersection(box: Box, gt: Box): real {
    Clipped(OverlapWidth(box, gt), OverlapHeight(box, gt))
  }

  function Clipped(iw: real, ih: real): real {
    if iw > 0.0 && ih > 0.0 then iw * ih else 0.0
  }

  /** Union area, as the sum of the two areas minus the intersection. */
  function UnionArea(box: Box, gt: Box): real {
    Area(gt) + Area(box) - Intersection(box, gt)
  }

  /** Intersection over union. The source divides without any guard, so a
      zero union is outside what it can compute. */
  function IoU(box: Box, gt: Box): real
    requires UnionArea(box, gt) != 0.0
  {
    Intersection(box, gt) / UnionArea(box, gt)
  }

  /** Every ground-truth box can be compared with `box` (no zero union). */
  predicate ComparableWith(box: Box, gts: seq<Box>) {
    forall m :: 0 <= m < |gts| ==> UnionArea(box, gts[m]) != 0.0
  }

  /** `compute_iou`: fills a zero-initialised array with one IoU per
      ground-truth box, in the order of the boxes. */
  method ComputeIoU(box: Box, clsGtBoxes: seq<Box>) returns (ious: seq<real>)
    requires ComparableWith(box, clsGtBoxes)
    ensures |ious| == |clsGtBoxes|
    ensures forall m :: 0 <= m < |ious| ==> ious[m] == IoU(box, clsGtBoxes[m])
    ensures WellFormed(box) && (forall m :: 0 <= m < |clsGtBoxes| ==> WellFormed(clsGtBoxes[m])) ==>
              forall m :: 0 <= m < |ious| ==> 0.0 <= ious[m] <= 1.0
  {
    var buffer := new real[|clsGtBoxes|](_ => 0.0);
    var m := 0;
    while m < |clsGtBoxes|
      invariant 0 <= m <= |clsGtBoxes|
      invariant forall j :: 0 <= j < m ==> buffer[j] == IoU(box, clsGtBoxes[j])
    {
      var gtbox := clsGtBoxes[m];
      var xmin := Max(gtbox.xmin, box.xmin);
      var ymin := Max(gtbox.ymin, box.ymin);
      var xmax := Min(gtbox.xmax, box.xmax);
      var ymax := Min(gtbox.ymax, box.ymax);
      var iw := Max(xmax - xmin, 0.0);
      var ih := Max(ymax - ymin, 0.0);
      var intsc;
      if iw > 0.0 && ih > 0.0 {
        intsc := iw * ih;
      } else {
        intsc := 0.0;
      }
      var union := Area(gtbox) + Area(box) - intsc;
      assert intsc == Intersection(box, gtbox);
      buffer[m] := intsc / union;
      m := m + 1;
    }
    ious := buffer[..];
    forall m | 0 <= m < |ious| && WellFormed(box) && WellFormed(clsGtBoxes[m])
      ensures 0.0 <= ious[m] <= 1.0
    {
      IoUInUnitInterval(box, clsGtBoxes[m]);
    }
  }

  /** `compute_iou_dict`: the IoU of a detection record's box against one
      ground-truth box (the box is reshaped to a one-row array and the single
      value is taken). */
  function ComputeIoUDict(det: FrameDet, gt: Box): (r: real)
    requires UnionArea(det.box, gt) != 0.0
    ensures WellFormed(det.box) && WellFormed(gt) ==> 0.0 <= r <= 1.0
  {
    var r := IoU(det.box, gt);
    assert WellFormed(det.box) && WellFormed(gt) ==> 0.0 <= r <= 1.0 by {
      if WellFormed(det.box) && WellFormed(gt) {
        IoUInUnitInterval(det.box, gt);
      }
    }
    r
  }

  lemma MulMono(a: real, b: real, c: real, d: real)
    requires 0.0 <= a <= c && 0.0 <= b <= d
    ensures a * b <= c * d
  {
    assert a * b <= c * b;
    assert c * b <= c * d;
  }

  /** The overlap is no wider and no taller than either box. */
  lemma OverlapBounds(box: Box, gt: Box)
    requires WellFormed(box) && WellFormed(gt)
    ensures 0.0 <= OverlapWidth(box, gt) <= box.xmax - box.xmin
    ensures OverlapWidth(box, gt) <= gt.xmax - gt.xmin
    ensures 0.0 <= OverlapHeight(box, gt) <= box.ymax - box.ymin
    ensures OverlapHeight(box, gt) <= gt.ymax - gt.ymin
  {
  }

  /** The clipped product of an overlap no wider and no taller than box `b`
      is at most the area of `b`. */
  lemma ClippedWithin(iw: real, ih: real, b: Box)
    requires 0.0 <= iw <= b.xmax - b.xmin && 0.0 <= ih <= b.ymax - b.ymin
    ensures 0.0 <= Clipped(iw, ih) <= Area(b)
  {
    var w, h := b.xmax - b.xmin, b.ymax - b.ymin;
    MulMono(0.0, 0.0, w, h);
    if iw > 0.0 && ih > 0.0 {
      MulMono(iw, ih, w, h);
      MulMono(0.0, 0.0, iw, ih);
    }
  }

  /** The overlap never exceeds the area of either box. */
  lemma IntersectionBounds(box: Box, gt: Box)
    requires WellFormed(box) && WellFormed(gt)
    ensures 0.0 <= Intersection(box, gt)
    ensures Intersection(box, gt) <= Area(box) && Intersection(box, gt) <= Area(gt)
  {
    OverlapBounds(box, gt);
    ClippedWithin(OverlapWidth(box, gt), OverlapHeight(box, gt), box);
    ClippedWithin(OverlapWidth(box, gt), OverlapHeight(box, gt), gt);
  }

  lemma RatioInUnitInterval(i: real, u: real)
    requires 0.0 <= i <= u && u > 0.0
    ensures 0.0 <= i / u <= 1.0
  {
    assert (i / u) * u == i;
  }

  /** For well-formed boxes with a non-zero union the IoU lies in [0, 1]. */
  lemma IoUInUnitInterval(box: Box, gt: Box)
    requires WellFormed(box) && WellFormed(gt)
    requires UnionArea(box, gt) != 0.0
    ensures 0.0 <= IoU(box, gt) <= 1.0
  {
    IntersectionBounds(box, gt);
    RatioInUnitInterval(Intersection(box, gt), UnionArea(box, gt));
  }

  /** A box with positive area overlaps itself completely. */
  lemma IoUOfIdentical(b: Box)
    requires Area(b) > 0.0 && WellFormed(b)
    ensures UnionArea(b, b) != 0.0 && IoU(b, b) == 1.0
  {
    assert b.xmax - b.xmin > 0.0 && b.ymax - b.ymin > 0.0;
    assert OverlapWidth(b, b) == b.xmax - b.xmin;
    assert OverlapHeight(b, b) == b.ymax - b.ymin;
    assert Intersection(b, b) == Area(b);
    assert UnionArea(b, b) == Area(b);
    assert Area(b) / Area(b) == 1.0;
  }

  /** Boxes that touch at most along an edge have zero IoU. */
  lemma IoUOfSeparated(box: Box, gt: Box)
    requires UnionArea(box, gt) != 0.0
    requires box.xmax <= gt.xmin || gt.xmax <= box.xmin || box.ymax <= gt.ymin || gt.ymax <= box.ymin
    ensures IoU(box, gt) == 0.0
  {
  }

  /** The overlap measure does not depend on which box is the detection. */
  lemma IoUSymmetric(a: Box, b: Box)
    requires UnionArea(a, b) != 0.0
    ensures UnionArea(b, a) != 0.0 && IoU(a, b) == IoU(b, a)
  {
    assert OverlapWidth(a, b) == OverlapWidth(b, a);
    assert OverlapHeight(a, b) == OverlapHeight(b, a);
  }
}
