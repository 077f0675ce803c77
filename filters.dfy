/** Per-class selection of ground truth and detections
    (modules/evaluation.py): `get_gt_of_cls` for the frame-level batch
    evaluator, and the tube and frame variants that build the inputs of
    `compute_class_ap`. Each is a loop that keeps the records of one class, in
    the order they are met; each is proved equal to an order-preserving
    filter, and the filters are characterised by membership. */
module Filters {
  import opened Seqs
  import opened Geometry
  import opened Matching

  // ---------------------------------------------------------------------
  // Frame ground truth rows (`get_gt_of_cls`)

  /** One row of a frame's ground-truth array: four coordinates and a label
      column, stored as a float. */
  datatype GtRow = GtRow(box: Box, labelColumn: real)

  /** Python `int(x)` on a float: truncation toward zero. */
  function Trunc(x: real): (n: int)
    ensures x >= 0.0 ==> n as real <= x < n as real + 1.0
    ensures x < 0.0 ==> n as real - 1.0 < x <= n as real
  {
    if x >= 0.0 then x.Floor else -((-x).Floor)
  }

  /** The boxes of the rows whose truncated label equals `cls`, in row order. */
  function GtOfCls(gtBoxes: seq<GtRow>, cls: int): (r: seq<Box>)
    ensures |r| <= |gtBoxes|
    decreases |gtBoxes|
  {
    if gtBoxes == [] then []
    else
      var last := gtBoxes[|gtBoxes| - 1];
      GtOfCls(gtBoxes[..|gtBoxes| - 1], cls) + (if Trunc(last.labelColumn) == cls then [last.box] else [])
  }

  /** `get_gt_of_cls`: collects the box part of every row whose label
      column, truncated to an integer, equals `cls`. */
  method GetGtOfCls(gtBoxes: seq<GtRow>, cls: int) returns (clsGtBoxes: seq<Box>)
    ensures clsGtBoxes == GtOfCls(gtBoxes, cls)
  {
    clsGtBoxes := [];
    var i := 0;
    while i < |gtBoxes|
      invariant 0 <= i <= |gtBoxes|
      invariant clsGtBoxes == GtOfCls(gtBoxes[..i], cls)
    {
      assert gtBoxes[..i + 1][..i] == gtBoxes[..i];
      if Trunc(gtBoxes[i].labelColumn) == cls {
        clsGtBoxes := clsGtBoxes + [gtBoxes[i].box];
      }
      i := i + 1;
    }
    assert gtBoxes[..|gtBoxes|] == gtBoxes;
  }

  /** A box is selected exactly when some row with that box carries the
      class label; and the selection has one box per such row. */
  lemma {:induction false} GtOfClsMembers(gtBoxes: seq<GtRow>, cls: int, b: Box)
    ensures b in GtOfCls(gtBoxes, cls)
            <==> exists i :: 0 <= i < |gtBoxes| && gtBoxes[i].box == b && Trunc(gtBoxes[i].labelColumn) == cls
    decreases |gtBoxes|
  {
    if gtBoxes != [] {
      var g' := gtBoxes[..|gtBoxes| - 1];
      GtOfClsMembers(g', cls, b);
      if b in GtOfCls(g', cls) {
        var i :| 0 <= i < |g'| && g'[i].box == b && Trunc(g'[i].labelColumn) == cls;
        assert gtBoxes[i] == g'[i];
      }
      if exists i :: 0 <= i < |gtBoxes| && gtBoxes[i].box == b && Trunc(gtBoxes[i].labelColumn) == cls {
        var i :| 0 <= i < |gtBoxes| && gtBoxes[i].box == b && Trunc(gtBoxes[i].labelColumn) == cls;
        if i < |g'| {
          assert g'[i] == gtBoxes[i];
        }
      }
    }
  }

  /** The number of boxes selected is the number of rows carrying the label. */
  lemma {:induction false} GtOfClsCount(gtBoxes: seq<GtRow>, cls: int)
    ensures |GtOfCls(gtBoxes, cls)| == CountTrue(Project(gtBoxes, (g: GtRow) => Trunc(g.labelColumn) == cls))
    decreases |gtBoxes|
  {
    if gtBoxes != [] {
      var g' := gtBoxes[..|gtBoxes| - 1];
      GtOfClsCount(g', cls);
      var p := Project(gtBoxes, (g: GtRow) => Trunc(g.labelColumn) == cls);
      assert p[..|p| - 1] == Project(g', (g: GtRow) => Trunc(g.labelColumn) == cls);
    }
  }

  // ---------------------------------------------------------------------
  // Tubes (`get_gt_class_tubes`, `get_det_class_tubes`)

  /** A tube record: its label and the fields `make_det_tube` reads. The
      box type is left open. */
  datatype Tube<B> = Tube(labelId: int, scores: seq<real>, boxes: seq<B>, frames: seq<int>)

  /** The tubes of one video that carry label `clId`, in their order. */
  function TubesOfClass<B>(tubes: seq<Tube<B>>, clId: int): (r: seq<Tube<B>>)
    ensures |r| <= |tubes|
  {
    Filter(tubes, (t: Tube<B>) => t.labelId == clId)
  }

  /** `get_gt_class_tubes`: every video keeps an entry, holding the video's
      tubes of class `clId` in their original order. */
  method GetGtClassTubes<V, B>(tubes: map<V, seq<Tube<B>>>, clId: int) returns (classTubes: map<V, seq<Tube<B>>>)
    ensures classTubes.Keys == tubes.Keys
    ensures forall v :: v in tubes ==> classTubes[v] == TubesOfClass(tubes[v], clId)
  {
    classTubes := map[];
    var rest := tubes.Keys;
    while rest != {}
      invariant rest <= tubes.Keys
      invariant classTubes.Keys == tubes.Keys - rest
      invariant forall v :: v in classTubes ==> classTubes[v] == TubesOfClass(tubes[v], clId)
      decreases rest
    {
      var video :| video in rest;
      var videoTubes := tubes[video];
      var kept := [];
      var j := 0;
      while j < |videoTubes|
        invariant 0 <= j <= |videoTubes|
        invariant kept == TubesOfClass(videoTubes[..j], clId)
      {
        assert videoTubes[..j + 1][..j] == videoTubes[..j];
        if videoTubes[j].labelId == clId {
          kept := kept + [videoTubes[j]];
        }
        j := j + 1;
      }
      assert videoTubes[..j] == videoTubes;
      classTubes := classTubes[video := kept];
      rest := rest - {video};
    }
  }

  /** A ground-truth tube is kept for its video exactly when it is one of the
      video's tubes and carries the class label. */
  lemma GtClassTubesMembers<B>(videoTubes: seq<Tube<B>>, clId: int, t: Tube<B>)
    ensures t in TubesOfClass(videoTubes, clId) <==> t in videoTubes && t.labelId == clId
  {
    FilterMembers(videoTubes, (t: Tube<B>) => t.labelId == clId, t);
  }

  /** The detections contributed by one video: its tubes of the class, each
      turned into a detection and tagged with the video. */
  function Tag<V, B, D>(video: V, tubes: seq<Tube<B>>, makeDetTube: Tube<B> -> D): (r: seq<ClassDet<V, D>>)
    ensures |r| == |tubes|
    ensures forall i :: 0 <= i < |tubes| ==> r[i] == ClassDet(video, makeDetTube(tubes[i]))
  {
    seq(|tubes|, i requires 0 <= i < |tubes| => ClassDet(video, makeDetTube(tubes[i])))
  }

  /** The class detections of the videos in `videos`, video by video. */
  function DetClassTubes<V, B, D>(videos: seq<V>, tubes: map<V, seq<Tube<B>>>, clId: int, makeDetTube: Tube<B> -> D)
    : seq<ClassDet<V, D>>
    requires forall i :: 0 <= i < |videos| ==> videos[i] in tubes
    decreases |videos|
  {
    if videos == [] then []
    else
      var v := videos[|videos| - 1];
      DetClassTubes(videos[..|videos| - 1], tubes, clId, makeDetTube) + Tag(v, TubesOfClass(tubes[v], clId), makeDetTube)
  }

  /** `get_det_class_tubes`: walks the videos in the dictionary's order and
      their tubes in list order, and keeps each tube of class `clId` as the
      pair of its video and the detection built from it. The construction
      of the detection (`make_det_tube`) is the parameter `makeDetTube`. */
  method GetDetClassTubes<V, B, D>(videos: seq<V>, tubes: map<V, seq<Tube<B>>>, clId: int, makeDetTube: Tube<B> -> D)
    returns (classTubes: seq<ClassDet<V, D>>)
    requires forall i :: 0 <= i < |videos| ==> videos[i] in tubes
    ensures classTubes == DetClassTubes(videos, tubes, clId, makeDetTube)
  {
    classTubes := [];
    var i := 0;
    while i < |videos|
      invariant 0 <= i <= |videos|
      invariant classTubes == DetClassTubes(videos[..i], tubes, clId, makeDetTube)
    {
      var video := videos[i];
      var videoTubes := tubes[video];
      ghost var before := classTubes;
      var j := 0;
      while j < |videoTubes|
        invariant 0 <= j <= |videoTubes|
        invariant classTubes == before + Tag(video, TubesOfClass(videoTubes[..j], clId), makeDetTube)
      {
        assert videoTubes[..j + 1][..j] == videoTubes[..j];
        if videoTubes[j].labelId == clId {
          classTubes := classTubes + [ClassDet(video, makeDetTube(videoTubes[j]))];
        }
        j := j + 1;
      }
      assert videoTubes[..j] == videoTubes;
      assert videos[..i + 1][..i] == videos[..i];
      i := i + 1;
    }
    assert videos[..i] == videos;
  }

  /** A pair is produced exactly when its video is listed and the detection
      is built from one of that video's tubes of the class. */
  lemma {:induction false} DetClassTubesMembers<V, B, D>(
    videos: seq<V>, tubes: map<V, seq<Tube<B>>>, clId: int, makeDetTube: Tube<B> -> D, x: ClassDet<V, D>)
    requires forall i :: 0 <= i < |videos| ==> videos[i] in tubes
    ensures x in DetClassTubes(videos, tubes, clId, makeDetTube)
            <==> x.unit in videos
                 && exists t :: t in tubes[x.unit] && t.labelId == clId && x.det == makeDetTube(t)
    decreases |videos|
  {
    if videos != [] {
      var vs := videos[..|videos| - 1];
      var v := videos[|videos| - 1];
      DetClassTubesMembers(vs, tubes, clId, makeDetTube, x);
      assert videos == vs + [v];
      var tagged := Tag(v, TubesOfClass(tubes[v], clId), makeDetTube);
      if x in tagged {
        var i :| 0 <= i < |tagged| && tagged[i] == x;
        GtClassTubesMembers(tubes[v], clId, TubesOfClass(tubes[v], clId)[i]);
      }
      if x.unit == v && exists t :: t in tubes[v] && t.labelId == clId && x.det == makeDetTube(t) {
        var t :| t in tubes[v] && t.labelId == clId && x.det == makeDetTube(t);
        GtClassTubesMembers(tubes[v], clId, t);
        var i :| 0 <= i < |TubesOfClass(tubes[v], clId)| && TubesOfClass(tubes[v], clId)[i] == t;
        assert tagged[i] == x;
      }
    }
  }

  // ---------------------------------------------------------------------
  // Frames (`get_det_class_frames`, `get_gt_class_frames`)

  /** One frame annotation: its box and the list of its class labels. */
  datatype Anno = Anno(box: Box, labels: seq<int>)

  /** The boxes of the annotations that list `clId` among their labels. */
  function BoxesOfClass(annos: seq<Anno>, clId: int): (r: seq<Box>)
    ensures |r| <= |annos|
    decreases |annos|
  {
    if annos == [] then []
    else
      var a := annos[|annos| - 1];
      BoxesOfClass(annos[..|annos| - 1], clId) + (if clId in a.labels then [a.box] else [])
  }

  /** `get_gt_class_frames`: every frame keeps an entry with the boxes of
      its annotations labelled `clId`, in annotation order. */
  method GetGtClassFrames<F>(gts: map<F, seq<Anno>>, clId: int) returns (frames: map<F, seq<Box>>)
    ensures frames.Keys == gts.Keys
    ensures forall f :: f in gts ==> frames[f] == BoxesOfClass(gts[f], clId)
  {
    frames := map[];
    var rest := gts.Keys;
    while rest != {}
      invariant rest <= gts.Keys
      invariant frames.Keys == gts.Keys - rest
      invariant forall f :: f in frames ==> frames[f] == BoxesOfClass(gts[f], clId)
      decreases rest
    {
      var frameId :| frameId in rest;
      var frame := gts[frameId];
      var boxes := [];
      var j := 0;
      while j < |frame|
        invariant 0 <= j <= |frame|
        invariant boxes == BoxesOfClass(frame[..j], clId)
      {
        assert frame[..j + 1][..j] == frame[..j];
        if clId in frame[j].labels {
          boxes := boxes + [frame[j].box];
        }
        j := j + 1;
      }
      assert frame[..j] == frame;
      frames := frames[frameId := boxes];
      rest := rest - {frameId};
    }
  }

  /** Annotation `a` has box `b` and lists class `clId`. */
  predicate Lists(a: Anno, clId: int, b: Box) {
    a.box == b && clId in a.labels
  }

  /** A box is kept for a frame exactly when one of the frame's annotations
      has that box and lists the class. */
  lemma {:induction false} BoxesOfClassMembers(annos: seq<Anno>, clId: int, b: Box)
    ensures b in BoxesOfClass(annos, clId) <==> exists i :: 0 <= i < |annos| && Lists(annos[i], clId, b)
    decreases |annos|
  {
    if annos != [] {
      var n := |annos|;
      var a', last := annos[..n - 1], annos[n - 1];
      BoxesOfClassMembers(a', clId, b);
      var kept := BoxesOfClass(a', clId);
      assert BoxesOfClass(annos, clId) == kept + (if clId in last.labels then [last.box] else []);
      assert b in BoxesOfClass(annos, clId) <==> b in kept || Lists(last, clId, b);
      if exists i :: 0 <= i < n && Lists(annos[i], clId, b) {
        var i :| 0 <= i < n && Lists(annos[i], clId, b);
        if i < n - 1 {
          assert Lists(a'[i], clId, b);
        }
      }
      if b in kept {
        var i :| 0 <= i < n - 1 && Lists(a'[i], clId, b);
        assert Lists(annos[i], clId, b);
      }
    }
  }

  /** The detections of class `clId` in the frames of `order` that are
      listed in `frameIds`, frame by frame. */
  function DetClassFrames<F>(order: seq<F>, dets: map<F, seq<seq<FrameDet>>>, clId: nat, frameIds: seq<F>)
    : seq<ClassDet<F, FrameDet>>
    requires forall i :: 0 <= i < |order| ==> order[i] in dets && (order[i] in frameIds ==> clId < |dets[order[i]]|)
    decreases |order|
  {
    if order == [] then []
    else
      var f := order[|order| - 1];
      DetClassFrames(order[..|order| - 1], dets, clId, frameIds)
        + (if f in frameIds then FrameTag(f, dets[f][clId]) else [])
  }

  /** The rows of one frame's detection array, each tagged with the frame. */
  function FrameTag<F>(f: F, rows: seq<FrameDet>): (r: seq<ClassDet<F, FrameDet>>)
    ensures |r| == |rows|
    ensures forall i :: 0 <= i < |rows| ==> r[i] == ClassDet(f, rows[i])
  {
    seq(|rows|, i requires 0 <= i < |rows| => ClassDet(f, rows[i]))
  }

  /** `get_det_class_frames`: walks the frames of the detection dictionary
      in its order, skips those not in `frameIds`, and for the others turns
      every row of the class's array into a `{box, score}` record tagged with
      the frame. Only the frames in `frameIds` are indexed, so only they
      need an array for the class. */
  method GetDetClassFrames<F>(order: seq<F>, dets: map<F, seq<seq<FrameDet>>>, clId: nat, frameIds: seq<F>)
    returns (classDets: seq<ClassDet<F, FrameDet>>)
    requires forall i :: 0 <= i < |order| ==> order[i] in dets && (order[i] in frameIds ==> clId < |dets[order[i]]|)
    ensures classDets == DetClassFrames(order, dets, clId, frameIds)
  {
    classDets := [];
    var i := 0;
    while i < |order|
      invariant 0 <= i <= |order|
      invariant classDets == DetClassFrames(order[..i], dets, clId, frameIds)
    {
      var frameId := order[i];
      assert order[..i + 1][..i] == order[..i];
      if frameId in frameIds {
        var allFramesDets := dets[frameId][clId];
        ghost var before := classDets;
        var k := 0;
        while k < |allFramesDets|
          invariant 0 <= k <= |allFramesDets|
          invariant classDets == before + FrameTag(frameId, allFramesDets[..k])
        {
          var det := FrameDet(allFramesDets[k].box, allFramesDets[k].score);
          classDets := classDets + [ClassDet(frameId, det)];
          k := k + 1;
        }
        assert allFramesDets[..k] == allFramesDets;
      }
      i := i + 1;
    }
    assert order[..i] == order;
  }

  /** A tagged detection is produced exactly when its frame is in the walk
      and in `frameIds`, and it is a row of the frame's array for the class. */
  lemma {:induction false} DetClassFramesMembers<F>(
    order: seq<F>, dets: map<F, seq<seq<FrameDet>>>, clId: nat, frameIds: seq<F>, x: ClassDet<F, FrameDet>)
    requires forall i :: 0 <= i < |order| ==> order[i] in dets && (order[i] in frameIds ==> clId < |dets[order[i]]|)
    ensures x in DetClassFrames(order, dets, clId, frameIds)
            <==> x.unit in order && x.unit in frameIds && x.det in dets[x.unit][clId]
    decreases |order|
  {
    if order != [] {
      var o' := order[..|order| - 1];
      var f := order[|order| - 1];
      DetClassFramesMembers(o', dets, clId, frameIds, x);
      assert order == o' + [f];
      if f in frameIds {
        var tagged := FrameTag(f, dets[f][clId]);
        if x in tagged {
          var i :| 0 <= i < |tagged| && tagged[i] == x;
        }
        if x.unit == f && x.det in dets[f][clId] {
          var i :| 0 <= i < |dets[f][clId]| && dets[f][clId][i] == x.det;
          assert tagged[i] == x;
        }
      }
    }
  }
}
