/** The greedy matcher of modules/evaluation.py as a specification: one
    detection is matched against the best remaining ground truth of its
    evaluation unit (a frame or a video); a match deletes that ground truth so
    it cannot be matched again. Both evaluation forms use it: the batch form
    of `evaluate_detections` on a single frame's pool, the incremental form of
    `compute_class_ap` on a map from unit to pool. */
module Matching {
  import opened Seqs
  import opened Ranking

  /** One detection of the class under evaluation, tagged with the unit it
      belongs to (the pair `[iid, det]`). */
  datatype ClassDet<U, D> = ClassDet(unit: U, det: D)

  /** Progress of the greedy pass: one true-positive flag per detection
      processed so far, and the ground truth still unmatched in every unit. */
  datatype MatchState<U, G> = MatchState(flags: seq<bool>, pools: map<U, seq<G>>)

  /** The comparator can be evaluated on `d` against every ground truth of `gts`. */
  ghost predicate Comparable<D, G>(d: D, gts: seq<G>, matchFunc: (D, G) --> real) {
    forall g :: g in gts ==> matchFunc.requires(d, g)
  }

  /** The overlaps of `d` with each ground truth of the pool, in pool order. */
  function Overlaps<D, G>(d: D, gts: seq<G>, matchFunc: (D, G) --> real): (r: seq<real>)
    requires Comparable(d, gts, matchFunc)
    ensures |r| == |gts| && forall i :: 0 <= i < |gts| ==> r[i] == matchFunc(d, gts[i])
  {
    seq(|gts|, i requires 0 <= i < |gts| => matchFunc(d, gts[i]))
  }

  /** One greedy step against one pool (the body of the loop over
      detections, guarded by a non-empty pool). When the pool is non-empty
      and the best overlap reaches the threshold, the first ground truth with
      the best overlap is removed and the detection is a true positive;
      otherwise the pool is left as it was. */
  function MatchInPool<D, G>(d: D, gts: seq<G>, matchFunc: (D, G) --> real, iouThresh: real): (r: (bool, seq<G>))
    requires Comparable(d, gts, matchFunc)
    ensures !r.0 ==> r.1 == gts
    ensures r.0 ==> |gts| > 0 && |r.1| == |gts| - 1
  {
    if |gts| == 0 then (false, gts)
    else
      var k := FirstArgMax(Overlaps(d, gts, matchFunc));
      if matchFunc(d, gts[k]) >= iouThresh then (true, RemoveAt(gts, k)) else (false, gts)
  }

  /** A true positive deletes one ground truth from the pool and nothing
      else; a false positive leaves the pool as it was. */
  lemma MatchInPoolShrinks<D, G>(d: D, gts: seq<G>, matchFunc: (D, G) --> real, iouThresh: real)
    requires Comparable(d, gts, matchFunc)
    ensures MatchInPool(d, gts, matchFunc, iouThresh).0 ==> multiset(MatchInPool(d, gts, matchFunc, iouThresh).1) < multiset(gts)
    ensures multiset(MatchInPool(d, gts, matchFunc, iouThresh).1) <= multiset(gts)
  {
    if |gts| > 0 {
      RemoveAtMultiset(gts, FirstArgMax(Overlaps(d, gts, matchFunc)));
    }
  }

  /** The decision made by `MatchInPool`: a true positive happens exactly
      when some ground truth of the pool reaches the threshold. */
  lemma MatchInPoolDecision<D, G>(d: D, gts: seq<G>, matchFunc: (D, G) --> real, iouThresh: real)
    requires Comparable(d, gts, matchFunc)
    ensures MatchInPool(d, gts, matchFunc, iouThresh).0 <==> exists i :: 0 <= i < |gts| && matchFunc(d, gts[i]) >= iouThresh
  {
    if |gts| > 0 {
      var ious := Overlaps(d, gts, matchFunc);
      var k := FirstArgMax(ious);
      if matchFunc(d, gts[k]) < iouThresh {
        forall i | 0 <= i < |gts| ensures matchFunc(d, gts[i]) < iouThresh {
          assert ious[i] <= ious[k];
        }
      }
    }
  }

  /** The removal made by `MatchInPool`: on a true positive the ground truth
      removed is the first one with the largest overlap, and it reaches the
      threshold. */
  lemma MatchInPoolRemoval<D, G>(d: D, gts: seq<G>, matchFunc: (D, G) --> real, iouThresh: real)
    requires Comparable(d, gts, matchFunc)
    ensures MatchInPool(d, gts, matchFunc, iouThresh).0 ==>
              exists k :: 0 <= k < |gts|
                && MatchInPool(d, gts, matchFunc, iouThresh).1 == RemoveAt(gts, k)
                && matchFunc(d, gts[k]) >= iouThresh
                && (forall j :: 0 <= j < |gts| ==> matchFunc(d, gts[j]) <= matchFunc(d, gts[k]))
                && (forall j :: 0 <= j < k ==> matchFunc(d, gts[j]) < matchFunc(d, gts[k]))
  {
    if MatchInPool(d, gts, matchFunc, iouThresh).0 {
      var ious := Overlaps(d, gts, matchFunc);
      var k := FirstArgMax(ious);
      assert MatchInPool(d, gts, matchFunc, iouThresh).1 == RemoveAt(gts, k) && matchFunc(d, gts[k]) >= iouThresh;
      forall j | 0 <= j < |gts| ensures matchFunc(d, gts[j]) <= matchFunc(d, gts[k]) {
        assert ious[j] <= ious[k];
      }
      forall j | 0 <= j < k ensures matchFunc(d, gts[j]) < matchFunc(d, gts[k]) {
        assert ious[j] < ious[k];
      }
    }
  }

  /** The loop body of `compute_class_ap`: match `cd` inside the pool of its
      own unit; every other unit's pool is untouched. */
  function MatchStep<U, D, G(==)>(pools: map<U, seq<G>>, cd: ClassDet<U, D>, matchFunc: (D, G) --> real, iouThresh: real)
    : (r: (bool, map<U, seq<G>>))
    requires cd.unit in pools && Comparable(cd.det, pools[cd.unit], matchFunc)
    ensures r.1.Keys == pools.Keys
    ensures forall u :: u in pools && u != cd.unit ==> r.1[u] == pools[u]
    ensures r.0 ==> |pools[cd.unit]| > 0 && |r.1[cd.unit]| == |pools[cd.unit]| - 1
    ensures !r.0 ==> r.1 == pools
  {
    var m := MatchInPool(cd.det, pools[cd.unit], matchFunc, iouThresh);
    (m.0, pools[cd.unit := m.1])
  }

  /** Every detection's unit has a pool, and the comparator is defined on the
      detection against that pool. */
  ghost predicate AllComparable<U, D, G>(ds: seq<ClassDet<U, D>>, pools: map<U, seq<G>>, matchFunc: (D, G) --> real) {
    forall i :: 0 <= i < |ds| ==> ds[i].unit in pools && Comparable(ds[i].det, pools[ds[i].unit], matchFunc)
  }

  /** `p'` has the units of `p`, and every pool of `p'` holds only ground
      truth of the same pool of `p`. */
  ghost predicate Within<U, G>(p': map<U, seq<G>>, p: map<U, seq<G>>) {
    p'.Keys == p.Keys && forall u, g :: u in p && g in p'[u] ==> g in p[u]
  }

  lemma WithinKeepsComparable<U, D, G>(ds: seq<ClassDet<U, D>>, p': map<U, seq<G>>, p: map<U, seq<G>>,
                                      matchFunc: (D, G) --> real)
    requires AllComparable(ds, p, matchFunc) && Within(p', p)
    ensures AllComparable(ds, p', matchFunc)
  {
  }

  /** `p'` has the units of `p`, and no pool of `p'` holds a ground truth
      more often than the same pool of `p`. */
  predicate Shrinks<U, G(==)>(p': map<U, seq<G>>, p: map<U, seq<G>>) {
    p'.Keys == p.Keys && forall u :: u in p ==> multiset(p'[u]) <= multiset(p[u])
  }

  /** The greedy pass over detections already in processing order. */
  function Run<U, D, G(==)>(ds: seq<ClassDet<U, D>>, pools: map<U, seq<G>>, matchFunc: (D, G) --> real, iouThresh: real)
    : (st: MatchState<U, G>)
    requires AllComparable(ds, pools, matchFunc)
    ensures |st.flags| == |ds|
    ensures Within(st.pools, pools)
    decreases |ds|
  {
    if ds == [] then MatchState([], pools)
    else
      var prev := Run(ds[..|ds| - 1], pools, matchFunc, iouThresh);
      WithinKeepsComparable(ds, prev.pools, pools, matchFunc);
      var step := MatchStep(prev.pools, ds[|ds| - 1], matchFunc, iouThresh);
      MatchState(prev.flags + [step.0], step.1)
  }

  /** The greedy pass only deletes ground truth: no unit gains an instance. */
  lemma {:induction false} RunShrinks<U, D, G>(ds: seq<ClassDet<U, D>>, pools: map<U, seq<G>>, matchFunc: (D, G) --> real,
                                               iouThresh: real)
    requires AllComparable(ds, pools, matchFunc)
    ensures Shrinks(Run(ds, pools, matchFunc, iouThresh).pools, pools)
    decreases |ds|
  {
    if ds != [] {
      var prev := Run(ds[..|ds| - 1], pools, matchFunc, iouThresh);
      RunShrinks(ds[..|ds| - 1], pools, matchFunc, iouThresh);
      WithinKeepsComparable(ds, prev.pools, pools, matchFunc);
      var cd := ds[|ds| - 1];
      MatchInPoolShrinks(cd.det, prev.pools[cd.unit], matchFunc, iouThresh);
    }
  }

  /** A prefix of comparable detections is comparable. */
  lemma PrefixComparable<U, D, G>(ds: seq<ClassDet<U, D>>, i: nat, pools: map<U, seq<G>>, matchFunc: (D, G) --> real)
    requires AllComparable(ds, pools, matchFunc) && i <= |ds|
    ensures AllComparable(ds[..i], pools, matchFunc)
  {
  }

  /** Processing detection `i` after the first `i`: the pass over the first
      `i + 1` detections is one `MatchStep` on top of the pass over the
      first `i`. */
  lemma RunExtend<U, D, G>(ds: seq<ClassDet<U, D>>, i: nat, pools: map<U, seq<G>>, matchFunc: (D, G) --> real,
                           iouThresh: real)
    requires AllComparable(ds, pools, matchFunc) && i < |ds|
    ensures AllComparable(ds[..i], pools, matchFunc) && AllComparable(ds[..i + 1], pools, matchFunc)
    ensures ds[i].unit in Run(ds[..i], pools, matchFunc, iouThresh).pools
    ensures Comparable(ds[i].det, Run(ds[..i], pools, matchFunc, iouThresh).pools[ds[i].unit], matchFunc)
    ensures Run(ds[..i + 1], pools, matchFunc, iouThresh)
            == MatchState(Run(ds[..i], pools, matchFunc, iouThresh).flags
                            + [MatchStep(Run(ds[..i], pools, matchFunc, iouThresh).pools, ds[i], matchFunc, iouThresh).0],
                          MatchStep(Run(ds[..i], pools, matchFunc, iouThresh).pools, ds[i], matchFunc, iouThresh).1)
  {
    PrefixComparable(ds, i, pools, matchFunc);
    PrefixComparable(ds, i + 1, pools, matchFunc);
    assert ds[..i + 1][..i] == ds[..i];
    assert ds[..i + 1][i] == ds[i];
    var prev := Run(ds[..i], pools, matchFunc, iouThresh);
    WithinKeepsComparable(ds, prev.pools, pools, matchFunc);
  }

  // ---------------------------------------------------------------------
  // Total ground truth over all units

  /** The number of ground-truth instances held by the units in `keys`. */
  ghost function SizeOver<U, G>(m: map<U, seq<G>>, keys: set<U>): nat
    requires keys <= m.Keys
    decreases keys
  {
    if keys == {} then 0
    else
      var u :| u in keys;
      |m[u]| + SizeOver(m, keys - {u})
  }

  /** `sum([len(class_gts[iid]) for iid in class_gts])`. */
  ghost function PoolSize<U, G>(m: map<U, seq<G>>): nat {
    SizeOver(m, m.Keys)
  }

  /** The sum does not depend on which unit is taken out first. */
  lemma {:induction false} SizeOverSplit<U, G>(m: map<U, seq<G>>, keys: set<U>, u: U)
    requires u in keys && keys <= m.Keys
    ensures SizeOver(m, keys) == |m[u]| + SizeOver(m, keys - {u})
    decreases keys
  {
    var v :| v in keys && SizeOver(m, keys) == |m[v]| + SizeOver(m, keys - {v});
    if v != u {
      SizeOverSplit(m, keys - {v}, u);
      SizeOverSplit(m, keys - {u}, v);
      assert keys - {v} - {u} == keys - {u} - {v};
    }
  }

  /** Maps that agree on `keys` have the same sum over `keys`. */
  lemma {:induction false} SizeOverAgree<U, G>(m1: map<U, seq<G>>, m2: map<U, seq<G>>, keys: set<U>)
    requires keys <= m1.Keys && keys <= m2.Keys
    requires forall u :: u in keys ==> m1[u] == m2[u]
    ensures SizeOver(m1, keys) == SizeOver(m2, keys)
    decreases keys
  {
    if keys != {} {
      var u :| u in keys && SizeOver(m1, keys) == |m1[u]| + SizeOver(m1, keys - {u});
      SizeOverSplit(m2, keys, u);
      SizeOverAgree(m1, m2, keys - {u});
    }
  }

  /** Replacing one unit's pool changes the total by the change in that pool. */
  lemma PoolSizeUpdate<U, G>(m: map<U, seq<G>>, u: U, s: seq<G>)
    requires u in m
    ensures PoolSize(m[u := s]) + |m[u]| == PoolSize(m) + |s|
  {
    var m' := m[u := s];
    assert m'.Keys == m.Keys;
    SizeOverSplit(m, m.Keys, u);
    SizeOverSplit(m', m.Keys, u);
    SizeOverAgree(m, m', m.Keys - {u});
  }

  // ---------------------------------------------------------------------
  // What the pass preserves

  /** Each true positive consumes exactly one ground-truth instance: the
      instances left plus the true positives equal the instances at the start.
      So no instance is matched twice, and there are never more true
      positives than ground truth. */
  lemma {:induction false} RunConservesGroundTruth<U, D, G>(
    ds: seq<ClassDet<U, D>>, pools: map<U, seq<G>>, matchFunc: (D, G) --> real, iouThresh: real)
    requires AllComparable(ds, pools, matchFunc)
    ensures PoolSize(Run(ds, pools, matchFunc, iouThresh).pools) + CountTrue(Run(ds, pools, matchFunc, iouThresh).flags)
            == PoolSize(pools)
    ensures CountTrue(Run(ds, pools, matchFunc, iouThresh).flags) <= PoolSize(pools)
    decreases |ds|
  {
    if ds != [] {
      var ds' := ds[..|ds| - 1];
      var cd := ds[|ds| - 1];
      var prev := Run(ds', pools, matchFunc, iouThresh);
      RunConservesGroundTruth(ds', pools, matchFunc, iouThresh);
      WithinKeepsComparable(ds, prev.pools, pools, matchFunc);
      var step := MatchStep(prev.pools, cd, matchFunc, iouThresh);
      CountTrueAppend(prev.flags, [step.0]);
      PoolSizeUpdate(prev.pools, cd.unit, step.1[cd.unit]);
      assert step.1 == prev.pools[cd.unit := step.1[cd.unit]];
    }
  }

  /** The number of true positives among the detections of unit `u`. */
  function TruePositivesIn<U(==), D>(ds: seq<ClassDet<U, D>>, flags: seq<bool>, u: U): nat
    requires |flags| == |ds|
  {
    if ds == [] then 0
    else TruePositivesIn(ds[..|ds| - 1], flags[..|flags| - 1], u)
         + (if ds[|ds| - 1].unit == u && flags[|flags| - 1] then 1 else 0)
  }

  /** Per unit: the true positives of the unit's detections are exactly the
      ground-truth instances the unit lost. A detection never consumes ground
      truth of another unit. */
  lemma {:induction false} RunPerUnit<U, D, G>(
    ds: seq<ClassDet<U, D>>, pools: map<U, seq<G>>, matchFunc: (D, G) --> real, iouThresh: real, u: U)
    requires AllComparable(ds, pools, matchFunc) && u in pools
    ensures |Run(ds, pools, matchFunc, iouThresh).pools[u]|
            + TruePositivesIn(ds, Run(ds, pools, matchFunc, iouThresh).flags, u) == |pools[u]|
    decreases |ds|
  {
    if ds != [] {
      var ds' := ds[..|ds| - 1];
      var prev := Run(ds', pools, matchFunc, iouThresh);
      RunPerUnit(ds', pools, matchFunc, iouThresh, u);
      var st := Run(ds, pools, matchFunc, iouThresh);
      assert st.flags[..|st.flags| - 1] == prev.flags;
    }
  }

  // ---------------------------------------------------------------------
  // The single-pool pass of the batch form

  /** The comparator is defined on every detection against every ground truth of the pool. */
  ghost predicate AllComparableTo<D, G>(ds: seq<D>, gts: seq<G>, matchFunc: (D, G) --> real) {
    forall i :: 0 <= i < |ds| ==> Comparable(ds[i], gts, matchFunc)
  }

  lemma SubPoolComparable<D, G>(ds: seq<D>, gts': seq<G>, gts: seq<G>, matchFunc: (D, G) --> real)
    requires AllComparableTo(ds, gts, matchFunc) && forall g :: g in gts' ==> g in gts
    ensures AllComparableTo(ds, gts', matchFunc)
  {
  }

  /** The batch form's pass over one frame: detections in processing order
      against that frame's ground truth. */
  function RunPool<D, G(==)>(ds: seq<D>, gts: seq<G>, matchFunc: (D, G) --> real, iouThresh: real)
    : (r: (seq<bool>, seq<G>))
    requires AllComparableTo(ds, gts, matchFunc)
    ensures |r.0| == |ds|
    ensures forall g :: g in r.1 ==> g in gts
    decreases |ds|
  {
    if ds == [] then ([], gts)
    else
      var ds' := ds[..|ds| - 1];
      assert AllComparableTo(ds', gts, matchFunc);
      var prev := RunPool(ds', gts, matchFunc, iouThresh);
      SubPoolComparable(ds, prev.1, gts, matchFunc);
      var step := MatchInPool(ds[|ds| - 1], prev.1, matchFunc, iouThresh);
      (prev.0 + [step.0], step.1)
  }

  /** The pool left after a frame holds only ground truth of the frame, and
      each ground truth at most as often as the frame had it. */
  lemma {:induction false} RunPoolShrinks<D, G>(ds: seq<D>, gts: seq<G>, matchFunc: (D, G) --> real, iouThresh: real)
    requires AllComparableTo(ds, gts, matchFunc)
    ensures multiset(RunPool(ds, gts, matchFunc, iouThresh).1) <= multiset(gts)
    decreases |ds|
  {
    if ds != [] {
      assert AllComparableTo(ds[..|ds| - 1], gts, matchFunc);
      var prev := RunPool(ds[..|ds| - 1], gts, matchFunc, iouThresh);
      RunPoolShrinks(ds[..|ds| - 1], gts, matchFunc, iouThresh);
      SubPoolComparable(ds, prev.1, gts, matchFunc);
      MatchInPoolShrinks(ds[|ds| - 1], prev.1, matchFunc, iouThresh);
    }
  }

  /** Running one more detection of a frame is one `MatchInPool` step
      against the pool left by the detections before it. */
  lemma RunPoolExtend<D, G>(ds: seq<D>, j: nat, gts: seq<G>, matchFunc: (D, G) --> real, iouThresh: real)
    requires j < |ds| && AllComparableTo(ds, gts, matchFunc)
    ensures AllComparableTo(ds[..j], gts, matchFunc) && AllComparableTo(ds[..j + 1], gts, matchFunc)
    ensures Comparable(ds[j], RunPool(ds[..j], gts, matchFunc, iouThresh).1, matchFunc)
    ensures RunPool(ds[..j + 1], gts, matchFunc, iouThresh)
            == (RunPool(ds[..j], gts, matchFunc, iouThresh).0
                  + [MatchInPool(ds[j], RunPool(ds[..j], gts, matchFunc, iouThresh).1, matchFunc, iouThresh).0],
                MatchInPool(ds[j], RunPool(ds[..j], gts, matchFunc, iouThresh).1, matchFunc, iouThresh).1)
  {
    assert ds[..j + 1][..j] == ds[..j];
    assert AllComparableTo(ds[..j], gts, matchFunc);
    SubPoolComparable(ds, RunPool(ds[..j], gts, matchFunc, iouThresh).1, gts, matchFunc);
    assert ds[..j + 1][j] == ds[j];
  }

  /** In one frame, ground truth left plus true positives equals the
      frame's ground truth. */
  lemma {:induction false} RunPoolConserves<D, G>(ds: seq<D>, gts: seq<G>, matchFunc: (D, G) --> real, iouThresh: real)
    requires AllComparableTo(ds, gts, matchFunc)
    ensures |RunPool(ds, gts, matchFunc, iouThresh).1| + CountTrue(RunPool(ds, gts, matchFunc, iouThresh).0) == |gts|
    decreases |ds|
  {
    if ds != [] {
      assert AllComparableTo(ds[..|ds| - 1], gts, matchFunc);
      var prev := RunPool(ds[..|ds| - 1], gts, matchFunc, iouThresh);
      RunPoolConserves(ds[..|ds| - 1], gts, matchFunc, iouThresh);
      CountTrueAppend(prev.0, [RunPool(ds, gts, matchFunc, iouThresh).0[|ds| - 1]]);
      assert RunPool(ds, gts, matchFunc, iouThresh).0 == prev.0 + [RunPool(ds, gts, matchFunc, iouThresh).0[|ds| - 1]];
    }
  }
}
