/** The two numpy ranking primitives the evaluator relies on: `np.argmax`
    (first index of a maximal value) and `np.argsort(-x)` (an index order by
    non-increasing value, with no promise about ties). */
module Ranking {
  import opened Seqs

  /** `np.argmax`: the first index holding the largest value. */
  function FirstArgMax(s: seq<real>): (k: nat)
    requires |s| > 0
    ensures k < |s|
    ensures forall j :: 0 <= j < |s| ==> s[j] <= s[k]
    ensures forall j :: 0 <= j < k ==> s[j] < s[k]
  {
    if |s| == 1 then 0
    else
      var k := FirstArgMax(s[..|s| - 1]);
      if s[|s| - 1] > s[k] then |s| - 1 else k
  }

  /** Reading `keys` in order `p` gives non-increasing values. */
  predicate NonIncreasingAlong(keys: seq<real>, p: seq<nat>)
    requires forall k :: 0 <= k < |p| ==> p[k] < |keys|
  {
    forall a, b {:trigger keys[p[a]], keys[p[b]]} :: 0 <= a < b < |p| ==> keys[p[a]] >= keys[p[b]]
  }

  /** `p` is an order in which `np.argsort(-keys)` may list the indices of `keys`. */
  predicate IsDescendingOrder(keys: seq<real>, p: seq<nat>) {
    IsPermutation(p, |keys|) && NonIncreasingAlong(keys, p)
  }

  /** Putting index `i` at the position `p` where larger-or-equal keys end
      keeps the order non-increasing. */
  lemma InsertKeepsDescending(keys: seq<real>, order: seq<nat>, p: nat, i: nat)
    requires i < |keys| && p <= |order|
    requires forall k :: 0 <= k < |order| ==> order[k] < |keys|
    requires NonIncreasingAlong(keys, order)
    requires forall a :: 0 <= a < p ==> keys[order[a]] >= keys[i]
    requires forall a :: p <= a < |order| ==> keys[order[a]] < keys[i]
    ensures NonIncreasingAlong(keys, order[..p] + [i] + order[p..])
  {
    var o := order[..p] + [i] + order[p..];
    forall a, b | 0 <= a < b < |o| ensures keys[o[a]] >= keys[o[b]] {
      if b < p {
      } else if a < p {
      } else if a == p {
      } else {
        assert o[a] == order[a - 1] && o[b] == order[b - 1];
      }
    }
  }

  /** Adding the next index `i` anywhere to a permutation of 0..i-1 gives a
      permutation of 0..i. */
  lemma InsertKeepsPermutation(order: seq<nat>, p: nat, i: nat)
    requires IsPermutation(order, i) && p <= |order|
    ensures IsPermutation(order[..p] + [i] + order[p..], i + 1)
  {
    var o := order[..p] + [i] + order[p..];
    assert order == order[..p] + order[p..];
    assert multiset(o) == multiset(order) + multiset{i};
    assert Range(i + 1) == Range(i) + [i];
  }

  /** One insertion step: place index `i` after every index whose key is at
      least `keys[i]`, keeping a non-increasing permutation of 0..i. */
  method InsertDescending(keys: seq<real>, order: seq<nat>, i: nat) returns (order': seq<nat>)
    requires i < |keys| && IsPermutation(order, i) && NonIncreasingAlong(keys, order)
    ensures IsPermutation(order', i + 1) && NonIncreasingAlong(keys, order')
  {
    var p := 0;
    while p < |order| && keys[order[p]] >= keys[i]
      invariant 0 <= p <= |order|
      invariant forall a :: 0 <= a < p ==> keys[order[a]] >= keys[i]
    {
      p := p + 1;
    }
    forall a | p <= a < |order| ensures keys[order[a]] < keys[i] {
      assert keys[order[p]] < keys[i];
      if p < a {
        assert keys[order[p]] >= keys[order[a]];
      }
    }
    InsertKeepsDescending(keys, order, p, i);
    InsertKeepsPermutation(order, p, i);
    order' := order[..p] + [i] + order[p..];
  }

  /** `np.argsort(-keys)`: every index once, keys non-increasing. The numpy
      sort is not stable, so callers may rely on nothing about the relative
      order of equal keys; the contract promises exactly that much. */
  method ArgSortDesc(keys: seq<real>) returns (order: seq<nat>)
    ensures IsDescendingOrder(keys, order)
  {
    order := [];
    var i := 0;
    while i < |keys|
      invariant 0 <= i <= |keys|
      invariant IsPermutation(order, i)
      invariant NonIncreasingAlong(keys, order)
    {
      order := InsertDescending(keys, order, i);
      i := i + 1;
    }
  }
}
