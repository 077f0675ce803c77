/** Sequence helpers used throughout the evaluation model: counting flags,
    order-preserving filters, removal by index, index permutations, sums
    and means. */
module Seqs {

  /** Number of `true` entries of `s`: the true-positive count of a flag prefix. */
  function CountTrue(s: seq<bool>): (n: nat)
    ensures n <= |s|
    ensures n == 0 <== (forall i :: 0 <= i < |s| ==> !s[i])
    ensures n == |s| <== (forall i :: 0 <= i < |s| ==> s[i])
  {
    if s == [] then 0 else CountTrue(s[..|s| - 1]) + (if s[|s| - 1] then 1 else 0)
  }

  lemma {:induction false} CountTrueAppend(a: seq<bool>, b: seq<bool>)
    ensures CountTrue(a + b) == CountTrue(a) + CountTrue(b)
    decreases |b|
  {
    if b == [] {
      assert a + b == a;
    } else {
      var b' := b[..|b| - 1];
      assert (a + b)[..|a + b| - 1] == a + b';
      CountTrueAppend(a, b');
    }
  }

  /** A zero count means no entry is set. */
  lemma {:induction false} CountTrueZero(s: seq<bool>)
    requires CountTrue(s) == 0
    ensures forall i :: 0 <= i < |s| ==> !s[i]
  {
    if s != [] {
      CountTrueZero(s[..|s| - 1]);
      assert forall i :: 0 <= i < |s| - 1 ==> s[i] == s[..|s| - 1][i];
    }
  }

  /** The count of a prefix grows by at most one per entry. */
  lemma {:induction false} CountTruePrefix(s: seq<bool>, i: nat, j: nat)
    requires i <= j <= |s|
    ensures CountTrue(s[..i]) <= CountTrue(s[..j]) <= CountTrue(s[..i]) + (j - i)
  {
    assert s[..j] == s[..i] + s[i..j];
    CountTrueAppend(s[..i], s[i..j]);
  }

  /** Counting agrees with the multiplicity of `true` in the multiset of flags. */
  lemma {:induction false} CountTrueMultiset(s: seq<bool>)
    ensures CountTrue(s) == multiset(s)[true]
  {
    if s != [] {
      var s' := s[..|s| - 1];
      assert s == s' + [s[|s| - 1]];
      CountTrueMultiset(s');
    }
  }

  /** The indices 0, 1, ..., n-1 in order. */
  function Range(n: nat): (r: seq<nat>)
    ensures |r| == n && forall i :: 0 <= i < n ==> r[i] == i
  {
    seq(n, i requires 0 <= i < n => i)
  }

  /** `s` read in the order given by the index sequence `p` (numpy fancy indexing `s[p]`). */
  function Apply<T>(s: seq<T>, p: seq<nat>): (r: seq<T>)
    requires forall k :: 0 <= k < |p| ==> p[k] < |s|
    ensures |r| == |p| && forall k :: 0 <= k < |p| ==> r[k] == s[p[k]]
  {
    seq(|p|, k requires 0 <= k < |p| => s[p[k]])
  }

  /** `p` lists every index below `n` exactly once. */
  predicate IsPermutation(p: seq<nat>, n: nat) {
    && |p| == n
    && (forall k :: 0 <= k < |p| ==> p[k] < n)
    && multiset(p) == multiset(Range(n))
  }

  lemma ApplyAppend<T>(s: seq<T>, a: seq<nat>, b: seq<nat>)
    requires forall k :: 0 <= k < |a| ==> a[k] < |s|
    requires forall k :: 0 <= k < |b| ==> b[k] < |s|
    ensures Apply(s, a + b) == Apply(s, a) + Apply(s, b)
  {
  }

  /** Taking one index out of the middle of an index sequence takes its value
      out of the multiset read. */
  lemma ApplySplit<T>(s: seq<T>, q1: seq<nat>, x: nat, q2: seq<nat>)
    requires forall k :: 0 <= k < |q1| ==> q1[k] < |s|
    requires forall k :: 0 <= k < |q2| ==> q2[k] < |s|
    requires x < |s|
    ensures multiset(Apply(s, q1 + [x] + q2)) == multiset(Apply(s, q1 + q2)) + multiset{s[x]}
  {
    ApplyAppend(s, q1, q2);
    ApplyAppend(s, q1, [x]);
    ApplyAppend(s, q1 + [x], q2);
    assert Apply(s, [x]) == [s[x]];
  }

  /** If `q` holds the same indices as a non-empty `p`, the first index of `p`
      occurs in `q`, and the rest of `p` matches `q` without that occurrence. */
  lemma MatchFirst(p: seq<nat>, q: seq<nat>) returns (j: nat)
    requires |p| > 0 && multiset(p) == multiset(q)
    ensures j < |q| && q == q[..j] + [p[0]] + q[j + 1..]
    ensures multiset(p[1..]) == multiset(q[..j] + q[j + 1..])
  {
    var x := p[0];
    assert x in multiset(q);
    j :| 0 <= j < |q| && q[j] == x;
    assert q == q[..j] + [x] + q[j + 1..];
    assert p == [x] + p[1..];
    assert multiset(p[1..]) == multiset(p) - multiset{x};
    assert multiset(q[..j] + q[j + 1..]) == multiset(q) - multiset{x};
  }

  /** Reading `s` through two index sequences with the same multiset of
      indices yields the same multiset of values. */
  lemma {:induction false} ApplyCongruent<T>(s: seq<T>, p: seq<nat>, q: seq<nat>)
    requires forall k :: 0 <= k < |p| ==> p[k] < |s|
    requires forall k :: 0 <= k < |q| ==> q[k] < |s|
    requires multiset(p) == multiset(q)
    ensures multiset(Apply(s, p)) == multiset(Apply(s, q))
    decreases |p|
  {
    if p == [] {
      assert |multiset(q)| == 0;
      assert q == [];
    } else {
      var j := MatchFirst(p, q);
      var x, q1, q2 := p[0], q[..j], q[j + 1..];
      forall k | 0 <= k < |q1 + q2| ensures (q1 + q2)[k] < |s| {
        if k < |q1| {
          assert (q1 + q2)[k] == q[k];
        } else {
          assert (q1 + q2)[k] == q[k + 1];
        }
      }
      ApplyCongruent(s, p[1..], q1 + q2);
      assert multiset(Apply(s, p)) == multiset(Apply(s, p[1..])) + multiset{s[x]} by {
        ApplySplit(s, [], x, p[1..]);
        assert [] + [x] + p[1..] == p && [] + p[1..] == p[1..];
      }
      assert multiset(Apply(s, q)) == multiset(Apply(s, q1 + q2)) + multiset{s[x]} by {
        ApplySplit(s, q1, x, q2);
      }
    }
  }

  /** Reordering by a permutation keeps the multiset of values. */
  lemma ApplyPermutation<T>(s: seq<T>, p: seq<nat>)
    requires IsPermutation(p, |s|)
    ensures multiset(Apply(s, p)) == multiset(s)
  {
    ApplyCongruent(s, p, Range(|s|));
    assert Apply(s, Range(|s|)) == s;
  }

  /** Reordering a flag sequence by a permutation keeps its true count. */
  lemma CountTruePermutation(s: seq<bool>, p: seq<nat>)
    requires IsPermutation(p, |s|)
    ensures CountTrue(Apply(s, p)) == CountTrue(s)
  {
    ApplyPermutation(s, p);
    CountTrueMultiset(s);
    CountTrueMultiset(Apply(s, p));
  }

  /** The entries of `s` that `keep` accepts, in their original order. */
  function Filter<T>(s: seq<T>, keep: T -> bool): (r: seq<T>)
    ensures |r| <= |s|
  {
    if s == [] then []
    else Filter(s[..|s| - 1], keep) + (if keep(s[|s| - 1]) then [s[|s| - 1]] else [])
  }

  /** An entry survives the filter exactly when it is in `s` and accepted. */
  lemma {:induction false} FilterMembers<T>(s: seq<T>, keep: T -> bool, x: T)
    ensures x in Filter(s, keep) <==> x in s && keep(x)
  {
    if s != [] {
      var s' := s[..|s| - 1];
      assert s == s' + [s[|s| - 1]];
      FilterMembers(s', keep, x);
    }
  }

  /** `f` applied to every entry of `s`, keeping order. */
  function Project<T, V>(s: seq<T>, f: T -> V): (r: seq<V>)
    ensures |r| == |s| && forall i :: 0 <= i < |s| ==> r[i] == f(s[i])
  {
    seq(|s|, i requires 0 <= i < |s| => f(s[i]))
  }

  /** `s` with its `k`-th entry deleted (Python `del s[k]`, `np.delete(s, k, 0)`). */
  function RemoveAt<T>(s: seq<T>, k: nat): (r: seq<T>)
    requires k < |s|
    ensures |r| == |s| - 1
    ensures forall x :: x in r ==> x in s
    ensures forall i :: 0 <= i < k ==> r[i] == s[i]
    ensures forall i :: k <= i < |r| ==> r[i] == s[i + 1]
  {
    s[..k] + s[k + 1..]
  }

  /** Deleting entry `k` removes exactly one occurrence of `s[k]`. */
  lemma RemoveAtMultiset<T>(s: seq<T>, k: nat)
    requires k < |s|
    ensures multiset(RemoveAt(s, k)) == multiset(s) - multiset{s[k]}
    ensures multiset(RemoveAt(s, k)) < multiset(s)
  {
    assert s == s[..k] + [s[k]] + s[k + 1..];
    assert s[k] in multiset(s);
  }

  function Sum(s: seq<real>): real {
    if s == [] then 0.0 else Sum(s[..|s| - 1]) + s[|s| - 1]
  }

  /** Arithmetic mean (`np.mean`, or a running sum divided by the count). */
  function Mean(s: seq<real>): real
    requires |s| > 0
  {
    Sum(s) / (|s| as real)
  }

  lemma {:induction false} SumBounds(s: seq<real>, lo: real, hi: real)
    requires forall i :: 0 <= i < |s| ==> lo <= s[i] <= hi
    ensures (|s| as real) * lo <= Sum(s) <= (|s| as real) * hi
  {
    if s != [] {
      SumBounds(s[..|s| - 1], lo, hi);
    }
  }

  /** A mean of values within [lo, hi] is within [lo, hi]. */
  lemma MeanBounds(s: seq<real>, lo: real, hi: real)
    requires |s| > 0
    requires forall i :: 0 <= i < |s| ==> lo <= s[i] <= hi
    ensures lo <= Mean(s) <= hi
  {
    SumBounds(s, lo, hi);
    var n := |s| as real;
    assert Sum(s) / n >= (n * lo) / n;
    assert Sum(s) / n <= (n * hi) / n;
  }
}
