/** Finite sums over sequences of reals, and the gather of per-slot values
    onto the nodes they are keyed to. These are the reference definitions the
    accumulation loops of the hydro step are proved against. */
module Sums {

  /** Sum of all elements, peeled from the end so that a loop adding
      s[0], s[1], ... keeps `acc == Sum(s[..i])`. */
  function Sum(s: seq<real>): real
  {
    if |s| == 0 then 0.0 else Sum(s[..|s| - 1]) + s[|s| - 1]
  }

  lemma SumPrefixStep(s: seq<real>, i: int)
    requires 0 <= i < |s|
    ensures Sum(s[..i + 1]) == Sum(s[..i]) + s[i]
  {
    assert s[..i + 1][..i] == s[..i];
  }

  lemma {:induction false} SumAppend(a: seq<real>, b: seq<real>)
    ensures Sum(a + b) == Sum(a) + Sum(b)
  {
    if |b| == 0 {
      assert a + b == a;
    } else {
      assert (a + b)[..|a + b| - 1] == a + b[..|b| - 1];
      SumAppend(a, b[..|b| - 1]);
    }
  }

  /** Pointwise addition distributes over Sum. */
  lemma {:induction false} SumAdd(u: seq<real>, v: seq<real>, w: seq<real>)
    requires |u| == |v| == |w|
    requires forall i :: 0 <= i < |w| ==> w[i] == u[i] + v[i]
    ensures Sum(w) == Sum(u) + Sum(v)
  {
    var n := |w|;
    if n > 0 {
      SumAdd(u[..n - 1], v[..n - 1], w[..n - 1]);
    }
  }

  /** A constant factor moves out of Sum. */
  lemma {:induction false} SumScale(u: seq<real>, w: seq<real>, a: real)
    requires |u| == |w|
    requires forall i :: 0 <= i < |w| ==> w[i] == a * u[i]
    ensures Sum(w) == a * Sum(u)
  {
    var n := |w|;
    if n > 0 {
      SumScale(u[..n - 1], w[..n - 1], a);
    }
  }

  /** Sequences equal pointwise have equal sums (used where the two are built
      by different comprehensions). */
  lemma SumCongruent(u: seq<real>, w: seq<real>)
    requires |u| == |w|
    requires forall i :: 0 <= i < |w| ==> w[i] == u[i]
    ensures Sum(w) == Sum(u)
  {
    assert u == w;
  }

  /** The sum of a sequence that is zero everywhere except at j. */
  lemma {:induction false} SumIndicator(m: nat, j: int, v: real)
    requires 0 <= j < m
    ensures Sum(seq(m, n => if n == j then v else 0.0)) == v
  {
    var s := seq(m, n => if n == j then v else 0.0);
    if j == m - 1 {
      ZeroSum(m - 1);
      assert s[..m - 1] == seq(m - 1, n => 0.0);
    } else {
      SumIndicator(m - 1, j, v);
      assert s[..m - 1] == seq(m - 1, n => if n == j then v else 0.0);
    }
  }

  lemma {:induction false} ZeroSum(m: nat)
    ensures Sum(seq(m, n => 0.0)) == 0.0
  {
    if m > 0 {
      ZeroSum(m - 1);
      assert seq(m, n => 0.0)[..m - 1] == seq(m - 1, n => 0.0);
    }
  }

  /** Sum over slots lo..hi-1 of the values w[k] whose key is n: what a
      scatter-add loop `acc[keys[k]] += w[k]` has added to acc[n]. */
  function Gather(w: seq<real>, keys: seq<int>, lo: int, hi: int, n: int): real
    requires 0 <= lo <= hi <= |w| && hi <= |keys|
    decreases hi - lo
  {
    if hi == lo then 0.0
    else Gather(w, keys, lo, hi - 1, n) + (if keys[hi - 1] == n then w[hi - 1] else 0.0)
  }

  /** Gather reads only the slots lo..hi-1. */
  lemma {:induction false} GatherFrame(w1: seq<real>, w2: seq<real>, keys: seq<int>, lo: int, hi: int, n: int)
    requires 0 <= lo <= hi <= |w1| && hi <= |w2| && hi <= |keys|
    requires forall k :: lo <= k < hi ==> w1[k] == w2[k]
    ensures Gather(w1, keys, lo, hi, n) == Gather(w2, keys, lo, hi, n)
    decreases hi - lo
  {
    if hi > lo {
      GatherFrame(w1, w2, keys, lo, hi - 1, n);
    }
  }

  /** Slots whose value is zero add nothing to any node. */
  lemma {:induction false} GatherZeroTail(w: seq<real>, keys: seq<int>, lo: int, mid: int, hi: int, n: int)
    requires 0 <= lo <= mid <= hi <= |w| && hi <= |keys|
    requires forall k :: mid <= k < hi ==> w[k] == 0.0
    ensures Gather(w, keys, lo, hi, n) == Gather(w, keys, lo, mid, n)
    decreases hi - mid
  {
    if hi > mid {
      GatherZeroTail(w, keys, lo, mid, hi - 1, n);
    }
  }

  /** The per-node gathers of all slots, one entry per node. */
  function NodeTotals(w: seq<real>, keys: seq<int>, lo: int, hi: int, m: nat): (r: seq<real>)
    requires 0 <= lo <= hi <= |w| && hi <= |keys|
    ensures |r| == m
  {
    seq(m, n => Gather(w, keys, lo, hi, n))
  }

  /** Conservation of a scatter: when every key names one of the m nodes, the
      node totals add up to the sum of the slot values. */
  lemma {:induction false} GatherTotal(w: seq<real>, keys: seq<int>, lo: int, hi: int, m: nat)
    requires 0 <= lo <= hi <= |w| && hi <= |keys|
    requires forall k :: lo <= k < hi ==> 0 <= keys[k] < m
    ensures Sum(NodeTotals(w, keys, lo, hi, m)) == Sum(w[lo..hi])
    decreases hi - lo
  {
    if hi == lo {
      ZeroSum(m);
      assert NodeTotals(w, keys, lo, hi, m) == seq(m, n => 0.0);
    } else {
      GatherTotal(w, keys, lo, hi - 1, m);
      var j, v := keys[hi - 1], w[hi - 1];
      var ind := seq(m, n => if n == j then v else 0.0);
      SumIndicator(m, j, v);
      SumAdd(NodeTotals(w, keys, lo, hi - 1, m), ind, NodeTotals(w, keys, lo, hi, m));
      assert w[lo..hi] == w[lo..hi - 1] + [v];
      SumAppend(w[lo..hi - 1], [v]);
      assert Sum([v]) == v by {
        assert [v][..0] == [];
      }
    }
  }

  /** The sum of every value times inv, in the order an accumulating loop
      adds them; kept apart from Sum(s) * inv so that loop invariants carry no
      product of unknowns. */
  function ScaledSum(s: seq<real>, inv: real): real
  {
    if |s| == 0 then 0.0 else ScaledSum(s[..|s| - 1], inv) + Weigh(s[|s| - 1], inv)
  }

  /** One term of such a sum. */
  function Weigh(x: real, inv: real): real
  {
    x * inv
  }

  /** One step of such a loop. */
  lemma ScaledPrefixStep(s: seq<real>, nn: int, inv: real)
    requires 0 <= nn < |s|
    ensures ScaledSum(s[..nn + 1], inv) == ScaledSum(s[..nn], inv) + Weigh(s[nn], inv)
  {
    assert s[..nn + 1][..nn] == s[..nn];
  }

  /** The factor moves out of the sum. */
  lemma {:induction false} ScaledSumFactor(s: seq<real>, inv: real)
    ensures ScaledSum(s, inv) == Sum(s) * inv
  {
    if |s| > 0 {
      ScaledSumFactor(s[..|s| - 1], inv);
    }
  }

  /** acc holds base plus the gather of slots lo..hi-1: the state of a
      scatter-add loop `acc[keys[k]] += w[k]` after slot hi-1. */
  predicate Scattered(acc: seq<real>, base: seq<real>, w: seq<real>, keys: seq<int>, lo: int, hi: int)
    requires 0 <= lo <= hi <= |w| && hi <= |keys|
  {
    |acc| == |base| && forall n {:trigger Gather(w, keys, lo, hi, n)} :: 0 <= n < |acc| ==> acc[n] == base[n] + Gather(w, keys, lo, hi, n)
  }

  /** One step of such a loop. */
  lemma ScatterStep(w: seq<real>, keys: seq<int>, lo: int, k: int, base: seq<real>, before: seq<real>, after: seq<real>)
    requires 0 <= lo <= k < |w| && k < |keys| && 0 <= keys[k] < |before|
    requires Scattered(before, base, w, keys, lo, k)
    requires |after| == |before| && after[keys[k]] == before[keys[k]] + w[k]
    requires forall n :: 0 <= n < |after| && n != keys[k] ==> after[n] == before[n]
    ensures Scattered(after, base, w, keys, lo, k + 1)
  {
    forall n | 0 <= n < |after|
      ensures after[n] == base[n] + Gather(w, keys, lo, k + 1, n)
    {
      assert before[n] == base[n] + Gather(w, keys, lo, k, n);
    }
  }

  /** Every element times a. */
  function Scaled(a: real, s: seq<real>): (r: seq<real>)
    ensures |r| == |s|
  {
    seq(|s|, i requires 0 <= i < |s| => a * s[i])
  }

  /** Conservation of a scatter over all of w. */
  lemma GatherAll(w: seq<real>, keys: seq<int>, m: nat)
    requires |w| == |keys|
    requires forall k :: 0 <= k < |keys| ==> 0 <= keys[k] < m
    ensures Sum(NodeTotals(w, keys, 0, |w|, m)) == Sum(w)
  {
    GatherTotal(w, keys, 0, |w|, m);
    assert w[0..|w|] == w;
  }

  /** Scaling every element scales the sum. */
  lemma SumScaled(a: real, s: seq<real>)
    ensures Sum(Scaled(a, s)) == a * Sum(s)
  {
    SumScale(s, Scaled(a, s), a);
  }

  /** The sum of a slice grows by the next element. */
  lemma SumSliceStep(s: seq<real>, lo: int, i: int)
    requires 0 <= lo <= i < |s|
    ensures Sum(s[lo..i + 1]) == Sum(s[lo..i]) + s[i]
  {
    assert s[lo..i + 1][..i - lo] == s[lo..i];
  }

  /** Scaling a sequence whose sum is known. */
  lemma SumScaledTo(a: real, s: seq<real>, total: real)
    requires Sum(s) == total
    ensures Sum(Scaled(a, s)) == a * total
  {
    SumScaled(a, s);
  }

  /** A constant multiple of a sequence whose sum is known. */
  lemma ScaledTotal(u: seq<real>, w: seq<real>, a: real, total: real)
    requires |u| == |w| && Sum(u) == total
    requires forall i :: 0 <= i < |w| ==> w[i] == a * u[i]
    ensures Sum(w) == a * total
  {
    SumScale(u, w, a);
  }

  /** Conservation of a scatter-add loop: once slots lo..hi-1 are scattered
      onto acc, its total has grown by exactly the sum of those slots. */
  lemma ScatteredSum(acc: seq<real>, base: seq<real>, w: seq<real>, keys: seq<int>, lo: int, hi: int)
    requires 0 <= lo <= hi <= |w| && hi <= |keys|
    requires forall k :: lo <= k < hi ==> 0 <= keys[k] < |acc|
    requires Scattered(acc, base, w, keys, lo, hi)
    ensures Sum(acc) == Sum(base) + Sum(w[lo..hi])
  {
    var totals := NodeTotals(w, keys, lo, hi, |acc|);
    GatherTotal(w, keys, lo, hi, |acc|);
    forall n | 0 <= n < |acc|
      ensures acc[n] == base[n] + totals[n]
    {
      assert acc[n] == base[n] + Gather(w, keys, lo, hi, n);
    }
    SumAdd(base, totals, acc);
  }

  /** The sum of a slice splits at any point inside it. */
  lemma SlicesAppend(s: seq<real>, lo: int, mid: int, hi: int)
    requires 0 <= lo <= mid <= hi <= |s|
    ensures Sum(s[lo..hi]) == Sum(s[lo..mid]) + Sum(s[mid..hi])
  {
    assert s[lo..hi] == s[lo..mid] + s[mid..hi];
    SumAppend(s[lo..mid], s[mid..hi]);
  }

  /** A node that no key names gathers nothing. */
  lemma {:induction false} GatherMissing(w: seq<real>, keys: seq<int>, hi: int, n: int)
    requires 0 <= hi <= |w| && hi <= |keys|
    requires forall k :: 0 <= k < hi ==> keys[k] != n
    ensures Gather(w, keys, 0, hi, n) == 0.0
  {
    if hi > 0 {
      GatherMissing(w, keys, hi - 1, n);
    }
  }
}
