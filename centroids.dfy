/** Cell centroids: the plain mean of a cell's node positions
    (omp3/hale.c:45-57 and 297-309). */
module Centroids {
  import opened Sums
  import opened Geometry
  import opened Topology

  /** Arithmetic mean; zero for an empty sequence, as the loop leaves it. */
  function Mean(s: seq<real>): real
  {
    if |s| == 0 then 0.0 else Sum(s) / (|s| as real)
  }

  lemma {:induction false} SumBounds(s: seq<real>, lo: real, hi: real)
    requires forall i :: 0 <= i < |s| ==> lo <= s[i] <= hi
    ensures (|s| as real) * lo <= Sum(s) <= (|s| as real) * hi
  {
    if |s| > 0 {
      SumBounds(s[..|s| - 1], lo, hi);
    }
  }

  /** The mean lies between the smallest and the largest value, so a
      centroid lies inside the bounding box of its cell's nodes. */
  lemma MeanBounds(s: seq<real>, lo: real, hi: real)
    requires |s| > 0
    requires forall i :: 0 <= i < |s| ==> lo <= s[i] <= hi
    ensures lo <= Mean(s) <= hi
  {
    SumBounds(s, lo, hi);
    var n := |s| as real;
    assert Mean(s) * n == Sum(s);
  }

  /** Adding every value times 1/n gives the mean. */
  lemma ScaledSumIsMean(s: seq<real>, inv: real)
    requires |s| > 0 ==> inv == 1.0 / (|s| as real)
    ensures ScaledSum(s[..|s|], inv) == Mean(s)
  {
    assert s[..|s|] == s;
    ScaledSumFactor(s, inv);
  }

  /** Node nn of a cell's ring sits at the position of the node in slot
      offsets[cc] + nn. */
  lemma RingAt(t: Connectivity, xs: seq<real>, ys: seq<real>, cc: int, nn: int)
    requires t.Valid() && t.nnodes <= |xs| && t.nnodes <= |ys| && 0 <= cc < t.ncells
    requires 0 <= nn < t.Size(cc)
    ensures Xs(Ring(t, xs, ys, cc))[nn] == xs[t.nodes[t.offsets[cc] + nn]]
    ensures Ys(Ring(t, xs, ys, cc))[nn] == ys[t.nodes[t.offsets[cc] + nn]]
  {
  }

  /** One turn of the centroid loop adds node nn's coordinates, scaled,
      to the running sums over the ring. */
  lemma CentroidStep(t: Connectivity, xs: seq<real>, ys: seq<real>, cc: int, nn: int, inv: real)
    requires t.Valid() && t.nnodes <= |xs| && t.nnodes <= |ys| && 0 <= cc < t.ncells
    requires 0 <= nn < t.Size(cc)
    ensures ScaledSum(Xs(Ring(t, xs, ys, cc))[..nn + 1], inv)
         == ScaledSum(Xs(Ring(t, xs, ys, cc))[..nn], inv) + Weigh(xs[t.nodes[t.offsets[cc] + nn]], inv)
    ensures ScaledSum(Ys(Ring(t, xs, ys, cc))[..nn + 1], inv)
         == ScaledSum(Ys(Ring(t, xs, ys, cc))[..nn], inv) + Weigh(ys[t.nodes[t.offsets[cc] + nn]], inv)
  {
    RingAt(t, xs, ys, cc, nn);
    ScaledPrefixStep(Xs(Ring(t, xs, ys, cc)), nn, inv);
    ScaledPrefixStep(Ys(Ring(t, xs, ys, cc)), nn, inv);
  }

  /** Once the loop has visited every node, the sums are the means. */
  lemma CentroidIsMean(t: Connectivity, xs: seq<real>, ys: seq<real>, cc: int, inv: real)
    requires t.Valid() && t.nnodes <= |xs| && t.nnodes <= |ys| && 0 <= cc < t.ncells
    requires t.Size(cc) > 0 ==> inv == 1.0 / (t.Size(cc) as real)
    ensures ScaledSum(Xs(Ring(t, xs, ys, cc))[..t.Size(cc)], inv) == Mean(Xs(Ring(t, xs, ys, cc)))
    ensures ScaledSum(Ys(Ring(t, xs, ys, cc))[..t.Size(cc)], inv) == Mean(Ys(Ring(t, xs, ys, cc)))
  {
    ScaledSumIsMean(Xs(Ring(t, xs, ys, cc)), inv);
    ScaledSumIsMean(Ys(Ring(t, xs, ys, cc)), inv);
  }

  /** The centroid of one cell: every node position times the reciprocal of
      the node count, accumulated in ring order (omp3/hale.c:46-56). */
  method CellCentroid(t: Connectivity, xs: seq<real>, ys: seq<real>, cc: int) returns (cx: real, cy: real)
    requires t.Valid() && t.nnodes <= |xs| && t.nnodes <= |ys| && 0 <= cc < t.ncells
    ensures cx == Mean(Xs(Ring(t, xs, ys, cc))) && cy == Mean(Ys(Ring(t, xs, ys, cc)))
  {
    var nodesOff := t.offsets[cc];
    var nnodesAroundCell := t.offsets[cc + 1] - nodesOff;
    // The source divides unconditionally; with no nodes the quotient is
    // never used, so the model skips it.
    var invNp := if nnodesAroundCell > 0 then 1.0 / (nnodesAroundCell as real) else 0.0;
    cx, cy := 0.0, 0.0;
    for nn := 0 to nnodesAroundCell
      invariant cx == ScaledSum(Xs(Ring(t, xs, ys, cc))[..nn], invNp)
      invariant cy == ScaledSum(Ys(Ring(t, xs, ys, cc))[..nn], invNp)
    {
      var nodeIndex := t.nodes[nodesOff + nn];
      CentroidStep(t, xs, ys, cc, nn, invNp);
      cx := cx + Weigh(xs[nodeIndex], invNp);
      cy := cy + Weigh(ys[nodeIndex], invNp);
    }
    CentroidIsMean(t, xs, ys, cc, invNp);
  }

  /** Centroid of every cell, halo cells included, from positions xs, ys
      (omp3/hale.c:45-57 and 297-309). */
  method CalculateCentroids(t: Connectivity, xs: seq<real>, ys: seq<real>,
                            centroidX: array<real>, centroidY: array<real>)
    requires t.Valid() && t.nnodes <= |xs| && t.nnodes <= |ys|
    requires t.ncells <= centroidX.Length && t.ncells <= centroidY.Length && centroidX != centroidY
    modifies centroidX, centroidY
    ensures forall cc :: 0 <= cc < t.ncells ==>
      centroidX[cc] == Mean(Xs(Ring(t, xs, ys, cc))) && centroidY[cc] == Mean(Ys(Ring(t, xs, ys, cc)))
    ensures forall cc :: t.ncells <= cc < centroidX.Length ==> centroidX[cc] == old(centroidX[cc])
    ensures forall cc :: t.ncells <= cc < centroidY.Length ==> centroidY[cc] == old(centroidY[cc])
  {
    for cc := 0 to t.ncells
      invariant forall c :: 0 <= c < cc ==>
        centroidX[c] == Mean(Xs(Ring(t, xs, ys, c))) && centroidY[c] == Mean(Ys(Ring(t, xs, ys, c)))
      invariant forall c :: cc <= c < centroidX.Length ==> centroidX[c] == old(centroidX[c])
      invariant forall c :: cc <= c < centroidY.Length ==> centroidY[c] == old(centroidY[c])
    {
      var cx, cy := CellCentroid(t, xs, ys, cc);
      centroidX[cc] := cx;
      centroidY[cc] := cy;
    }
  }
}
