/** The artificial viscosity (calculate_artificial_viscosity,
    omp3/hale.c:496-581). Every edge of an interior cell, from a node to its
    right neighbour in the ring, is tested for compression; a compressing
    edge takes its viscous force off the first node and hands it to the
    second. The magnitude of the viscous force is a parameter of the model:
    only the gate and the antisymmetric scatter are modelled. */
module Viscosity {
  import opened Sums
  import opened Stencil
  import opened Geometry
  import opened Topology

  /** The mesh, node positions, centroids and node velocities fit together. */
  predicate ViscosityInputs(t: Connectivity, xs: seq<real>, ys: seq<real>, cx: seq<real>, cy: seq<real>,
                            vx: seq<real>, vy: seq<real>)
  {
    && t.Valid() && t.nnodes <= |xs| && t.nnodes <= |ys| && t.ncells <= |cx| && t.ncells <= |cy|
    && t.nnodes <= |vx| && t.nnodes <= |vy|
  }

  /** The node at the far end of edge nn of cell cc: the right neighbour of
      local node nn. */
  function RightNode(t: Connectivity, cc: int, nn: int): (r: int)
    requires t.Valid() && 0 <= cc < t.ncells && 0 <= nn < t.Size(cc)
    ensures 0 <= r < t.nnodes
  {
    t.nodes[t.offsets[cc] + RightOf(t.Size(cc), nn)]
  }

  /** The far-end node of every edge of cell cc, in ring order. */
  function RightNodes(t: Connectivity, cc: int): (keys: seq<int>)
    requires t.Valid() && 0 <= cc < t.ncells
    ensures |keys| == t.Size(cc)
    ensures forall nn :: 0 <= nn < |keys| ==> 0 <= keys[nn] < t.nnodes
  {
    seq(t.Size(cc), nn requires 0 <= nn < t.Size(cc) => RightNode(t, cc, nn))
  }

  /** The vector from the centroid of cell cc to the midpoint of edge nn,
      turned a quarter turn clockwise: the outward normal of the edge's
      half of the cell. */
  function EdgeNormal(t: Connectivity, xs: seq<real>, ys: seq<real>, cx: seq<real>, cy: seq<real>,
                      cc: int, nn: int): Vec
    requires t.Valid() && t.nnodes <= |xs| && t.nnodes <= |ys| && t.ncells <= |cx| && t.ncells <= |cy|
    requires 0 <= cc < t.ncells && 0 <= nn < t.Size(cc)
  {
    var c, r := t.nodes[t.offsets[cc] + nn], RightNode(t, cc, nn);
    var mid := Midpoint(Vec(xs[c], ys[c]), Vec(xs[r], ys[r]));
    Vec(mid.y - cy[cc], -(mid.x - cx[cc]))
  }

  /** Velocity difference along edge nn of cell cc, far end minus near end. */
  function VelocityJump(t: Connectivity, vx: seq<real>, vy: seq<real>, cc: int, nn: int): Vec
    requires t.Valid() && t.nnodes <= |vx| && t.nnodes <= |vy| && 0 <= cc < t.ncells && 0 <= nn < t.Size(cc)
  {
    var c, r := t.nodes[t.offsets[cc] + nn], RightNode(t, cc, nn);
    Vec(vx[r] - vx[c], vy[r] - vy[c])
  }

  /** The compression gate: the edge is compressing when the velocity jump
      has no positive component along the edge normal. */
  predicate Compressing(t: Connectivity, xs: seq<real>, ys: seq<real>, cx: seq<real>, cy: seq<real>,
                        vx: seq<real>, vy: seq<real>, cc: int, nn: int)
    requires ViscosityInputs(t, xs, ys, cx, cy, vx, vy) && 0 <= cc < t.ncells && 0 <= nn < t.Size(cc)
  {
    Dot(VelocityJump(t, vx, vy, cc, nn), EdgeNormal(t, xs, ys, cx, cy, cc, nn)) <= 0.0
  }

  /** The force each edge of cell cc moves from its near to its far node:
      the viscous force where the edge compresses, nothing where it expands. */
  function EdgeForces(t: Connectivity, xs: seq<real>, ys: seq<real>, cx: seq<real>, cy: seq<real>,
                      vx: seq<real>, vy: seq<real>, viscousForce: (int, int) -> Vec, cc: int): (f: seq<Vec>)
    requires ViscosityInputs(t, xs, ys, cx, cy, vx, vy) && 0 <= cc < t.ncells
    ensures |f| == t.Size(cc)
  {
    seq(t.Size(cc), nn requires 0 <= nn < t.Size(cc) =>
      if Compressing(t, xs, ys, cx, cy, vx, vy, cc, nn) then viscousForce(cc, nn) else Vec(0.0, 0.0))
  }

  /** acc holds base, less what edges 0..hi-1 took from their near nodes,
      plus what they gave their far nodes: the state of a loop doing
      `acc[from[k]] -= w[k]; acc[to[k]] += w[k]` after edge hi-1. */
  predicate EdgeScattered(acc: seq<real>, base: seq<real>, w: seq<real>, from: seq<int>, to: seq<int>, hi: int)
    requires 0 <= hi <= |w| && hi <= |from| && hi <= |to|
  {
    |acc| == |base| &&
    forall n {:trigger Gather(w, from, 0, hi, n)} :: 0 <= n < |acc| ==>
      acc[n] == base[n] - Gather(w, from, 0, hi, n) + Gather(w, to, 0, hi, n)
  }

  /** One edge of such a loop: the near node loses w[k], the far node gains
      it (when both are the same node it is unchanged). */
  lemma EdgeScatterStep(w: seq<real>, from: seq<int>, to: seq<int>, k: int,
                        base: seq<real>, before: seq<real>, after: seq<real>)
    requires 0 <= k < |w| && k < |from| && k < |to| && |after| == |before|
    requires EdgeScattered(before, base, w, from, to, k)
    requires forall n :: 0 <= n < |after| ==>
      after[n] == before[n] - (if n == from[k] then w[k] else 0.0) + (if n == to[k] then w[k] else 0.0)
    ensures EdgeScattered(after, base, w, from, to, k + 1)
  {
    forall n | 0 <= n < |after|
      ensures after[n] == base[n] - Gather(w, from, 0, k + 1, n) + Gather(w, to, 0, k + 1, n)
    {
      assert before[n] == base[n] - Gather(w, from, 0, k, n) + Gather(w, to, 0, k, n);
    }
  }

  /** Conservation of the edge scatter: what is taken from the near nodes is
      given to the far nodes, so the total of acc does not change. */
  lemma EdgeScatteredSum(acc: seq<real>, base: seq<real>, w: seq<real>, from: seq<int>, to: seq<int>, hi: int)
    requires 0 <= hi <= |w| && hi <= |from| && hi <= |to|
    requires forall k :: 0 <= k < hi ==> 0 <= from[k] < |acc| && 0 <= to[k] < |acc|
    requires EdgeScattered(acc, base, w, from, to, hi)
    ensures Sum(acc) == Sum(base)
  {
    var m := |acc|;
    var taken, given := NodeTotals(w, from, 0, hi, m), NodeTotals(w, to, 0, hi, m);
    GatherTotal(w, from, 0, hi, m);
    GatherTotal(w, to, 0, hi, m);
    var mid := seq(m, n requires 0 <= n < m => base[n] - taken[n]);
    forall n | 0 <= n < m
      ensures acc[n] == mid[n] + given[n]
    {
      assert acc[n] == base[n] - Gather(w, from, 0, hi, n) + Gather(w, to, 0, hi, n);
    }
    SumAdd(mid, given, acc);
    SumAdd(mid, taken, base);
  }

  /** The four updates of one compressing edge (omp3/hale.c:574-577). */
  method MoveEdgeForce(nodeForceX: array<real>, nodeForceY: array<real>, c: int, r: int, f: Vec)
    requires nodeForceX != nodeForceY
    requires 0 <= c < nodeForceX.Length && 0 <= r < nodeForceX.Length && nodeForceX.Length == nodeForceY.Length
    modifies nodeForceX, nodeForceY
    ensures forall n :: 0 <= n < nodeForceX.Length ==>
      nodeForceX[n] == old(nodeForceX[n]) - (if n == c then f.x else 0.0) + (if n == r then f.x else 0.0)
    ensures forall n :: 0 <= n < nodeForceY.Length ==>
      nodeForceY[n] == old(nodeForceY[n]) - (if n == c then f.y else 0.0) + (if n == r then f.y else 0.0)
  {
    nodeForceX[c] := nodeForceX[c] - f.x;
    nodeForceX[r] := nodeForceX[r] + f.x;
    nodeForceY[c] := nodeForceY[c] - f.y;
    nodeForceY[r] := nodeForceY[r] + f.y;
  }

  /** The edges of one interior cell (omp3/hale.c:513-579). */
  method ViscousCell(t: Connectivity, xs: seq<real>, ys: seq<real>, cx: seq<real>, cy: seq<real>,
                     vx: seq<real>, vy: seq<real>, viscousForce: (int, int) -> Vec, cc: int,
                     nodeForceX: array<real>, nodeForceY: array<real>)
    requires ViscosityInputs(t, xs, ys, cx, cy, vx, vy) && 0 <= cc < t.ncells
    requires nodeForceX != nodeForceY && nodeForceX.Length == nodeForceY.Length && t.nnodes <= nodeForceX.Length
    modifies nodeForceX, nodeForceY
    ensures EdgeScattered(nodeForceX[..], old(nodeForceX[..]), Xs(EdgeForces(t, xs, ys, cx, cy, vx, vy, viscousForce, cc)),
                          RingNodes(t, cc), RightNodes(t, cc), t.Size(cc))
    ensures EdgeScattered(nodeForceY[..], old(nodeForceY[..]), Ys(EdgeForces(t, xs, ys, cx, cy, vx, vy, viscousForce, cc)),
                          RingNodes(t, cc), RightNodes(t, cc), t.Size(cc))
  {
    ghost var f := EdgeForces(t, xs, ys, cx, cy, vx, vy, viscousForce, cc);
    ghost var from, to := RingNodes(t, cc), RightNodes(t, cc);
    ghost var fx0, fy0 := nodeForceX[..], nodeForceY[..];
    var nodesOff := t.offsets[cc];
    var nnodesAroundCell := t.offsets[cc + 1] - nodesOff;
    for nn := 0 to nnodesAroundCell
      invariant EdgeScattered(nodeForceX[..], fx0, Xs(f), from, to, nn)
      invariant EdgeScattered(nodeForceY[..], fy0, Ys(f), from, to, nn)
    {
      var nodeCOff := nodesOff + nn;
      var nodeROff := if nn == nnodesAroundCell - 1 then nodesOff else nodesOff + nn + 1;
      var nodeCIndex := t.nodes[nodeCOff];
      var nodeRIndex := t.nodes[nodeROff];
      var edgeMid := Midpoint(Vec(xs[nodeCIndex], ys[nodeCIndex]), Vec(xs[nodeRIndex], ys[nodeRIndex]));
      var s := Vec(edgeMid.y - cy[cc], -(edgeMid.x - cx[cc]));
      var gradVelocity := Vec(vx[nodeRIndex] - vx[nodeCIndex], vy[nodeRIndex] - vy[nodeCIndex]);
      var expansionTerm := Dot(gradVelocity, s);
      ghost var fxBefore, fyBefore := nodeForceX[..], nodeForceY[..];
      assert from[nn] == nodeCIndex && to[nn] == nodeRIndex;
      assert gradVelocity == VelocityJump(t, vx, vy, cc, nn) && s == EdgeNormal(t, xs, ys, cx, cy, cc, nn);
      assert Compressing(t, xs, ys, cx, cy, vx, vy, cc, nn) == (expansionTerm <= 0.0);
      assert f[nn] == if Compressing(t, xs, ys, cx, cy, vx, vy, cc, nn) then viscousForce(cc, nn) else Vec(0.0, 0.0);
      if expansionTerm <= 0.0 {
        MoveEdgeForce(nodeForceX, nodeForceY, nodeCIndex, nodeRIndex, viscousForce(cc, nn));
      }
      EdgeScatterStep(Xs(f), from, to, nn, fx0, fxBefore, nodeForceX[..]);
      EdgeScatterStep(Ys(f), from, to, nn, fy0, fyBefore, nodeForceY[..]);
    }
  }

  /** What the edges of the interior cells among the first k move onto node
      n: for each of them, what the node receives as a far end less what it
      gives as a near end. */
  function ViscousTotal(t: Connectivity, haloCell: seq<int>, xs: seq<real>, ys: seq<real>, cx: seq<real>, cy: seq<real>,
                        vx: seq<real>, vy: seq<real>, viscousForce: (int, int) -> Vec, k: int, n: int): Vec
    requires ViscosityInputs(t, xs, ys, cx, cy, vx, vy) && t.ncells <= |haloCell| && 0 <= k <= t.ncells
  {
    if k == 0 then Vec(0.0, 0.0)
    else
      var prev := ViscousTotal(t, haloCell, xs, ys, cx, cy, vx, vy, viscousForce, k - 1, n);
      if haloCell[k - 1] != 0 then prev
      else
        var f, from, to := EdgeForces(t, xs, ys, cx, cy, vx, vy, viscousForce, k - 1), RingNodes(t, k - 1), RightNodes(t, k - 1);
        Vec(prev.x - Gather(Xs(f), from, 0, |f|, n) + Gather(Xs(f), to, 0, |f|, n),
            prev.y - Gather(Ys(f), from, 0, |f|, n) + Gather(Ys(f), to, 0, |f|, n))
  }

  /** The node forces hold base plus the viscous totals of cells 0..k-1. */
  predicate HoldsViscousTotal(t: Connectivity, haloCell: seq<int>, xs: seq<real>, ys: seq<real>, cx: seq<real>, cy: seq<real>,
                              vx: seq<real>, vy: seq<real>, viscousForce: (int, int) -> Vec, k: int,
                              fx: seq<real>, fy: seq<real>, fx0: seq<real>, fy0: seq<real>)
    requires ViscosityInputs(t, xs, ys, cx, cy, vx, vy) && t.ncells <= |haloCell| && 0 <= k <= t.ncells
  {
    && |fx| == |fx0| && |fy| == |fy0| && t.nnodes <= |fx| && t.nnodes <= |fy|
    && (forall n :: 0 <= n < t.nnodes ==>
          fx[n] == fx0[n] + ViscousTotal(t, haloCell, xs, ys, cx, cy, vx, vy, viscousForce, k, n).x
          && fy[n] == fy0[n] + ViscousTotal(t, haloCell, xs, ys, cx, cy, vx, vy, viscousForce, k, n).y)
    && (forall n :: t.nnodes <= n < |fx| ==> fx[n] == fx0[n])
    && (forall n :: t.nnodes <= n < |fy| ==> fy[n] == fy0[n])
  }

  /** Scattering the edges of interior cell k advances the totals by one
      cell. */
  lemma ViscousTotalStep(t: Connectivity, haloCell: seq<int>, xs: seq<real>, ys: seq<real>, cx: seq<real>, cy: seq<real>,
                         vx: seq<real>, vy: seq<real>, viscousForce: (int, int) -> Vec, k: int,
                         fx0: seq<real>, fy0: seq<real>, fx1: seq<real>, fy1: seq<real>, fx2: seq<real>, fy2: seq<real>)
    requires ViscosityInputs(t, xs, ys, cx, cy, vx, vy) && t.ncells <= |haloCell| && 0 <= k < t.ncells && haloCell[k] == 0
    requires HoldsViscousTotal(t, haloCell, xs, ys, cx, cy, vx, vy, viscousForce, k, fx1, fy1, fx0, fy0)
    requires EdgeScattered(fx2, fx1, Xs(EdgeForces(t, xs, ys, cx, cy, vx, vy, viscousForce, k)), RingNodes(t, k), RightNodes(t, k), t.Size(k))
    requires EdgeScattered(fy2, fy1, Ys(EdgeForces(t, xs, ys, cx, cy, vx, vy, viscousForce, k)), RingNodes(t, k), RightNodes(t, k), t.Size(k))
    ensures HoldsViscousTotal(t, haloCell, xs, ys, cx, cy, vx, vy, viscousForce, k + 1, fx2, fy2, fx0, fy0)
  {
    var f, from, to := EdgeForces(t, xs, ys, cx, cy, vx, vy, viscousForce, k), RingNodes(t, k), RightNodes(t, k);
    RingNodesInRange(t, k);
    forall n | 0 <= n < t.nnodes
      ensures fx2[n] == fx0[n] + ViscousTotal(t, haloCell, xs, ys, cx, cy, vx, vy, viscousForce, k + 1, n).x
      ensures fy2[n] == fy0[n] + ViscousTotal(t, haloCell, xs, ys, cx, cy, vx, vy, viscousForce, k + 1, n).y
    {
      assert fx2[n] == fx1[n] - Gather(Xs(f), from, 0, |f|, n) + Gather(Xs(f), to, 0, |f|, n);
      assert fy2[n] == fy1[n] - Gather(Ys(f), from, 0, |f|, n) + Gather(Ys(f), to, 0, |f|, n);
    }
    forall n | t.nnodes <= n < |fx2|
      ensures fx2[n] == fx0[n]
    {
      assert fx2[n] == fx1[n] - Gather(Xs(f), from, 0, |f|, n) + Gather(Xs(f), to, 0, |f|, n);
      GatherMissing(Xs(f), from, |f|, n);
      GatherMissing(Xs(f), to, |f|, n);
    }
    forall n | t.nnodes <= n < |fy2|
      ensures fy2[n] == fy0[n]
    {
      assert fy2[n] == fy1[n] - Gather(Ys(f), from, 0, |f|, n) + Gather(Ys(f), to, 0, |f|, n);
      GatherMissing(Ys(f), from, |f|, n);
      GatherMissing(Ys(f), to, |f|, n);
    }
  }

  /** The viscous forces of all interior cells (omp3/hale.c:496-581): each
      node's force changes by its viscous total, halo cells contribute
      nothing, and the total force on the nodes is unchanged. */
  method CalculateArtificialViscosity(t: Connectivity, haloCell: seq<int>, xs: seq<real>, ys: seq<real>,
                                      cx: seq<real>, cy: seq<real>, vx: seq<real>, vy: seq<real>,
                                      viscousForce: (int, int) -> Vec, nodeForceX: array<real>, nodeForceY: array<real>)
    requires ViscosityInputs(t, xs, ys, cx, cy, vx, vy) && t.ncells <= |haloCell|
    requires nodeForceX != nodeForceY && nodeForceX.Length == nodeForceY.Length && t.nnodes <= nodeForceX.Length
    modifies nodeForceX, nodeForceY
    ensures HoldsViscousTotal(t, haloCell, xs, ys, cx, cy, vx, vy, viscousForce, t.ncells,
                              nodeForceX[..], nodeForceY[..], old(nodeForceX[..]), old(nodeForceY[..]))
    ensures Sum(nodeForceX[..]) == Sum(old(nodeForceX[..])) && Sum(nodeForceY[..]) == Sum(old(nodeForceY[..]))
  {
    ghost var fx0, fy0 := nodeForceX[..], nodeForceY[..];
    for cc := 0 to t.ncells
      invariant HoldsViscousTotal(t, haloCell, xs, ys, cx, cy, vx, vy, viscousForce, cc, nodeForceX[..], nodeForceY[..], fx0, fy0)
      invariant Sum(nodeForceX[..]) == Sum(fx0) && Sum(nodeForceY[..]) == Sum(fy0)
    {
      if haloCell[cc] != 0 {
        continue;
      }
      ghost var fx1, fy1 := nodeForceX[..], nodeForceY[..];
      ViscousCell(t, xs, ys, cx, cy, vx, vy, viscousForce, cc, nodeForceX, nodeForceY);
      ViscousTotalStep(t, haloCell, xs, ys, cx, cy, vx, vy, viscousForce, cc, fx0, fy0, fx1, fy1, nodeForceX[..], nodeForceY[..]);
      CellConserves(t, xs, ys, cx, cy, vx, vy, viscousForce, cc, fx1, nodeForceX[..], fy1, nodeForceY[..]);
    }
  }

  /** The edges of one cell leave the total node force unchanged. */
  lemma CellConserves(t: Connectivity, xs: seq<real>, ys: seq<real>, cx: seq<real>, cy: seq<real>,
                      vx: seq<real>, vy: seq<real>, viscousForce: (int, int) -> Vec, cc: int,
                      fx1: seq<real>, fx2: seq<real>, fy1: seq<real>, fy2: seq<real>)
    requires ViscosityInputs(t, xs, ys, cx, cy, vx, vy) && 0 <= cc < t.ncells && t.nnodes <= |fx2| && t.nnodes <= |fy2|
    requires EdgeScattered(fx2, fx1, Xs(EdgeForces(t, xs, ys, cx, cy, vx, vy, viscousForce, cc)), RingNodes(t, cc), RightNodes(t, cc), t.Size(cc))
    requires EdgeScattered(fy2, fy1, Ys(EdgeForces(t, xs, ys, cx, cy, vx, vy, viscousForce, cc)), RingNodes(t, cc), RightNodes(t, cc), t.Size(cc))
    ensures Sum(fx2) == Sum(fx1) && Sum(fy2) == Sum(fy1)
  {
    RingNodesInRange(t, cc);
    var f := EdgeForces(t, xs, ys, cx, cy, vx, vy, viscousForce, cc);
    EdgeScatteredSum(fx2, fx1, Xs(f), RingNodes(t, cc), RightNodes(t, cc), t.Size(cc));
    EdgeScatteredSum(fy2, fy1, Ys(f), RingNodes(t, cc), RightNodes(t, cc), t.Size(cc));
  }

  /** The compression gate: a cell none of whose edges compresses moves no
      force, so the totals are those of the cells before it. */
  lemma ExpandingCellMovesNothing(t: Connectivity, haloCell: seq<int>, xs: seq<real>, ys: seq<real>, cx: seq<real>, cy: seq<real>,
                                  vx: seq<real>, vy: seq<real>, viscousForce: (int, int) -> Vec, k: int, n: int)
    requires ViscosityInputs(t, xs, ys, cx, cy, vx, vy) && t.ncells <= |haloCell| && 0 <= k < t.ncells
    requires forall nn :: 0 <= nn < t.Size(k) ==> !Compressing(t, xs, ys, cx, cy, vx, vy, k, nn)
    ensures ViscousTotal(t, haloCell, xs, ys, cx, cy, vx, vy, viscousForce, k + 1, n)
         == ViscousTotal(t, haloCell, xs, ys, cx, cy, vx, vy, viscousForce, k, n)
  {
    var f := EdgeForces(t, xs, ys, cx, cy, vx, vy, viscousForce, k);
    GatherZeroTail(Xs(f), RingNodes(t, k), 0, 0, |f|, n);
    GatherZeroTail(Xs(f), RightNodes(t, k), 0, 0, |f|, n);
    GatherZeroTail(Ys(f), RingNodes(t, k), 0, 0, |f|, n);
    GatherZeroTail(Ys(f), RightNodes(t, k), 0, 0, |f|, n);
  }
}
