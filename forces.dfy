/** The pressure forces (omp3/hale.c:131-161 and 361-391): every cell,
    halo cells included, pushes each of its nodes with its pressure times
    the node's area vector. The force of each (cell, node) slot is stored in
    the flat cell_force arrays and also added onto the node. */
module Forces {
  import opened Sums
  import opened Stencil
  import opened Geometry
  import opened Topology

  /** The mesh and the node positions fit together, and the pressure has an
      entry for every cell. */
  predicate ForceInputs(t: Connectivity, xs: seq<real>, ys: seq<real>, pressure: seq<real>)
  {
    t.Valid() && t.nnodes <= |xs| && t.nnodes <= |ys| && t.ncells <= |pressure|
  }

  /** The area vector through local node nn of cell cc, from its two
      neighbours in the ring. */
  function SlotAreaVector(t: Connectivity, xs: seq<real>, ys: seq<real>, cc: int, nn: int): Vec
    requires t.Valid() && t.nnodes <= |xs| && t.nnodes <= |ys| && 0 <= cc < t.ncells && 0 <= nn < t.Size(cc)
  {
    var ring := Ring(t, xs, ys, cc);
    AreaVector(ring[LeftOf(|ring|, nn)], ring[nn], ring[RightOf(|ring|, nn)])
  }

  /** The force of local node nn of cell cc: the cell's pressure times the
      node's area vector. */
  function SlotForce(t: Connectivity, xs: seq<real>, ys: seq<real>, pressure: seq<real>, cc: int, nn: int): Vec
    requires ForceInputs(t, xs, ys, pressure) && 0 <= cc < t.ncells && 0 <= nn < t.Size(cc)
  {
    Scale(pressure[cc], SlotAreaVector(t, xs, ys, cc, nn))
  }

  /** cfx and cfy hold the slot forces of cells 0 .. k-1, each at its flat
      slot. */
  predicate ForcesStored(t: Connectivity, xs: seq<real>, ys: seq<real>, pressure: seq<real>,
                         cfx: seq<real>, cfy: seq<real>, k: int)
    requires ForceInputs(t, xs, ys, pressure) && 0 <= k <= t.ncells
  {
    && t.offsets[k] <= |cfx| && t.offsets[k] <= |cfy|
    && forall c, nn {:trigger SlotForce(t, xs, ys, pressure, c, nn)} :: 0 <= c < k && 0 <= nn < t.Size(c) ==>
         cfx[t.offsets[c] + nn] == SlotForce(t, xs, ys, pressure, c, nn).x
         && cfy[t.offsets[c] + nn] == SlotForce(t, xs, ys, pressure, c, nn).y
  }

  /** The area vector the loop computes from the explicit three-node stencil
      (omp3/hale.c:138-154). */
  method StencilAreaVector(t: Connectivity, xs: seq<real>, ys: seq<real>, cc: int, nn: int) returns (s: Vec)
    requires t.Valid() && t.nnodes <= |xs| && t.nnodes <= |ys| && 0 <= cc < t.ncells && 0 <= nn < t.Size(cc)
    ensures s == SlotAreaVector(t, xs, ys, cc, nn)
  {
    var nodesOff := t.offsets[cc];
    var nnodesAroundCell := t.offsets[cc + 1] - nodesOff;
    var nodeCIndex := t.nodes[nodesOff + nn];
    var nodeLIndex := if nn == 0 then t.nodes[nodesOff + nnodesAroundCell - 1] else t.nodes[nodesOff + nn - 1];
    var nodeRIndex := if nn == nnodesAroundCell - 1 then t.nodes[nodesOff] else t.nodes[nodesOff + nn + 1];
    s := AreaVector(Vec(xs[nodeLIndex], ys[nodeLIndex]), Vec(xs[nodeCIndex], ys[nodeCIndex]),
                    Vec(xs[nodeRIndex], ys[nodeRIndex]));
  }

  /** The slots of one cell (omp3/hale.c:133-160): each slot's force goes to
      cell_force and is added onto the slot's node. */
  method PressureForceCell(t: Connectivity, xs: seq<real>, ys: seq<real>, pressure: seq<real>, cc: int,
                           cellForceX: array<real>, cellForceY: array<real>,
                           nodeForceX: array<real>, nodeForceY: array<real>,
                           ghost fx0: seq<real>, ghost fy0: seq<real>)
    requires ForceInputs(t, xs, ys, pressure) && 0 <= cc < t.ncells
    requires cellForceX != cellForceY && nodeForceX != nodeForceY
    requires cellForceX != nodeForceX && cellForceX != nodeForceY && cellForceY != nodeForceX && cellForceY != nodeForceY
    requires t.SlotEnd() <= cellForceX.Length && t.SlotEnd() <= cellForceY.Length
    requires t.nnodes <= nodeForceX.Length && t.nnodes <= nodeForceY.Length
    requires Scattered(nodeForceX[..], fx0, cellForceX[..], t.nodes, t.SlotBegin(), t.offsets[cc])
    requires Scattered(nodeForceY[..], fy0, cellForceY[..], t.nodes, t.SlotBegin(), t.offsets[cc])
    modifies cellForceX, cellForceY, nodeForceX, nodeForceY
    ensures Scattered(nodeForceX[..], fx0, cellForceX[..], t.nodes, t.SlotBegin(), t.offsets[cc + 1])
    ensures Scattered(nodeForceY[..], fy0, cellForceY[..], t.nodes, t.SlotBegin(), t.offsets[cc + 1])
    ensures forall nn :: 0 <= nn < t.Size(cc) ==>
              cellForceX[t.offsets[cc] + nn] == SlotForce(t, xs, ys, pressure, cc, nn).x
              && cellForceY[t.offsets[cc] + nn] == SlotForce(t, xs, ys, pressure, cc, nn).y
    ensures forall j :: 0 <= j < cellForceX.Length && !(t.offsets[cc] <= j < t.offsets[cc + 1]) ==> cellForceX[j] == old(cellForceX[j])
    ensures forall j :: 0 <= j < cellForceY.Length && !(t.offsets[cc] <= j < t.offsets[cc + 1]) ==> cellForceY[j] == old(cellForceY[j])
  {
    var nodesOff := t.offsets[cc];
    var nnodesAroundCell := t.offsets[cc + 1] - nodesOff;
    for nn := 0 to nnodesAroundCell
      invariant Scattered(nodeForceX[..], fx0, cellForceX[..], t.nodes, t.SlotBegin(), nodesOff + nn)
      invariant Scattered(nodeForceY[..], fy0, cellForceY[..], t.nodes, t.SlotBegin(), nodesOff + nn)
      invariant forall i :: 0 <= i < nn ==>
                  cellForceX[nodesOff + i] == SlotForce(t, xs, ys, pressure, cc, i).x
                  && cellForceY[nodesOff + i] == SlotForce(t, xs, ys, pressure, cc, i).y
      invariant forall j :: 0 <= j < cellForceX.Length && !(nodesOff <= j < nodesOff + nn) ==> cellForceX[j] == old(cellForceX[j])
      invariant forall j :: 0 <= j < cellForceY.Length && !(nodesOff <= j < nodesOff + nn) ==> cellForceY[j] == old(cellForceY[j])
    {
      var nodeCIndex := t.nodes[nodesOff + nn];
      var s := StencilAreaVector(t, xs, ys, cc, nn);
      var force := Scale(pressure[cc], s);
      StoreAndScatter(nodeForceX, cellForceX, nodeCIndex, nodesOff + nn, force.x, fx0, t.nodes, t.SlotBegin());
      StoreAndScatter(nodeForceY, cellForceY, nodeCIndex, nodesOff + nn, force.y, fy0, t.nodes, t.SlotBegin());
    }
  }

  /** The pair of statements `node_force[node] += f; cell_force[k] = f` for
      slot k, keeping the scatter invariant over the stored forces. */
  method StoreAndScatter(nodeForce: array<real>, cellForce: array<real>, node: int, k: int, f: real,
                         ghost base: seq<real>, ghost keys: seq<int>, ghost lo: int)
    requires nodeForce != cellForce
    requires 0 <= lo <= k < cellForce.Length && k < |keys| && keys[k] == node && 0 <= node < nodeForce.Length
    requires Scattered(nodeForce[..], base, cellForce[..], keys, lo, k)
    modifies nodeForce, cellForce
    ensures Scattered(nodeForce[..], base, cellForce[..], keys, lo, k + 1)
    ensures cellForce[..] == old(cellForce[..])[k := f]
  {
    ghost var before, w := nodeForce[..], cellForce[..];
    nodeForce[node] := nodeForce[node] + f;
    cellForce[k] := f;
    forall n | 0 <= n < nodeForce.Length
      ensures Gather(cellForce[..], keys, lo, k, n) == Gather(w, keys, lo, k, n)
    {
      GatherFrame(cellForce[..], w, keys, lo, k, n);
    }
    ScatterStep(cellForce[..], keys, lo, k, base, before, nodeForce[..]);
  }

  /** The pressure-force pass over all cells (omp3/hale.c:131-161 and
      361-391): every slot's force is stored in cell_force, and each node's
      force grows by the sum of the stored forces of the slots naming it.
      Slots outside the mesh are not written. */
  method PressureForces(t: Connectivity, xs: seq<real>, ys: seq<real>, pressure: seq<real>,
                        cellForceX: array<real>, cellForceY: array<real>,
                        nodeForceX: array<real>, nodeForceY: array<real>)
    requires ForceInputs(t, xs, ys, pressure)
    requires cellForceX != cellForceY && nodeForceX != nodeForceY
    requires cellForceX != nodeForceX && cellForceX != nodeForceY && cellForceY != nodeForceX && cellForceY != nodeForceY
    requires t.SlotEnd() <= cellForceX.Length && t.SlotEnd() <= cellForceY.Length
    requires t.nnodes <= nodeForceX.Length && t.nnodes <= nodeForceY.Length
    modifies cellForceX, cellForceY, nodeForceX, nodeForceY
    ensures ForcesStored(t, xs, ys, pressure, cellForceX[..], cellForceY[..], t.ncells)
    ensures forall j :: 0 <= j < cellForceX.Length && !(t.SlotBegin() <= j < t.SlotEnd()) ==> cellForceX[j] == old(cellForceX[j])
    ensures forall j :: 0 <= j < cellForceY.Length && !(t.SlotBegin() <= j < t.SlotEnd()) ==> cellForceY[j] == old(cellForceY[j])
    ensures Scattered(nodeForceX[..], old(nodeForceX[..]), cellForceX[..], t.nodes, t.SlotBegin(), t.SlotEnd())
    ensures Scattered(nodeForceY[..], old(nodeForceY[..]), cellForceY[..], t.nodes, t.SlotBegin(), t.SlotEnd())
  {
    ghost var fx0, fy0 := nodeForceX[..], nodeForceY[..];
    for cc := 0 to t.ncells
      invariant Scattered(nodeForceX[..], fx0, cellForceX[..], t.nodes, t.SlotBegin(), t.offsets[cc])
      invariant Scattered(nodeForceY[..], fy0, cellForceY[..], t.nodes, t.SlotBegin(), t.offsets[cc])
      invariant ForcesStored(t, xs, ys, pressure, cellForceX[..], cellForceY[..], cc)
      invariant forall j :: 0 <= j < cellForceX.Length && !(t.SlotBegin() <= j < t.offsets[cc]) ==> cellForceX[j] == old(cellForceX[j])
      invariant forall j :: 0 <= j < cellForceY.Length && !(t.SlotBegin() <= j < t.offsets[cc]) ==> cellForceY[j] == old(cellForceY[j])
    {
      PressureForceCell(t, xs, ys, pressure, cc, cellForceX, cellForceY, nodeForceX, nodeForceY, fx0, fy0);
    }
  }

  /** The stored forces of one cell's slots are its pressure times its area
      vectors. */
  lemma CellSlotForces(t: Connectivity, xs: seq<real>, ys: seq<real>, pressure: seq<real>,
                       cfx: seq<real>, cfy: seq<real>, c: int)
    requires ForceInputs(t, xs, ys, pressure) && 0 <= c < t.ncells
    requires ForcesStored(t, xs, ys, pressure, cfx, cfy, c + 1)
    ensures cfx[t.offsets[c]..t.offsets[c + 1]] == Scaled(pressure[c], AreaVectorsX(Ring(t, xs, ys, c)))
    ensures cfy[t.offsets[c]..t.offsets[c + 1]] == Scaled(pressure[c], AreaVectorsY(Ring(t, xs, ys, c)))
  {
    var lo, hi := t.offsets[c], t.offsets[c + 1];
    var ring := Ring(t, xs, ys, c);
    forall i | 0 <= i < t.Size(c)
      ensures cfx[lo..hi][i] == Scaled(pressure[c], AreaVectorsX(ring))[i]
      ensures cfy[lo..hi][i] == Scaled(pressure[c], AreaVectorsY(ring))[i]
    {
      assert cfx[lo..hi][i] == SlotForce(t, xs, ys, pressure, c, i).x;
      assert cfy[lo..hi][i] == SlotForce(t, xs, ys, pressure, c, i).y;
    }
  }

  /** The stored forces of the slots of cells 0 .. k-1 add up to zero: the
      area vectors of each closed cell cancel. */
  lemma {:induction false} StoredForcesBalance(t: Connectivity, xs: seq<real>, ys: seq<real>, pressure: seq<real>,
                                               cfx: seq<real>, cfy: seq<real>, k: int)
    requires ForceInputs(t, xs, ys, pressure) && 0 <= k <= t.ncells
    requires ForcesStored(t, xs, ys, pressure, cfx, cfy, k)
    ensures Sum(cfx[t.SlotBegin()..t.offsets[k]]) == 0.0
    ensures Sum(cfy[t.SlotBegin()..t.offsets[k]]) == 0.0
    decreases k
  {
    var lo := t.SlotBegin();
    if k == 0 {
      assert cfx[lo..t.offsets[0]] == [] && cfy[lo..t.offsets[0]] == [];
    } else {
      var mid, hi := t.offsets[k - 1], t.offsets[k];
      assert ForcesStored(t, xs, ys, pressure, cfx, cfy, k - 1);
      StoredForcesBalance(t, xs, ys, pressure, cfx, cfy, k - 1);
      CellForcesBalance(t, xs, ys, pressure, cfx, cfy, k - 1);
      SlicesAppend(cfx, lo, mid, hi);
      SlicesAppend(cfy, lo, mid, hi);
    }
  }

  /** The stored forces of one cell add up to zero. */
  lemma CellForcesBalance(t: Connectivity, xs: seq<real>, ys: seq<real>, pressure: seq<real>,
                          cfx: seq<real>, cfy: seq<real>, c: int)
    requires ForceInputs(t, xs, ys, pressure) && 0 <= c < t.ncells
    requires ForcesStored(t, xs, ys, pressure, cfx, cfy, c + 1)
    ensures Sum(cfx[t.offsets[c]..t.offsets[c + 1]]) == 0.0
    ensures Sum(cfy[t.offsets[c]..t.offsets[c + 1]]) == 0.0
  {
    CellSlotForces(t, xs, ys, pressure, cfx, cfy, c);
    var ring := Ring(t, xs, ys, c);
    AreaVectorsBalance(ring);
    SumScaled(pressure[c], AreaVectorsX(ring));
    SumScaled(pressure[c], AreaVectorsY(ring));
  }

  /** Pressure forces are internal: after the pass the node forces add up to
      what they added up to before, because the area vectors of every closed
      cell cancel. */
  lemma NetPressureForceZero(t: Connectivity, xs: seq<real>, ys: seq<real>, pressure: seq<real>,
                             cfx: seq<real>, cfy: seq<real>,
                             fx0: seq<real>, fy0: seq<real>, fx1: seq<real>, fy1: seq<real>)
    requires ForceInputs(t, xs, ys, pressure)
    requires ForcesStored(t, xs, ys, pressure, cfx, cfy, t.ncells)
    requires t.nnodes <= |fx1| && t.nnodes <= |fy1|
    requires Scattered(fx1, fx0, cfx, t.nodes, t.SlotBegin(), t.SlotEnd())
    requires Scattered(fy1, fy0, cfy, t.nodes, t.SlotBegin(), t.SlotEnd())
    ensures Sum(fx1) == Sum(fx0) && Sum(fy1) == Sum(fy0)
  {
    StoredForcesBalance(t, xs, ys, pressure, cfx, cfy, t.ncells);
    BalancedScatter(t, cfx, fx0, fx1);
    BalancedScatter(t, cfy, fy0, fy1);
  }

  /** Scattering slot values that add up to zero leaves the nodes' total
      unchanged. */
  lemma BalancedScatter(t: Connectivity, cf: seq<real>, f0: seq<real>, f1: seq<real>)
    requires t.Valid() && t.SlotEnd() <= |cf| && t.nnodes <= |f1|
    requires Sum(cf[t.SlotBegin()..t.SlotEnd()]) == 0.0
    requires Scattered(f1, f0, cf, t.nodes, t.SlotBegin(), t.SlotEnd())
    ensures Sum(f1) == Sum(f0)
  {
    ScatteredSum(f1, f0, cf, t.nodes, t.SlotBegin(), t.SlotEnd());
  }
}
