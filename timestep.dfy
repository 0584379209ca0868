/** The CFL timestep (omp3/hale.c:212-240 and 420-448): the smallest, over
    the interior cells, of CFL times the cell's shortest edge over its sound
    speed, starting from 1e10, stored in the mesh. */
module Timestep {
  import opened Stencil
  import opened Geometry
  import opened Topology

  /** The only state of the step outside the arrays: the timestep. */
  class Mesh {
    var dt: real

    constructor(dt: real)
      ensures this.dt == dt
    {
      this.dt := dt;
    }
  }

  /** The value both minimum reductions start from. */
  const DT_SEED: real := 1.0e10

  /** The minimum of two values; the second when they are equal. */
  function Min(a: real, b: real): (m: real)
    ensures m <= a && m <= b
    ensures m == a || m == b
  {
    if a < b then a else b
  }

  /** The length of edge nn of cell cc, from its node to the right
      neighbour; the square root is the caller's. */
  function EdgeLength(sqrt: real -> real, t: Connectivity, xs: seq<real>, ys: seq<real>, cc: int, nn: int): real
    requires t.Valid() && t.nnodes <= |xs| && t.nnodes <= |ys| && 0 <= cc < t.ncells && 0 <= nn < t.Size(cc)
  {
    var c, r := t.nodes[t.offsets[cc] + nn], t.nodes[t.offsets[cc] + RightOf(t.Size(cc), nn)];
    var d := Vec(xs[c] - xs[r], ys[c] - ys[r]);
    sqrt(Dot(d, d))
  }

  /** The running minimum over the first k edges of cell cc. */
  function ShortestEdge(sqrt: real -> real, t: Connectivity, xs: seq<real>, ys: seq<real>, cc: int, k: int): real
    requires t.Valid() && t.nnodes <= |xs| && t.nnodes <= |ys| && 0 <= cc < t.ncells && 0 <= k <= t.Size(cc)
  {
    if k == 0 then DT_SEED else Min(ShortestEdge(sqrt, t, xs, ys, cc, k - 1), EdgeLength(sqrt, t, xs, ys, cc, k - 1))
  }

  /** The inputs of the reduction fit together, and no interior cell has a
      zero sound speed (the candidate divides by it). */
  predicate TimestepInputs(sqrt: real -> real, t: Connectivity, haloCell: seq<int>, xs: seq<real>, ys: seq<real>,
                           energy: seq<real>)
  {
    && t.Valid() && t.nnodes <= |xs| && t.nnodes <= |ys| && t.ncells <= |haloCell| && t.ncells <= |energy|
    && forall cc :: 0 <= cc < t.ncells && haloCell[cc] == 0 ==> SoundSpeed(sqrt, energy[cc]) != 0.0
  }

  /** The timestep cell cc allows: CFL times its shortest edge over its sound
      speed. */
  function Candidate(sqrt: real -> real, cfl: real, t: Connectivity, haloCell: seq<int>, xs: seq<real>, ys: seq<real>,
                     energy: seq<real>, cc: int): real
    requires TimestepInputs(sqrt, t, haloCell, xs, ys, energy) && 0 <= cc < t.ncells && haloCell[cc] == 0
  {
    cfl * ShortestEdge(sqrt, t, xs, ys, cc, t.Size(cc)) / SoundSpeed(sqrt, energy[cc])
  }

  /** The running minimum over the interior cells among the first k. */
  function Timestep(sqrt: real -> real, cfl: real, t: Connectivity, haloCell: seq<int>, xs: seq<real>, ys: seq<real>,
                    energy: seq<real>, k: int): real
    requires TimestepInputs(sqrt, t, haloCell, xs, ys, energy) && 0 <= k <= t.ncells
  {
    if k == 0 then DT_SEED
    else if haloCell[k - 1] != 0 then Timestep(sqrt, cfl, t, haloCell, xs, ys, energy, k - 1)
    else Min(Timestep(sqrt, cfl, t, haloCell, xs, ys, energy, k - 1), Candidate(sqrt, cfl, t, haloCell, xs, ys, energy, k - 1))
  }

  /** The shortest edge of one cell (omp3/hale.c:222-233). */
  method CellShortestEdge(sqrt: real -> real, t: Connectivity, xs: seq<real>, ys: seq<real>, cc: int)
    returns (shortestEdge: real)
    requires t.Valid() && t.nnodes <= |xs| && t.nnodes <= |ys| && 0 <= cc < t.ncells
    ensures shortestEdge == ShortestEdge(sqrt, t, xs, ys, cc, t.Size(cc))
  {
    var nodesOff := t.offsets[cc];
    var nnodesAroundCell := t.offsets[cc + 1] - nodesOff;
    shortestEdge := 1.0e10;
    for nn := 0 to nnodesAroundCell
      invariant shortestEdge == ShortestEdge(sqrt, t, xs, ys, cc, nn)
    {
      var nodeCIndex := t.nodes[nodesOff + nn];
      var nodeRIndex := if nn == nnodesAroundCell - 1 then t.nodes[nodesOff] else t.nodes[nodesOff + nn + 1];
      var component := Vec(xs[nodeCIndex] - xs[nodeRIndex], ys[nodeCIndex] - ys[nodeRIndex]);
      shortestEdge := Min(shortestEdge, sqrt(Dot(component, component)));
    }
  }

  /** The CFL reduction over the interior cells, stored as the mesh's
      timestep (omp3/hale.c:212-240 and 420-448). */
  method CflTimestep(mesh: Mesh, sqrt: real -> real, cfl: real, t: Connectivity, haloCell: seq<int>,
                     xs: seq<real>, ys: seq<real>, energy: seq<real>)
    requires TimestepInputs(sqrt, t, haloCell, xs, ys, energy)
    modifies mesh
    ensures mesh.dt == Timestep(sqrt, cfl, t, haloCell, xs, ys, energy, t.ncells)
  {
    var dt := 1.0e10;
    for cc := 0 to t.ncells
      invariant dt == Timestep(sqrt, cfl, t, haloCell, xs, ys, energy, cc)
    {
      if haloCell[cc] != 0 {
        continue;
      }
      var shortestEdge := CellShortestEdge(sqrt, t, xs, ys, cc);
      var soundspeed := sqrt(GAM * (GAM - 1.0) * energy[cc]);
      dt := Min(dt, cfl * shortestEdge / soundspeed);
    }
    mesh.dt := dt;
  }

  /** The shortest edge is at most the seed and at most every edge, and it
      is the seed or one of the edges. */
  lemma {:induction false} ShortestEdgeIsMinimum(sqrt: real -> real, t: Connectivity, xs: seq<real>, ys: seq<real>,
                                                 cc: int, k: int)
    requires t.Valid() && t.nnodes <= |xs| && t.nnodes <= |ys| && 0 <= cc < t.ncells && 0 <= k <= t.Size(cc)
    ensures ShortestEdge(sqrt, t, xs, ys, cc, k) <= DT_SEED
    ensures forall nn :: 0 <= nn < k ==> ShortestEdge(sqrt, t, xs, ys, cc, k) <= EdgeLength(sqrt, t, xs, ys, cc, nn)
    ensures ShortestEdge(sqrt, t, xs, ys, cc, k) == DT_SEED
         || exists nn :: 0 <= nn < k && ShortestEdge(sqrt, t, xs, ys, cc, k) == EdgeLength(sqrt, t, xs, ys, cc, nn)
  {
    if k > 0 {
      ShortestEdgeIsMinimum(sqrt, t, xs, ys, cc, k - 1);
    }
  }

  /** The timestep is at most the seed and at most the candidate of every
      interior cell, and it is the seed or the candidate of one of them. */
  lemma {:induction false} TimestepIsMinimum(sqrt: real -> real, cfl: real, t: Connectivity, haloCell: seq<int>,
                                             xs: seq<real>, ys: seq<real>, energy: seq<real>, k: int)
    requires TimestepInputs(sqrt, t, haloCell, xs, ys, energy) && 0 <= k <= t.ncells
    ensures Timestep(sqrt, cfl, t, haloCell, xs, ys, energy, k) <= DT_SEED
    ensures forall cc :: 0 <= cc < k && haloCell[cc] == 0 ==>
      Timestep(sqrt, cfl, t, haloCell, xs, ys, energy, k) <= Candidate(sqrt, cfl, t, haloCell, xs, ys, energy, cc)
    ensures Timestep(sqrt, cfl, t, haloCell, xs, ys, energy, k) == DT_SEED
         || exists cc :: 0 <= cc < k && haloCell[cc] == 0
              && Timestep(sqrt, cfl, t, haloCell, xs, ys, energy, k) == Candidate(sqrt, cfl, t, haloCell, xs, ys, energy, cc)
  {
    if k > 0 {
      TimestepIsMinimum(sqrt, cfl, t, haloCell, xs, ys, energy, k - 1);
    }
  }
}
