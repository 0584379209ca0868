/** The ragged cell-to-node connectivity of the unstructured mesh
    (cells_to_nodes_off, cells_to_nodes), the constants the hydro step
    shares, and the node ring of one cell. */
module Topology {
  import opened Geometry

  /** Ratio of specific heats of the ideal gas (hale_interface.h:12). */
  const GAM: real := 1.4

  /** Node halo classifications. Their header is not part of this model;
      the model relies only on both being distinct and negative, so that they
      never collide with an index into the halo tables. */
  const IS_NOT_HALO: int := -1
  const IS_BOUNDARY: int := -2

  /** Sound speed of an ideal gas with specific internal energy e; the square
      root is the caller's sqrt. */
  function SoundSpeed(sqrt: real -> real, energy: real): real
  {
    sqrt(GAM * (GAM - 1.0) * energy)
  }

  /** Cell cc owns the flat slots offsets[cc] .. offsets[cc+1]-1 of nodes;
      nodes[k] is the global node at slot k, listed around the cell in
      order. */
  datatype Connectivity = Connectivity(ncells: int, nnodes: int, offsets: seq<int>, nodes: seq<int>)
  {
    predicate Valid()
    {
      && 0 <= ncells
      && 0 <= nnodes
      && |offsets| == ncells + 1
      && 0 <= offsets[0]
      && (forall c, d :: 0 <= c <= d <= ncells ==> offsets[c] <= offsets[d])
      && offsets[ncells] <= |nodes|
      && (forall k :: offsets[0] <= k < offsets[ncells] ==> 0 <= nodes[k] < nnodes)
    }

    /** First and one-past-last slot of all cells together. */
    function SlotBegin(): int
      requires Valid()
    {
      offsets[0]
    }

    function SlotEnd(): int
      requires Valid()
    {
      offsets[ncells]
    }

    /** Number of nodes around cell cc. */
    function Size(cc: int): nat
      requires Valid() && 0 <= cc < ncells
    {
      offsets[cc + 1] - offsets[cc]
    }
  }

  /** Positions of the nodes of cell cc, in the cell's ring order. */
  function Ring(t: Connectivity, xs: seq<real>, ys: seq<real>, cc: int): (ring: seq<Vec>)
    requires t.Valid() && 0 <= cc < t.ncells && t.nnodes <= |xs| && t.nnodes <= |ys|
    ensures |ring| == t.Size(cc)
  {
    seq(t.Size(cc), nn requires 0 <= nn < t.Size(cc) =>
      Vec(xs[t.nodes[t.offsets[cc] + nn]], ys[t.nodes[t.offsets[cc] + nn]]))
  }

  /** The global node indices of cell cc, in ring order. */
  function RingNodes(t: Connectivity, cc: int): (keys: seq<int>)
    requires t.Valid() && 0 <= cc < t.ncells
    ensures |keys| == t.Size(cc)
  {
    t.nodes[t.offsets[cc]..t.offsets[cc + 1]]
  }

  /** Every node of a cell is a node of the mesh. */
  lemma RingNodesInRange(t: Connectivity, cc: int)
    requires t.Valid() && 0 <= cc < t.ncells
    ensures forall i :: 0 <= i < t.Size(cc) ==> 0 <= RingNodes(t, cc)[i] < t.nnodes
  {
    forall i | 0 <= i < t.Size(cc)
      ensures 0 <= RingNodes(t, cc)[i] < t.nnodes
    {
      assert RingNodes(t, cc)[i] == t.nodes[t.offsets[cc] + i];
    }
  }
}
