/** Nodal mass, volume and sound speed: every interior cell hands each of
    its nodes the sub-cell around that node (omp3/hale.c:59-129 and
    311-359). A node's value is the gather, over all slots naming it, of a
    per-slot weight. */
module NodalFields {
  import opened Sums
  import opened Stencil
  import opened Geometry
  import opened Topology

  /** The mesh, the node positions and the stored centroids fit together. */
  predicate MeshFits(t: Connectivity, xs: seq<real>, ys: seq<real>, cx: seq<real>, cy: seq<real>)
  {
    t.Valid() && t.nnodes <= |xs| && t.nnodes <= |ys| && t.ncells <= |cx| && t.ncells <= |cy|
  }

  /** Sub-cell volumes of cell c about its stored centroid, in ring order. */
  function CellSubVolumes(t: Connectivity, xs: seq<real>, ys: seq<real>, cx: seq<real>, cy: seq<real>,
                          c: int): (v: seq<real>)
    requires MeshFits(t, xs, ys, cx, cy) && 0 <= c < t.ncells
    ensures |v| == t.Size(c)
  {
    SubCellVolumes(Ring(t, xs, ys, c), Vec(cx[c], cy[c]))
  }

  /** What the interior cells among the first k hand node n: for every
      slot of such a cell c that names n, coeff[c] times the sub-cell
      volume. */
  function SubCellTotal(t: Connectivity, haloCell: seq<int>, xs: seq<real>, ys: seq<real>,
                        cx: seq<real>, cy: seq<real>, coeff: seq<real>, k: int, n: int): real
    requires MeshFits(t, xs, ys, cx, cy) && t.ncells <= |haloCell| && t.ncells <= |coeff|
    requires 0 <= k <= t.ncells
  {
    if k == 0 then 0.0
    else
      SubCellTotal(t, haloCell, xs, ys, cx, cy, coeff, k - 1, n) +
      (if haloCell[k - 1] != 0 then 0.0
       else Gather(Scaled(coeff[k - 1], CellSubVolumes(t, xs, ys, cx, cy, k - 1)), RingNodes(t, k - 1), 0, t.Size(k - 1), n))
  }

  /** Coefficient of the nodal volume: each sub-cell counts once. */
  function Ones(n: nat): (s: seq<real>)
    ensures |s| == n
  {
    seq(n, _ => 1.0)
  }

  /** Coefficient of the nodal sound speed: the sound speed of the owning
      cell. */
  function SoundSpeeds(sqrt: real -> real, energy: seq<real>, n: nat): (s: seq<real>)
    requires n <= |energy|
    ensures |s| == n
  {
    seq(n, c requires 0 <= c < n => SoundSpeed(sqrt, energy[c]))
  }

  /** What the cell-centred field coeff amounts to over the whole of cell c:
      coeff times the polygon volume (with coeff the density, the cell mass). */
  function CellAmount(t: Connectivity, xs: seq<real>, ys: seq<real>, coeff: seq<real>, c: int): real
    requires t.Valid() && t.nnodes <= |xs| && t.nnodes <= |ys| && t.ncells <= |coeff| && 0 <= c < t.ncells
  {
    coeff[c] * PolygonVolume(Ring(t, xs, ys, c))
  }

  /** The amount held by the interior cells among the first k. */
  function InteriorAmount(t: Connectivity, haloCell: seq<int>, xs: seq<real>, ys: seq<real>, coeff: seq<real>,
                          k: int): real
    requires t.Valid() && t.nnodes <= |xs| && t.nnodes <= |ys| && t.ncells <= |coeff| && t.ncells <= |haloCell|
    requires 0 <= k <= t.ncells
  {
    if k == 0 then 0.0
    else InteriorAmount(t, haloCell, xs, ys, coeff, k - 1)
         + (if haloCell[k - 1] == 0 then CellAmount(t, xs, ys, coeff, k - 1) else 0.0)
  }

  /** The sub-cell volume the loops compute from the explicit three-node
      stencil is the ring's sub-cell volume. */
  lemma SubVolumeAt(t: Connectivity, xs: seq<real>, ys: seq<real>, cx: seq<real>, cy: seq<real>,
                    cc: int, nn: int)
    requires MeshFits(t, xs, ys, cx, cy) && 0 <= cc < t.ncells && 0 <= nn < t.Size(cc)
    ensures t.SlotBegin() <= t.offsets[cc] + LeftOf(t.Size(cc), nn) < t.SlotEnd()
    ensures t.SlotBegin() <= t.offsets[cc] + RightOf(t.Size(cc), nn) < t.SlotEnd()
    ensures
      var off, n := t.offsets[cc], t.Size(cc);
      var l, c, r := t.nodes[off + LeftOf(n, nn)], t.nodes[off + nn], t.nodes[off + RightOf(n, nn)];
      CellSubVolumes(t, xs, ys, cx, cy, cc)[nn]
        == SubCellVolume(Vec(xs[l], ys[l]), Vec(xs[c], ys[c]), Vec(xs[r], ys[r]), Vec(cx[cc], cy[cc]))
  {
  }

  /** The sub-cell volume around local node nn of cell cc, from the
      three-node stencil of node positions and the stored centroid
      (omp3/hale.c:80-102 and 323-346). */
  method StencilSubCellVolume(t: Connectivity, xs: seq<real>, ys: seq<real>, cx: seq<real>, cy: seq<real>,
                              cc: int, nn: int) returns (subCellVolume: real)
    requires MeshFits(t, xs, ys, cx, cy) && 0 <= cc < t.ncells && 0 <= nn < t.Size(cc)
    ensures subCellVolume == CellSubVolumes(t, xs, ys, cx, cy, cc)[nn]
  {
    SubVolumeAt(t, xs, ys, cx, cy, cc, nn);
    var nodesOff := t.offsets[cc];
    var nnodesAroundCell := t.offsets[cc + 1] - nodesOff;
    var nodeLIndex := if nn == 0 then t.nodes[nodesOff + nnodesAroundCell - 1] else t.nodes[nodesOff + nn - 1];
    var nodeCIndex := t.nodes[nodesOff + nn];
    var nodeRIndex := if nn == nnodesAroundCell - 1 then t.nodes[nodesOff] else t.nodes[nodesOff + nn + 1];
    subCellVolume := SubCellVolume(Vec(xs[nodeLIndex], ys[nodeLIndex]), Vec(xs[nodeCIndex], ys[nodeCIndex]),
                                   Vec(xs[nodeRIndex], ys[nodeRIndex]), Vec(cx[cc], cy[cc]));
  }

  /** The three scatter-adds of one sub-cell onto its node (omp3/hale.c:107-112
      and 349-353): mass and sound speed are the sub-cell volume weighted by
      the cell's density and sound speed. */
  method AddSubCell(nodalMass: array<real>, nodalVolumes: array<real>, nodalSoundspeed: array<real>,
                    node: int, density: real, soundspeed: real, subCellVolume: real,
                    ghost mass0: seq<real>, ghost volumes0: seq<real>, ghost soundspeed0: seq<real>,
                    ghost sv: seq<real>, ghost keys: seq<int>, ghost k: int)
    requires nodalMass != nodalVolumes && nodalMass != nodalSoundspeed && nodalVolumes != nodalSoundspeed
    requires 0 <= k < |keys| && k < |sv| && keys[k] == node && sv[k] == subCellVolume
    requires 0 <= node < nodalMass.Length && node < nodalVolumes.Length && node < nodalSoundspeed.Length
    requires Scattered(nodalMass[..], mass0, Scaled(density, sv), keys, 0, k)
    requires Scattered(nodalVolumes[..], volumes0, sv, keys, 0, k)
    requires Scattered(nodalSoundspeed[..], soundspeed0, Scaled(soundspeed, sv), keys, 0, k)
    modifies nodalMass, nodalVolumes, nodalSoundspeed
    ensures Scattered(nodalMass[..], mass0, Scaled(density, sv), keys, 0, k + 1)
    ensures Scattered(nodalVolumes[..], volumes0, sv, keys, 0, k + 1)
    ensures Scattered(nodalSoundspeed[..], soundspeed0, Scaled(soundspeed, sv), keys, 0, k + 1)
  {
    ghost var m, v, s := nodalMass[..], nodalVolumes[..], nodalSoundspeed[..];
    nodalMass[node] := nodalMass[node] + density * subCellVolume;
    nodalSoundspeed[node] := nodalSoundspeed[node] + soundspeed * subCellVolume;
    nodalVolumes[node] := nodalVolumes[node] + subCellVolume;
    ScatterStep(Scaled(density, sv), keys, 0, k, mass0, m, nodalMass[..]);
    ScatterStep(sv, keys, 0, k, volumes0, v, nodalVolumes[..]);
    ScatterStep(Scaled(soundspeed, sv), keys, 0, k, soundspeed0, s, nodalSoundspeed[..]);
  }

  /** The sub-cells of one interior cell, scattered onto its nodes: mass,
      sound speed times volume, and volume (omp3/hale.c:72-113). Returns the
      cell volume. */
  method ScatterPredictorCell(t: Connectivity, xs: seq<real>, ys: seq<real>, cx: seq<real>, cy: seq<real>,
                              density: real, soundspeed: real, cc: int,
                              nodalMass: array<real>, nodalVolumes: array<real>, nodalSoundspeed: array<real>)
    returns (cellVolume: real)
    requires MeshFits(t, xs, ys, cx, cy) && 0 <= cc < t.ncells
    requires nodalMass.Length == t.nnodes && nodalVolumes.Length == t.nnodes && nodalSoundspeed.Length == t.nnodes
    requires nodalMass != nodalVolumes && nodalMass != nodalSoundspeed && nodalVolumes != nodalSoundspeed
    modifies nodalMass, nodalVolumes, nodalSoundspeed
    ensures cellVolume == Sum(CellSubVolumes(t, xs, ys, cx, cy, cc))
    ensures Scattered(nodalMass[..], old(nodalMass[..]),
                      Scaled(density, CellSubVolumes(t, xs, ys, cx, cy, cc)), RingNodes(t, cc), 0, t.Size(cc))
    ensures Scattered(nodalVolumes[..], old(nodalVolumes[..]),
                      CellSubVolumes(t, xs, ys, cx, cy, cc), RingNodes(t, cc), 0, t.Size(cc))
    ensures Scattered(nodalSoundspeed[..], old(nodalSoundspeed[..]),
                      Scaled(soundspeed, CellSubVolumes(t, xs, ys, cx, cy, cc)), RingNodes(t, cc), 0, t.Size(cc))
  {
    var nodesOff := t.offsets[cc];
    var nnodesAroundCell := t.offsets[cc + 1] - nodesOff;
    ghost var sv := CellSubVolumes(t, xs, ys, cx, cy, cc);
    ghost var keys := RingNodes(t, cc);
    ghost var mw, sw := Scaled(density, sv), Scaled(soundspeed, sv);
    ghost var mass0, volumes0, soundspeed0 := nodalMass[..], nodalVolumes[..], nodalSoundspeed[..];
    cellVolume := 0.0;
    for nn := 0 to nnodesAroundCell
      invariant cellVolume == Sum(sv[..nn])
      invariant Scattered(nodalMass[..], mass0, mw, keys, 0, nn)
      invariant Scattered(nodalVolumes[..], volumes0, sv, keys, 0, nn)
      invariant Scattered(nodalSoundspeed[..], soundspeed0, sw, keys, 0, nn)
    {
      var nodeCIndex := t.nodes[nodesOff + nn];
      var subCellVolume := StencilSubCellVolume(t, xs, ys, cx, cy, cc, nn);
      assert keys[nn] == nodeCIndex;
      SumPrefixStep(sv, nn);
      cellVolume := cellVolume + subCellVolume;

      AddSubCell(nodalMass, nodalVolumes, nodalSoundspeed, nodeCIndex, density, soundspeed, subCellVolume,
                 mass0, volumes0, soundspeed0, sv, keys, nn);
    }
    assert sv[..nnodesAroundCell] == sv;
  }

  /** Every node's SubCellTotal, one entry per node. */
  function NodalTotals(t: Connectivity, haloCell: seq<int>, xs: seq<real>, ys: seq<real>,
                       cx: seq<real>, cy: seq<real>, coeff: seq<real>, k: int): (r: seq<real>)
    requires MeshFits(t, xs, ys, cx, cy) && t.ncells <= |haloCell| && t.ncells <= |coeff|
    requires 0 <= k <= t.ncells
    ensures |r| == t.nnodes
  {
    seq(t.nnodes, n => SubCellTotal(t, haloCell, xs, ys, cx, cy, coeff, k, n))
  }

  lemma ScaledOne(s: seq<real>)
    ensures Scaled(1.0, s) == s
  {
  }

  /** Scattering interior cell k onto nodes that hold base plus the totals of
      cells 0..k-1 leaves them holding base plus the totals of cells 0..k. */
  lemma SubCellTotalStep(t: Connectivity, haloCell: seq<int>, xs: seq<real>, ys: seq<real>,
                         cx: seq<real>, cy: seq<real>, coeff: seq<real>, k: int,
                         base: seq<real>, before: seq<real>, after: seq<real>)
    requires MeshFits(t, xs, ys, cx, cy) && t.ncells <= |haloCell| && t.ncells <= |coeff|
    requires 0 <= k < t.ncells && haloCell[k] == 0 && |before| == t.nnodes && |base| == t.nnodes
    requires forall n :: 0 <= n < t.nnodes ==>
      before[n] == base[n] + SubCellTotal(t, haloCell, xs, ys, cx, cy, coeff, k, n)
    requires Scattered(after, before, Scaled(coeff[k], CellSubVolumes(t, xs, ys, cx, cy, k)), RingNodes(t, k), 0, t.Size(k))
    ensures forall n :: 0 <= n < t.nnodes ==>
      after[n] == base[n] + SubCellTotal(t, haloCell, xs, ys, cx, cy, coeff, k + 1, n)
  {
    forall n | 0 <= n < t.nnodes
      ensures after[n] == base[n] + SubCellTotal(t, haloCell, xs, ys, cx, cy, coeff, k + 1, n)
    {
      assert after[n] == before[n] + Gather(Scaled(coeff[k], CellSubVolumes(t, xs, ys, cx, cy, k)), RingNodes(t, k), 0, t.Size(k), n);
    }
  }

  /** Conservation: the nodal totals add up to the amount held by the interior
      cells; with the density as coefficient, the nodal masses add up to the
      mass of the interior cells, and with coefficient one the nodal volumes
      add up to their volume. */
  lemma {:induction false} NodalTotalsSum(t: Connectivity, haloCell: seq<int>, xs: seq<real>, ys: seq<real>,
                                          cx: seq<real>, cy: seq<real>, coeff: seq<real>, k: int)
    requires MeshFits(t, xs, ys, cx, cy) && t.ncells <= |haloCell| && t.ncells <= |coeff|
    requires 0 <= k <= t.ncells
    ensures Sum(NodalTotals(t, haloCell, xs, ys, cx, cy, coeff, k)) == InteriorAmount(t, haloCell, xs, ys, coeff, k)
  {
    var m := t.nnodes;
    if k == 0 {
      ZeroSum(m);
      assert NodalTotals(t, haloCell, xs, ys, cx, cy, coeff, k) == seq(m, n => 0.0);
    } else {
      NodalTotalsSum(t, haloCell, xs, ys, cx, cy, coeff, k - 1);
      var prev := NodalTotals(t, haloCell, xs, ys, cx, cy, coeff, k - 1);
      var cur := NodalTotals(t, haloCell, xs, ys, cx, cy, coeff, k);
      if haloCell[k - 1] != 0 {
        assert cur == prev;
      } else {
        NodalTotalsCellStep(t, haloCell, xs, ys, cx, cy, coeff, k - 1);
      }
    }
  }

  /** The nodal totals grow by the cell's amount when an interior cell is
      scattered. */
  lemma NodalTotalsCellStep(t: Connectivity, haloCell: seq<int>, xs: seq<real>, ys: seq<real>,
                            cx: seq<real>, cy: seq<real>, coeff: seq<real>, k: int)
    requires MeshFits(t, xs, ys, cx, cy) && t.ncells <= |haloCell| && t.ncells <= |coeff|
    requires 0 <= k < t.ncells && haloCell[k] == 0
    ensures Sum(NodalTotals(t, haloCell, xs, ys, cx, cy, coeff, k + 1))
         == Sum(NodalTotals(t, haloCell, xs, ys, cx, cy, coeff, k)) + CellAmount(t, xs, ys, coeff, k)
  {
    var sv := CellSubVolumes(t, xs, ys, cx, cy, k);
    NodalTotalsAddCell(t, haloCell, xs, ys, cx, cy, coeff, k);
    RingNodesInRange(t, k);
    GatherAll(Scaled(coeff[k], sv), RingNodes(t, k), t.nnodes);
    WeightedSubCellsSum(t, xs, ys, cx, cy, coeff, k);
  }

  /** The weighted sub-cell volumes of a cell add up to the cell's amount. */
  lemma WeightedSubCellsSum(t: Connectivity, xs: seq<real>, ys: seq<real>, cx: seq<real>, cy: seq<real>,
                            coeff: seq<real>, k: int)
    requires MeshFits(t, xs, ys, cx, cy) && t.ncells <= |coeff| && 0 <= k < t.ncells
    ensures Sum(Scaled(coeff[k], CellSubVolumes(t, xs, ys, cx, cy, k))) == CellAmount(t, xs, ys, coeff, k)
  {
    WeightedPartition(coeff[k], Ring(t, xs, ys, k), Vec(cx[k], cy[k]));
  }

  /** The sub-cell volumes of a ring, all times a, add up to a times its
      polygon volume. */
  lemma WeightedPartition(a: real, ring: seq<Vec>, centroid: Vec)
    ensures Sum(Scaled(a, SubCellVolumes(ring, centroid))) == a * PolygonVolume(ring)
  {
    SubCellPartition(ring, centroid);
    SumScaledTo(a, SubCellVolumes(ring, centroid), PolygonVolume(ring));
  }

  /** Node by node, scattering interior cell k adds the gather of its
      weighted sub-cell volumes. */
  lemma NodalTotalsAddCell(t: Connectivity, haloCell: seq<int>, xs: seq<real>, ys: seq<real>,
                           cx: seq<real>, cy: seq<real>, coeff: seq<real>, k: int)
    requires MeshFits(t, xs, ys, cx, cy) && t.ncells <= |haloCell| && t.ncells <= |coeff|
    requires 0 <= k < t.ncells && haloCell[k] == 0
    ensures Sum(NodalTotals(t, haloCell, xs, ys, cx, cy, coeff, k + 1))
         == Sum(NodalTotals(t, haloCell, xs, ys, cx, cy, coeff, k))
            + Sum(NodeTotals(Scaled(coeff[k], CellSubVolumes(t, xs, ys, cx, cy, k)), RingNodes(t, k), 0, t.Size(k), t.nnodes))
  {
    var prev := NodalTotals(t, haloCell, xs, ys, cx, cy, coeff, k);
    var cur := NodalTotals(t, haloCell, xs, ys, cx, cy, coeff, k + 1);
    var gathered := NodeTotals(Scaled(coeff[k], CellSubVolumes(t, xs, ys, cx, cy, k)), RingNodes(t, k), 0, t.Size(k), t.nnodes);
    forall n | 0 <= n < t.nnodes
      ensures cur[n] == prev[n] + gathered[n]
    {
      assert cur[n] == SubCellTotal(t, haloCell, xs, ys, cx, cy, coeff, k + 1, n);
    }
    SumAdd(prev, gathered, cur);
  }

  /** Nodal values that are the totals of all cells add up to the amount
      held by the interior cells. */
  lemma NodalMassTotal(t: Connectivity, haloCell: seq<int>, xs: seq<real>, ys: seq<real>,
                       cx: seq<real>, cy: seq<real>, coeff: seq<real>, nodal: seq<real>)
    requires MeshFits(t, xs, ys, cx, cy) && t.ncells <= |haloCell| && t.ncells <= |coeff|
    requires |nodal| == t.nnodes
    requires forall n :: 0 <= n < t.nnodes ==> nodal[n] == SubCellTotal(t, haloCell, xs, ys, cx, cy, coeff, t.ncells, n)
    ensures Sum(nodal) == InteriorAmount(t, haloCell, xs, ys, coeff, t.ncells)
  {
    NodalTotalsSum(t, haloCell, xs, ys, cx, cy, coeff, t.ncells);
    SumCongruent(NodalTotals(t, haloCell, xs, ys, cx, cy, coeff, t.ncells), nodal);
  }

  /** Halo cells contribute nothing: two coefficient fields that agree on the
      interior cells give the same nodal totals. */
  lemma {:induction false} HaloCellsContributeNothing(t: Connectivity, haloCell: seq<int>, xs: seq<real>, ys: seq<real>,
                                                      cx: seq<real>, cy: seq<real>, coeff1: seq<real>, coeff2: seq<real>,
                                                      k: int, n: int)
    requires MeshFits(t, xs, ys, cx, cy) && t.ncells <= |haloCell| && t.ncells <= |coeff1| && t.ncells <= |coeff2|
    requires 0 <= k <= t.ncells
    requires forall c :: 0 <= c < t.ncells && haloCell[c] == 0 ==> coeff1[c] == coeff2[c]
    ensures SubCellTotal(t, haloCell, xs, ys, cx, cy, coeff1, k, n) == SubCellTotal(t, haloCell, xs, ys, cx, cy, coeff2, k, n)
  {
    if k > 0 {
      HaloCellsContributeNothing(t, haloCell, xs, ys, cx, cy, coeff1, coeff2, k - 1, n);
    }
  }

  /** One interior cell of the mass loop: its sub-cells move every nodal
      field from the totals of cells 0..cc-1 to those of cells 0..cc, and the
      cell volume it accumulates is the cell's polygon volume
      (omp3/hale.c:72-113). */
  method ScatterInteriorCell(t: Connectivity, haloCell: seq<int>, xs: seq<real>, ys: seq<real>,
                             cx: seq<real>, cy: seq<real>, density: seq<real>, ghost speeds: seq<real>,
                             soundspeed: real, cc: int,
                             nodalMass: array<real>, nodalVolumes: array<real>, nodalSoundspeed: array<real>)
    returns (cellVolume: real)
    requires MeshFits(t, xs, ys, cx, cy) && t.ncells <= |haloCell| && t.ncells <= |density| && t.ncells <= |speeds|
    requires 0 <= cc < t.ncells && haloCell[cc] == 0 && speeds[cc] == soundspeed
    requires nodalMass.Length == t.nnodes && nodalVolumes.Length == t.nnodes && nodalSoundspeed.Length == t.nnodes
    requires nodalMass != nodalVolumes && nodalMass != nodalSoundspeed && nodalVolumes != nodalSoundspeed
    requires forall n :: 0 <= n < t.nnodes ==>
      nodalMass[n] == SubCellTotal(t, haloCell, xs, ys, cx, cy, density, cc, n)
    requires forall n :: 0 <= n < t.nnodes ==>
      nodalVolumes[n] == SubCellTotal(t, haloCell, xs, ys, cx, cy, Ones(t.ncells), cc, n)
    requires forall n :: 0 <= n < t.nnodes ==>
      nodalSoundspeed[n] == SubCellTotal(t, haloCell, xs, ys, cx, cy, speeds, cc, n)
    modifies nodalMass, nodalVolumes, nodalSoundspeed
    ensures forall n :: 0 <= n < t.nnodes ==>
      nodalMass[n] == SubCellTotal(t, haloCell, xs, ys, cx, cy, density, cc + 1, n)
    ensures forall n :: 0 <= n < t.nnodes ==>
      nodalVolumes[n] == SubCellTotal(t, haloCell, xs, ys, cx, cy, Ones(t.ncells), cc + 1, n)
    ensures forall n :: 0 <= n < t.nnodes ==>
      nodalSoundspeed[n] == SubCellTotal(t, haloCell, xs, ys, cx, cy, speeds, cc + 1, n)
    ensures cellVolume == PolygonVolume(Ring(t, xs, ys, cc))
  {
    ghost var mass0, volumes0, soundspeed0 := nodalMass[..], nodalVolumes[..], nodalSoundspeed[..];
    cellVolume := ScatterPredictorCell(t, xs, ys, cx, cy, density[cc], soundspeed, cc,
                                       nodalMass, nodalVolumes, nodalSoundspeed);
    ghost var zero := seq(t.nnodes, n => 0.0);
    SubCellTotalStep(t, haloCell, xs, ys, cx, cy, density, cc, zero, mass0, nodalMass[..]);
    ScaledOne(CellSubVolumes(t, xs, ys, cx, cy, cc));
    SubCellTotalStep(t, haloCell, xs, ys, cx, cy, Ones(t.ncells), cc, zero, volumes0, nodalVolumes[..]);
    SubCellTotalStep(t, haloCell, xs, ys, cx, cy, speeds, cc, zero, soundspeed0, nodalSoundspeed[..]);
    SubCellPartition(Ring(t, xs, ys, cc), Vec(cx[cc], cy[cc]));
  }

  /** A halo cell leaves every nodal total as it was. */
  lemma SubCellTotalHaloStep(t: Connectivity, haloCell: seq<int>, xs: seq<real>, ys: seq<real>,
                             cx: seq<real>, cy: seq<real>, coeff: seq<real>, k: int, n: int)
    requires MeshFits(t, xs, ys, cx, cy) && t.ncells <= |haloCell| && t.ncells <= |coeff|
    requires 0 <= k < t.ncells && haloCell[k] != 0
    ensures SubCellTotal(t, haloCell, xs, ys, cx, cy, coeff, k + 1, n) == SubCellTotal(t, haloCell, xs, ys, cx, cy, coeff, k, n)
  {
  }

  /** Density times the polygon volume is the cell's mass. */
  lemma CellMassIsAmount(t: Connectivity, xs: seq<real>, ys: seq<real>, density: seq<real>, cc: int, cellVolume: real)
    requires t.Valid() && t.nnodes <= |xs| && t.nnodes <= |ys| && t.ncells <= |density| && 0 <= cc < t.ncells
    requires cellVolume == PolygonVolume(Ring(t, xs, ys, cc))
    ensures density[cc] * cellVolume == CellAmount(t, xs, ys, density, cc)
  {
  }

  /** Zero the three nodal fields (omp3/hale.c:59-63). */
  method ClearNodalFields(nodalMass: array<real>, nodalVolumes: array<real>, nodalSoundspeed: array<real>)
    requires nodalVolumes.Length == nodalMass.Length && nodalSoundspeed.Length == nodalMass.Length
    modifies nodalMass, nodalVolumes, nodalSoundspeed
    ensures forall n :: 0 <= n < nodalMass.Length ==>
      nodalMass[n] == 0.0 && nodalVolumes[n] == 0.0 && nodalSoundspeed[n] == 0.0
  {
    for nn := 0 to nodalMass.Length
      invariant forall n :: 0 <= n < nn ==> nodalMass[n] == 0.0 && nodalVolumes[n] == 0.0 && nodalSoundspeed[n] == 0.0
    {
      nodalMass[nn] := 0.0;
      nodalVolumes[nn] := 0.0;
      nodalSoundspeed[nn] := 0.0;
    }
  }

  /** Zero the nodal fields, then scatter the sub-cells of every interior cell
      onto their nodes, storing each cell's mass and returning the total mass
      (omp3/hale.c:59-118). */
  method NodalMassAndVolumes(t: Connectivity, haloCell: seq<int>, xs: seq<real>, ys: seq<real>,
                             cx: seq<real>, cy: seq<real>, sqrt: real -> real,
                             energy: seq<real>, density: seq<real>, cellMass: array<real>,
                             nodalMass: array<real>, nodalVolumes: array<real>, nodalSoundspeed: array<real>)
    returns (totalMass: real)
    requires MeshFits(t, xs, ys, cx, cy) && t.ncells <= |haloCell| && t.ncells <= |energy| && t.ncells <= |density|
    requires t.ncells <= cellMass.Length
    requires nodalMass.Length == t.nnodes && nodalVolumes.Length == t.nnodes && nodalSoundspeed.Length == t.nnodes
    requires nodalMass != nodalVolumes && nodalMass != nodalSoundspeed && nodalVolumes != nodalSoundspeed
    requires cellMass != nodalMass && cellMass != nodalVolumes && cellMass != nodalSoundspeed
    modifies cellMass, nodalMass, nodalVolumes, nodalSoundspeed
    ensures forall n :: 0 <= n < t.nnodes ==>
      nodalMass[n] == SubCellTotal(t, haloCell, xs, ys, cx, cy, density, t.ncells, n)
    ensures forall n :: 0 <= n < t.nnodes ==>
      nodalVolumes[n] == SubCellTotal(t, haloCell, xs, ys, cx, cy, Ones(t.ncells), t.ncells, n)
    ensures forall n :: 0 <= n < t.nnodes ==>
      nodalSoundspeed[n] == SubCellTotal(t, haloCell, xs, ys, cx, cy, SoundSpeeds(sqrt, energy, t.ncells), t.ncells, n)
    ensures forall c :: 0 <= c < t.ncells && haloCell[c] == 0 ==>
      cellMass[c] == CellAmount(t, xs, ys, density, c)
    ensures forall c :: 0 <= c < cellMass.Length && (t.ncells <= c || haloCell[c] != 0) ==>
      cellMass[c] == old(cellMass[c])
    ensures totalMass == InteriorAmount(t, haloCell, xs, ys, density, t.ncells)
    ensures totalMass == Sum(nodalMass[..])
  {
    ClearNodalFields(nodalMass, nodalVolumes, nodalSoundspeed);
    ghost var speeds := SoundSpeeds(sqrt, energy, t.ncells);
    totalMass := 0.0;
    for cc := 0 to t.ncells
      invariant forall n :: 0 <= n < t.nnodes ==>
        nodalMass[n] == SubCellTotal(t, haloCell, xs, ys, cx, cy, density, cc, n)
      invariant forall n :: 0 <= n < t.nnodes ==>
        nodalVolumes[n] == SubCellTotal(t, haloCell, xs, ys, cx, cy, Ones(t.ncells), cc, n)
      invariant forall n :: 0 <= n < t.nnodes ==>
        nodalSoundspeed[n] == SubCellTotal(t, haloCell, xs, ys, cx, cy, speeds, cc, n)
      invariant forall c :: 0 <= c < cc && haloCell[c] == 0 ==> cellMass[c] == CellAmount(t, xs, ys, density, c)
      invariant forall c :: 0 <= c < cellMass.Length && (cc <= c || haloCell[c] != 0) ==>
        cellMass[c] == old(cellMass[c])
      invariant totalMass == InteriorAmount(t, haloCell, xs, ys, density, cc)
    {
      if haloCell[cc] != 0 {
        forall n | 0 <= n < t.nnodes
          ensures nodalMass[n] == SubCellTotal(t, haloCell, xs, ys, cx, cy, density, cc + 1, n)
          ensures nodalVolumes[n] == SubCellTotal(t, haloCell, xs, ys, cx, cy, Ones(t.ncells), cc + 1, n)
          ensures nodalSoundspeed[n] == SubCellTotal(t, haloCell, xs, ys, cx, cy, speeds, cc + 1, n)
        {
          SubCellTotalHaloStep(t, haloCell, xs, ys, cx, cy, density, cc, n);
          SubCellTotalHaloStep(t, haloCell, xs, ys, cx, cy, Ones(t.ncells), cc, n);
          SubCellTotalHaloStep(t, haloCell, xs, ys, cx, cy, speeds, cc, n);
        }
        continue;
      }
      var cellVolume := ScatterInteriorCell(t, haloCell, xs, ys, cx, cy, density, speeds, SoundSpeed(sqrt, energy[cc]), cc,
                                            nodalMass, nodalVolumes, nodalSoundspeed);
      CellMassIsAmount(t, xs, ys, density, cc, cellVolume);
      cellMass[cc] := density[cc] * cellVolume;
      totalMass := totalMass + cellMass[cc];
    }
    NodalMassTotal(t, haloCell, xs, ys, cx, cy, density, nodalMass[..]);
  }

  /** The two scatter-adds of one corrector sub-cell onto its node
      (omp3/hale.c:349-353). */
  method AddCorrectorSubCell(nodalVolumes: array<real>, nodalSoundspeed: array<real>,
                             node: int, soundspeed: real, subCellVolume: real,
                             ghost volumes0: seq<real>, ghost soundspeed0: seq<real>,
                             ghost sv: seq<real>, ghost keys: seq<int>, ghost k: int)
    requires nodalVolumes != nodalSoundspeed
    requires 0 <= k < |keys| && k < |sv| && keys[k] == node && sv[k] == subCellVolume
    requires 0 <= node < nodalVolumes.Length && node < nodalSoundspeed.Length
    requires Scattered(nodalVolumes[..], volumes0, sv, keys, 0, k)
    requires Scattered(nodalSoundspeed[..], soundspeed0, Scaled(soundspeed, sv), keys, 0, k)
    modifies nodalVolumes, nodalSoundspeed
    ensures Scattered(nodalVolumes[..], volumes0, sv, keys, 0, k + 1)
    ensures Scattered(nodalSoundspeed[..], soundspeed0, Scaled(soundspeed, sv), keys, 0, k + 1)
  {
    ghost var v, s := nodalVolumes[..], nodalSoundspeed[..];
    nodalSoundspeed[node] := nodalSoundspeed[node] + soundspeed * subCellVolume;
    nodalVolumes[node] := nodalVolumes[node] + subCellVolume;
    ScatterStep(sv, keys, 0, k, volumes0, v, nodalVolumes[..]);
    ScatterStep(Scaled(soundspeed, sv), keys, 0, k, soundspeed0, s, nodalSoundspeed[..]);
  }

  /** The sub-cells of one interior cell at the corrector positions,
      scattered onto its nodes: sound speed times volume, and volume
      (omp3/hale.c:317-354). */
  method ScatterCorrectorCell(t: Connectivity, xs: seq<real>, ys: seq<real>, cx: seq<real>, cy: seq<real>,
                              soundspeed: real, cc: int, nodalVolumes: array<real>, nodalSoundspeed: array<real>)
    requires MeshFits(t, xs, ys, cx, cy) && 0 <= cc < t.ncells
    requires nodalVolumes.Length == t.nnodes && nodalSoundspeed.Length == t.nnodes && nodalVolumes != nodalSoundspeed
    modifies nodalVolumes, nodalSoundspeed
    ensures Scattered(nodalVolumes[..], old(nodalVolumes[..]),
                      CellSubVolumes(t, xs, ys, cx, cy, cc), RingNodes(t, cc), 0, t.Size(cc))
    ensures Scattered(nodalSoundspeed[..], old(nodalSoundspeed[..]),
                      Scaled(soundspeed, CellSubVolumes(t, xs, ys, cx, cy, cc)), RingNodes(t, cc), 0, t.Size(cc))
  {
    var nodesOff := t.offsets[cc];
    var nnodesAroundCell := t.offsets[cc + 1] - nodesOff;
    ghost var sv := CellSubVolumes(t, xs, ys, cx, cy, cc);
    ghost var keys := RingNodes(t, cc);
    ghost var volumes0, soundspeed0 := nodalVolumes[..], nodalSoundspeed[..];
    for nn := 0 to nnodesAroundCell
      invariant Scattered(nodalVolumes[..], volumes0, sv, keys, 0, nn)
      invariant Scattered(nodalSoundspeed[..], soundspeed0, Scaled(soundspeed, sv), keys, 0, nn)
    {
      var nodeCIndex := t.nodes[nodesOff + nn];
      var subCellVolume := StencilSubCellVolume(t, xs, ys, cx, cy, cc, nn);
      assert keys[nn] == nodeCIndex;
      AddCorrectorSubCell(nodalVolumes, nodalSoundspeed, nodeCIndex, soundspeed, subCellVolume,
                          volumes0, soundspeed0, sv, keys, nn);
    }
  }

  /** The corrector's nodal volumes and sound speeds: every interior cell adds
      its sub-cells at the corrector positions and centroids to what the
      arrays held (omp3/hale.c:311-355). */
  method NodalVolumesAndSoundspeed(t: Connectivity, haloCell: seq<int>, xs: seq<real>, ys: seq<real>,
                                   cx: seq<real>, cy: seq<real>, sqrt: real -> real, energy: seq<real>,
                                   nodalVolumes: array<real>, nodalSoundspeed: array<real>)
    requires MeshFits(t, xs, ys, cx, cy) && t.ncells <= |haloCell| && t.ncells <= |energy|
    requires nodalVolumes.Length == t.nnodes && nodalSoundspeed.Length == t.nnodes && nodalVolumes != nodalSoundspeed
    modifies nodalVolumes, nodalSoundspeed
    ensures forall n :: 0 <= n < t.nnodes ==>
      nodalVolumes[n] == old(nodalVolumes[n]) + SubCellTotal(t, haloCell, xs, ys, cx, cy, Ones(t.ncells), t.ncells, n)
    ensures forall n :: 0 <= n < t.nnodes ==>
      nodalSoundspeed[n] == old(nodalSoundspeed[n])
                            + SubCellTotal(t, haloCell, xs, ys, cx, cy, SoundSpeeds(sqrt, energy, t.ncells), t.ncells, n)
  {
    ghost var speeds := SoundSpeeds(sqrt, energy, t.ncells);
    ghost var volumesIn, soundspeedIn := nodalVolumes[..], nodalSoundspeed[..];
    for cc := 0 to t.ncells
      invariant forall n :: 0 <= n < t.nnodes ==>
        nodalVolumes[n] == volumesIn[n] + SubCellTotal(t, haloCell, xs, ys, cx, cy, Ones(t.ncells), cc, n)
      invariant forall n :: 0 <= n < t.nnodes ==>
        nodalSoundspeed[n] == soundspeedIn[n] + SubCellTotal(t, haloCell, xs, ys, cx, cy, speeds, cc, n)
    {
      if haloCell[cc] != 0 {
        continue;
      }
      ghost var volumes0, soundspeed0 := nodalVolumes[..], nodalSoundspeed[..];
      ScatterCorrectorCell(t, xs, ys, cx, cy, SoundSpeed(sqrt, energy[cc]), cc, nodalVolumes, nodalSoundspeed);
      ScaledOne(CellSubVolumes(t, xs, ys, cx, cy, cc));
      SubCellTotalStep(t, haloCell, xs, ys, cx, cy, Ones(t.ncells), cc, volumesIn, volumes0, nodalVolumes[..]);
      SubCellTotalStep(t, haloCell, xs, ys, cx, cy, speeds, cc, soundspeedIn, soundspeed0, nodalSoundspeed[..]);
    }
  }

  /** The predictor's division of the accumulated sound speed by the nodal
      volume, together with the reset of the node forces
      (omp3/hale.c:125-129). */
  method NormaliseSoundspeedAndClearForces(nodalVolumes: seq<real>, nodalSoundspeed: array<real>,
                                           nodeForceX: array<real>, nodeForceY: array<real>)
    requires nodalSoundspeed.Length == |nodalVolumes| && nodeForceX.Length == |nodalVolumes| && nodeForceY.Length == |nodalVolumes|
    requires nodalSoundspeed != nodeForceX && nodalSoundspeed != nodeForceY && nodeForceX != nodeForceY
    requires forall n :: 0 <= n < |nodalVolumes| ==> nodalVolumes[n] != 0.0
    modifies nodalSoundspeed, nodeForceX, nodeForceY
    ensures forall n :: 0 <= n < |nodalVolumes| ==>
      nodalSoundspeed[n] == old(nodalSoundspeed[n]) / nodalVolumes[n] && nodeForceX[n] == 0.0 && nodeForceY[n] == 0.0
  {
    for nn := 0 to |nodalVolumes|
      invariant forall n :: 0 <= n < nn ==>
        nodalSoundspeed[n] == old(nodalSoundspeed[n]) / nodalVolumes[n] && nodeForceX[n] == 0.0 && nodeForceY[n] == 0.0
      invariant forall n :: nn <= n < |nodalVolumes| ==> nodalSoundspeed[n] == old(nodalSoundspeed[n])
    {
      nodeForceX[nn] := 0.0;
      nodeForceY[nn] := 0.0;
      nodalSoundspeed[nn] := nodalSoundspeed[nn] / nodalVolumes[nn];
    }
  }

  /** The corrector's division of the accumulated sound speed by the nodal
      volume (omp3/hale.c:357-359). */
  method NormaliseSoundspeed(nodalVolumes: seq<real>, nodalSoundspeed: array<real>)
    requires nodalSoundspeed.Length == |nodalVolumes|
    requires forall n :: 0 <= n < |nodalVolumes| ==> nodalVolumes[n] != 0.0
    modifies nodalSoundspeed
    ensures forall n :: 0 <= n < |nodalVolumes| ==> nodalSoundspeed[n] == old(nodalSoundspeed[n]) / nodalVolumes[n]
  {
    for nn := 0 to |nodalVolumes|
      invariant forall n :: 0 <= n < nn ==> nodalSoundspeed[n] == old(nodalSoundspeed[n]) / nodalVolumes[n]
      invariant forall n :: nn <= n < |nodalVolumes| ==> nodalSoundspeed[n] == old(nodalSoundspeed[n])
    {
      nodalSoundspeed[nn] := nodalSoundspeed[nn] / nodalVolumes[nn];
    }
  }
}
