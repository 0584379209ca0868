/** The explicit updates of the predictor and the corrector: velocities
    kicked by the node forces, nodes drifted by the velocities, the cell
    energies reduced by the work of the sub-cell forces, and the densities
    recomputed from the new cell volumes. */
module Integrate {
  import opened Sums
  import opened Stencil
  import opened Geometry
  import opened Topology
  import opened Halo
  import opened Forces
  import opened Timestep

  /** Velocity v after a time dt under force f on mass m. */
  function Kick(v: real, dt: real, f: real, m: real): real
    requires m != 0.0
  {
    v + dt * f / m
  }

  /** The mean of two time levels of a quantity. */
  function Centred(a: real, b: real): real
  {
    0.5 * (a + b)
  }

  /** Position x after a time dt at velocity v. */
  function Drift(x: real, dt: real, v: real): real
  {
    x + dt * v
  }

  /** Energy e after work at rate w for a time dt on mass m. */
  function Spend(e: real, dt: real, w: real, m: real): real
    requires m != 0.0
  {
    e - dt * w / m
  }

  /** Internal energy of a cell of mass m at specific energy e. */
  function InternalEnergy(m: real, e: real): real
  {
    m * e
  }

  /** Momentum of mass m at velocity v. */
  function Momentum(m: real, v: real): real
  {
    m * v
  }

  /** A kick changes the momentum of its node by the impulse dt * f. */
  lemma KickIsImpulse(v: real, dt: real, f: real, m: real)
    requires m != 0.0
    ensures Momentum(m, Kick(v, dt, f, m)) == Momentum(m, v) + dt * f
  {
    calc {
      Momentum(m, Kick(v, dt, f, m));
      m * v + m * (dt * f / m);
      { assert m * (dt * f / m) == dt * f; }
      Momentum(m, v) + dt * f;
    }
  }

  /** The time-centred predicted velocity is the velocity kicked for half
      the step. */
  lemma HalfStepKick(v: real, dt: real, f: real, m: real)
    requires m != 0.0
    ensures Centred(v, Kick(v, dt, f, m)) == Kick(v, 0.5 * dt, f, m)
  {
    assert dt * f / m == 2.0 * (0.5 * dt * f / m);
  }

  /** The time-centred predicted position is the position drifted for half
      the step. */
  lemma HalfStepDrift(x: real, dt: real, v: real)
    ensures Centred(Drift(x, dt, v), x) == Drift(x, 0.5 * dt, v)
  {
  }

  /** An energy update is the work done on the cell, per unit mass. */
  lemma SpendIsWork(e: real, dt: real, w: real, m: real)
    requires m != 0.0
    ensures InternalEnergy(m, Spend(e, dt, w, m)) == InternalEnergy(m, e) - dt * w
  {
    calc {
      InternalEnergy(m, Spend(e, dt, w, m));
      m * e - m * (dt * w / m);
      { assert m * (dt * w / m) == dt * w; }
      InternalEnergy(m, e) - dt * w;
    }
  }

  /** Every node's velocity kicked by its own force and mass. */
  function Kicked(v: seq<real>, dt: real, f: seq<real>, m: seq<real>): (r: seq<real>)
    requires |v| == |f| == |m| && forall n :: 0 <= n < |m| ==> m[n] != 0.0
    ensures |r| == |v|
  {
    seq(|v|, n requires 0 <= n < |v| => Kick(v[n], dt, f[n], m[n]))
  }

  /** Every node's momentum. */
  function Momenta(m: seq<real>, v: seq<real>): (r: seq<real>)
    requires |m| == |v|
    ensures |r| == |m|
  {
    seq(|m|, n requires 0 <= n < |m| => Momentum(m[n], v[n]))
  }

  /** The momentum of one kicked node, in terms of the sequences. */
  lemma KickedMomentumAt(v: seq<real>, dt: real, f: seq<real>, m: seq<real>, n: int)
    requires |v| == |f| == |m| && forall n :: 0 <= n < |m| ==> m[n] != 0.0
    requires 0 <= n < |m|
    ensures Momenta(m, Kicked(v, dt, f, m))[n] == Momenta(m, v)[n] + Scaled(dt, f)[n]
  {
    KickIsImpulse(v[n], dt, f[n], m[n]);
  }

  /** The kicks of all nodes together change the total momentum by dt times
      the total force. */
  lemma MomentumGain(v: seq<real>, dt: real, f: seq<real>, m: seq<real>)
    requires |v| == |f| == |m| && forall n :: 0 <= n < |m| ==> m[n] != 0.0
    ensures Sum(Momenta(m, Kicked(v, dt, f, m))) == Sum(Momenta(m, v)) + dt * Sum(f)
  {
    var kicked, before, impulses := Momenta(m, Kicked(v, dt, f, m)), Momenta(m, v), Scaled(dt, f);
    forall n | 0 <= n < |m|
      ensures kicked[n] == before[n] + impulses[n]
    {
      KickedMomentumAt(v, dt, f, m, n);
    }
    SumAdd(before, impulses, kicked);
    SumScaled(dt, f);
  }

  /** Forces that cancel, as the pressure and the viscous forces do, leave
      the total momentum of the kicked nodes as it was. */
  lemma BalancedKickKeepsMomentum(v: seq<real>, dt: real, f: seq<real>, m: seq<real>)
    requires |v| == |f| == |m| && forall n :: 0 <= n < |m| ==> m[n] != 0.0
    requires Sum(f) == 0.0
    ensures Sum(Momenta(m, Kicked(v, dt, f, m))) == Sum(Momenta(m, v))
  {
    MomentumGain(v, dt, f, m);
    assert dt * Sum(f) == 0.0;
  }

  /** The predictor's time-centred velocities (omp3/hale.c:171-179): each
      node's start velocity averaged with its velocity kicked for the whole
      step. */
  method PredictVelocities(mesh: Mesh, velocityX0: seq<real>, velocityY0: seq<real>,
                           nodeForceX: seq<real>, nodeForceY: seq<real>, nodalMass: seq<real>,
                           velocityX1: array<real>, velocityY1: array<real>)
    requires velocityX1 != velocityY1 && velocityX1.Length == velocityY1.Length == |nodalMass|
    requires |velocityX0| == |velocityY0| == |nodeForceX| == |nodeForceY| == |nodalMass|
    requires forall n :: 0 <= n < |nodalMass| ==> nodalMass[n] != 0.0
    modifies velocityX1, velocityY1
    ensures forall n :: 0 <= n < |nodalMass| ==>
      && velocityX1[n] == Centred(velocityX0[n], Kick(velocityX0[n], mesh.dt, nodeForceX[n], nodalMass[n]))
      && velocityY1[n] == Centred(velocityY0[n], Kick(velocityY0[n], mesh.dt, nodeForceY[n], nodalMass[n]))
  {
    for nn := 0 to |nodalMass|
      invariant forall n :: 0 <= n < nn ==>
        && velocityX1[n] == Centred(velocityX0[n], Kick(velocityX0[n], mesh.dt, nodeForceX[n], nodalMass[n]))
        && velocityY1[n] == Centred(velocityY0[n], Kick(velocityY0[n], mesh.dt, nodeForceY[n], nodalMass[n]))
    {
      velocityX1[nn] := Kick(velocityX0[nn], mesh.dt, nodeForceX[nn], nodalMass[nn]);
      velocityY1[nn] := Kick(velocityY0[nn], mesh.dt, nodeForceY[nn], nodalMass[nn]);
      velocityX1[nn] := Centred(velocityX0[nn], velocityX1[nn]);
      velocityY1[nn] := Centred(velocityY0[nn], velocityY1[nn]);
    }
  }

  /** The corrector's velocities (omp3/hale.c:400-408): the time-centred
      velocity is kicked by the corrector force, and the start velocity is
      replaced by its mean with the result. */
  method CorrectVelocities(mesh: Mesh, nodeForceX: seq<real>, nodeForceY: seq<real>, nodalMass: seq<real>,
                           velocityX0: array<real>, velocityY0: array<real>,
                           velocityX1: array<real>, velocityY1: array<real>)
    requires velocityX0 != velocityY0 && velocityX0 != velocityX1 && velocityX0 != velocityY1
    requires velocityY0 != velocityX1 && velocityY0 != velocityY1 && velocityX1 != velocityY1
    requires velocityX0.Length == velocityY0.Length == velocityX1.Length == velocityY1.Length == |nodalMass|
    requires |nodeForceX| == |nodeForceY| == |nodalMass|
    requires forall n :: 0 <= n < |nodalMass| ==> nodalMass[n] != 0.0
    modifies velocityX0, velocityY0, velocityX1, velocityY1
    ensures forall n :: 0 <= n < |nodalMass| ==>
      && velocityX1[n] == Kick(old(velocityX1[n]), mesh.dt, nodeForceX[n], nodalMass[n])
      && velocityY1[n] == Kick(old(velocityY1[n]), mesh.dt, nodeForceY[n], nodalMass[n])
      && velocityX0[n] == Centred(velocityX1[n], old(velocityX0[n]))
      && velocityY0[n] == Centred(velocityY1[n], old(velocityY0[n]))
  {
    for nn := 0 to |nodalMass|
      invariant forall n :: 0 <= n < nn ==>
        && velocityX1[n] == Kick(old(velocityX1[n]), mesh.dt, nodeForceX[n], nodalMass[n])
        && velocityY1[n] == Kick(old(velocityY1[n]), mesh.dt, nodeForceY[n], nodalMass[n])
        && velocityX0[n] == Centred(velocityX1[n], old(velocityX0[n]))
        && velocityY0[n] == Centred(velocityY1[n], old(velocityY0[n]))
      invariant forall n :: nn <= n < |nodalMass| ==>
        && velocityX0[n] == old(velocityX0[n]) && velocityY0[n] == old(velocityY0[n])
        && velocityX1[n] == old(velocityX1[n]) && velocityY1[n] == old(velocityY1[n])
    {
      velocityX1[nn] := Kick(velocityX1[nn], mesh.dt, nodeForceX[nn], nodalMass[nn]);
      velocityY1[nn] := Kick(velocityY1[nn], mesh.dt, nodeForceY[nn], nodalMass[nn]);
      velocityX0[nn] := Centred(velocityX1[nn], velocityX0[nn]);
      velocityY0[nn] := Centred(velocityY1[nn], velocityY0[nn]);
    }
  }

  /** Move every node by its velocity for one step (omp3/hale.c:186-189,
      where the nodes at the start of the step are drifted into the
      predicted positions, and 415-418, where they are drifted in place:
      the caller passes the array's own contents as the start positions). */
  method MoveNodes(mesh: Mesh, nodesX0: seq<real>, nodesY0: seq<real>, velocityX: seq<real>, velocityY: seq<real>,
                   nodesX1: array<real>, nodesY1: array<real>)
    requires nodesX1 != nodesY1 && nodesX1.Length == nodesY1.Length == |nodesX0|
    requires |nodesY0| == |velocityX| == |velocityY| == |nodesX0|
    modifies nodesX1, nodesY1
    ensures forall n :: 0 <= n < |nodesX0| ==>
      nodesX1[n] == Drift(nodesX0[n], mesh.dt, velocityX[n]) && nodesY1[n] == Drift(nodesY0[n], mesh.dt, velocityY[n])
  {
    for nn := 0 to |nodesX0|
      invariant forall n :: 0 <= n < nn ==>
        nodesX1[n] == Drift(nodesX0[n], mesh.dt, velocityX[n]) && nodesY1[n] == Drift(nodesY0[n], mesh.dt, velocityY[n])
    {
      nodesX1[nn] := Drift(nodesX0[nn], mesh.dt, velocityX[nn]);
      nodesY1[nn] := Drift(nodesY0[nn], mesh.dt, velocityY[nn]);
    }
  }

  /** The displacement of a node drifted with velocity u. */
  function Displacement(x: real, y: real, dt: real, u: Vec): (d: Vec)
    ensures d == Scale(dt, u)
  {
    Vec(Drift(x, dt, u.x) - x, Drift(y, dt, u.y) - y)
  }

  /** Once the reflect loop has run over all nodes, a boundary node stays
      where it is and a ghost node moves along its face: its displacement
      has no component along the face normal. */
  lemma NodesStayOnBoundary(v: Velocities, haloIndex: seq<int>, haloNeighbour: seq<int>,
                            normalX: seq<real>, normalY: seq<real>, x: real, y: real, dt: real, i: int)
    requires |v.x| == |v.y| && 0 <= i < |v.x|
    requires ReflectTablesValid(|v.x|, haloIndex, haloNeighbour, normalX, normalY, |v.x|)
    ensures haloIndex[i] == IS_BOUNDARY ==>
      Displacement(x, y, dt, At(ReflectFill(v, haloIndex, haloNeighbour, normalX, normalY, |v.x|), i)) == Vec(0.0, 0.0)
    ensures IsGhost(haloIndex[i]) ==>
      Dot(Displacement(x, y, dt, At(ReflectFill(v, haloIndex, haloNeighbour, normalX, normalY, |v.x|), i)),
          Vec(normalX[haloIndex[i]], normalY[haloIndex[i]])) == 0.0
  {
    var u := At(ReflectFill(v, haloIndex, haloNeighbour, normalX, normalY, |v.x|), i);
    ReflectFillAt(v, haloIndex, haloNeighbour, normalX, normalY, |v.x|, i);
    if IsGhost(haloIndex[i]) {
      DotScale(dt, u, Vec(normalX[haloIndex[i]], normalY[haloIndex[i]]));
    }
  }

  /** The predictor's preparation of the corrector (omp3/hale.c:283-290):
      the predicted positions are averaged with the start positions, and the
      node forces, nodal volumes and nodal sound speeds are cleared for
      the corrector's gathers. */
  method PrepareCorrector(nodesX0: seq<real>, nodesY0: seq<real>, nodesX1: array<real>, nodesY1: array<real>,
                          nodeForceX: array<real>, nodeForceY: array<real>,
                          nodalVolumes: array<real>, nodalSoundspeed: array<real>)
    requires |nodesY0| == |nodesX0| && nodesX1.Length == nodesY1.Length == |nodesX0|
    requires nodeForceX.Length == nodeForceY.Length == nodalVolumes.Length == nodalSoundspeed.Length == |nodesX0|
    requires nodesX1 != nodesY1 && nodeForceX != nodeForceY && nodalVolumes != nodalSoundspeed
    requires nodesX1 != nodeForceX && nodesX1 != nodeForceY && nodesY1 != nodeForceX && nodesY1 != nodeForceY
    requires nodesX1 != nodalVolumes && nodesX1 != nodalSoundspeed && nodesY1 != nodalVolumes && nodesY1 != nodalSoundspeed
    requires nodeForceX != nodalVolumes && nodeForceX != nodalSoundspeed
    requires nodeForceY != nodalVolumes && nodeForceY != nodalSoundspeed
    modifies nodesX1, nodesY1, nodeForceX, nodeForceY, nodalVolumes, nodalSoundspeed
    ensures forall n :: 0 <= n < |nodesX0| ==>
      && nodesX1[n] == Centred(old(nodesX1[n]), nodesX0[n]) && nodesY1[n] == Centred(old(nodesY1[n]), nodesY0[n])
      && nodeForceX[n] == 0.0 && nodeForceY[n] == 0.0 && nodalVolumes[n] == 0.0 && nodalSoundspeed[n] == 0.0
  {
    for nn := 0 to |nodesX0|
      invariant forall n :: 0 <= n < nn ==>
        && nodesX1[n] == Centred(old(nodesX1[n]), nodesX0[n]) && nodesY1[n] == Centred(old(nodesY1[n]), nodesY0[n])
        && nodeForceX[n] == 0.0 && nodeForceY[n] == 0.0 && nodalVolumes[n] == 0.0 && nodalSoundspeed[n] == 0.0
      invariant forall n :: nn <= n < |nodesX0| ==> nodesX1[n] == old(nodesX1[n]) && nodesY1[n] == old(nodesY1[n])
    {
      nodesX1[nn] := Centred(nodesX1[nn], nodesX0[nn]);
      nodesY1[nn] := Centred(nodesY1[nn], nodesY0[nn]);
      nodeForceX[nn] := 0.0;
      nodeForceY[nn] := 0.0;
      nodalVolumes[nn] := 0.0;
      nodalSoundspeed[nn] := 0.0;
    }
  }

  /** The node velocities and the stored sub-cell forces fit the mesh. */
  predicate WorkInputs(t: Connectivity, vx: seq<real>, vy: seq<real>, cfx: seq<real>, cfy: seq<real>)
  {
    t.Valid() && t.nnodes <= |vx| && t.nnodes <= |vy| && t.SlotEnd() <= |cfx| && t.SlotEnd() <= |cfy|
  }

  /** The rate of work of the sub-cell force at slot nn of cell cc on its
      node. */
  function SlotWork(t: Connectivity, vx: seq<real>, vy: seq<real>, cfx: seq<real>, cfy: seq<real>, cc: int, nn: int): real
    requires WorkInputs(t, vx, vy, cfx, cfy) && 0 <= cc < t.ncells && 0 <= nn < t.Size(cc)
  {
    var node, slot := t.nodes[t.offsets[cc] + nn], t.offsets[cc] + nn;
    Dot(Vec(vx[node], vy[node]), Vec(cfx[slot], cfy[slot]))
  }

  /** The rate of work of the sub-cell forces at the first k slots of cell
      cc. */
  function Work(t: Connectivity, vx: seq<real>, vy: seq<real>, cfx: seq<real>, cfy: seq<real>, cc: int, k: int): real
    requires WorkInputs(t, vx, vy, cfx, cfy) && 0 <= cc < t.ncells && 0 <= k <= t.Size(cc)
  {
    if k == 0 then 0.0 else Work(t, vx, vy, cfx, cfy, cc, k - 1) + SlotWork(t, vx, vy, cfx, cfy, cc, k - 1)
  }

  /** The work rate summed by the inner energy loop (omp3/hale.c:201-207 and
      459-465). */
  method CellWork(t: Connectivity, vx: seq<real>, vy: seq<real>, cfx: seq<real>, cfy: seq<real>, cc: int)
    returns (force: real)
    requires WorkInputs(t, vx, vy, cfx, cfy) && 0 <= cc < t.ncells
    ensures force == Work(t, vx, vy, cfx, cfy, cc, t.Size(cc))
  {
    var nodesOff := t.offsets[cc];
    var nnodesAroundCell := t.offsets[cc + 1] - nodesOff;
    force := 0.0;
    for nn := 0 to nnodesAroundCell
      invariant force == Work(t, vx, vy, cfx, cfy, cc, nn)
    {
      var nodeIndex := t.nodes[nodesOff + nn];
      force := force + Dot(Vec(vx[nodeIndex], vy[nodeIndex]), Vec(cfx[nodesOff + nn], cfy[nodesOff + nn]));
    }
  }

  /** The energy of every interior cell reduced by the work its sub-cell
      forces do on the moving nodes (omp3/hale.c:192-210, from energy0
      into energy1, and 450-468, on energy0 in place: the caller passes the
      array's own contents as the start energies). */
  method UpdateEnergy(mesh: Mesh, t: Connectivity, haloCell: seq<int>, vx: seq<real>, vy: seq<real>,
                      cfx: seq<real>, cfy: seq<real>, cellMass: seq<real>, energy0: seq<real>, energy1: array<real>)
    requires WorkInputs(t, vx, vy, cfx, cfy)
    requires t.ncells <= |haloCell| && t.ncells <= |cellMass| && t.ncells <= |energy0| && t.ncells <= energy1.Length
    requires forall cc :: 0 <= cc < t.ncells && haloCell[cc] == 0 ==> cellMass[cc] != 0.0
    modifies energy1
    ensures forall cc :: 0 <= cc < t.ncells && haloCell[cc] == 0 ==>
      energy1[cc] == Spend(energy0[cc], mesh.dt, Work(t, vx, vy, cfx, cfy, cc, t.Size(cc)), cellMass[cc])
    ensures forall cc :: 0 <= cc < energy1.Length && (t.ncells <= cc || haloCell[cc] != 0) ==>
      energy1[cc] == old(energy1[cc])
  {
    for cc := 0 to t.ncells
      invariant forall c :: 0 <= c < cc && haloCell[c] == 0 ==>
        energy1[c] == Spend(energy0[c], mesh.dt, Work(t, vx, vy, cfx, cfy, c, t.Size(c)), cellMass[c])
      invariant forall c :: 0 <= c < energy1.Length && (cc <= c || haloCell[c] != 0) ==>
        energy1[c] == old(energy1[c])
    {
      if haloCell[cc] != 0 {
        continue;
      }
      var force := CellWork(t, vx, vy, cfx, cfy, cc);
      energy1[cc] := Spend(energy0[cc], mesh.dt, force, cellMass[cc]);
    }
  }

  /** With every node of cell c moving at the same velocity u, the work of
      its first k sub-cell forces is u against their sum. */
  lemma {:induction false} UniformWork(t: Connectivity, vx: seq<real>, vy: seq<real>, cfx: seq<real>, cfy: seq<real>,
                                       c: int, u: Vec, k: int)
    requires WorkInputs(t, vx, vy, cfx, cfy) && 0 <= c < t.ncells && 0 <= k <= t.Size(c)
    requires forall k :: t.offsets[c] <= k < t.offsets[c + 1] ==> Vec(vx[t.nodes[k]], vy[t.nodes[k]]) == u
    ensures Work(t, vx, vy, cfx, cfy, c, k)
         == Dot(u, Vec(Sum(cfx[t.offsets[c]..t.offsets[c] + k]), Sum(cfy[t.offsets[c]..t.offsets[c] + k])))
  {
    var off := t.offsets[c];
    if k == 0 {
      assert cfx[off..off] == [] && cfy[off..off] == [];
    } else {
      UniformWork(t, vx, vy, cfx, cfy, c, u, k - 1);
      var slot := off + k - 1;
      SumSliceStep(cfx, off, slot);
      SumSliceStep(cfy, off, slot);
      assert SlotWork(t, vx, vy, cfx, cfy, c, k - 1) == Dot(u, Vec(cfx[slot], cfy[slot]));
      DotAdd(u, Vec(Sum(cfx[off..slot]), Sum(cfy[off..slot])), Vec(cfx[slot], cfy[slot]));
    }
  }

  /** A cell whose nodes all move at one velocity, as in a rigid
      translation, does no work: its pressure forces cancel, so its energy
      is left as it was. */
  lemma RigidTranslationDoesNoWork(t: Connectivity, xs: seq<real>, ys: seq<real>, pressure: seq<real>,
                                   vx: seq<real>, vy: seq<real>, cfx: seq<real>, cfy: seq<real>, c: int, u: Vec)
    requires ForceInputs(t, xs, ys, pressure) && WorkInputs(t, vx, vy, cfx, cfy) && 0 <= c < t.ncells
    requires ForcesStored(t, xs, ys, pressure, cfx, cfy, c + 1)
    requires forall k :: t.offsets[c] <= k < t.offsets[c + 1] ==> Vec(vx[t.nodes[k]], vy[t.nodes[k]]) == u
    ensures Work(t, vx, vy, cfx, cfy, c, t.Size(c)) == 0.0
  {
    UniformWork(t, vx, vy, cfx, cfy, c, u, t.Size(c));
    CellForcesBalance(t, xs, ys, pressure, cfx, cfy, c);
  }

  /** The volume summed by the inner density loop (omp3/hale.c:251-261 and
      479-488): the trapezoid rule over the cell's node ring. */
  method CellVolume(t: Connectivity, xs: seq<real>, ys: seq<real>, cc: int) returns (cellVolume: real)
    requires t.Valid() && t.nnodes <= |xs| && t.nnodes <= |ys| && 0 <= cc < t.ncells
    ensures cellVolume == PolygonVolume(Ring(t, xs, ys, cc))
  {
    ghost var ring := Ring(t, xs, ys, cc);
    var nodesOff := t.offsets[cc];
    var nnodesAroundCell := t.offsets[cc + 1] - nodesOff;
    cellVolume := 0.0;
    for nn := 0 to nnodesAroundCell
      invariant cellVolume == Sum(Trapezoids(ring)[..nn])
    {
      var nodeCIndex := t.nodes[nodesOff + nn];
      var nodeRIndex := if nn == nnodesAroundCell - 1 then t.nodes[nodesOff] else t.nodes[nodesOff + nn + 1];
      SumPrefixStep(Trapezoids(ring), nn);
      cellVolume := cellVolume + Trapezoid(Vec(xs[nodeCIndex], ys[nodeCIndex]), Vec(xs[nodeRIndex], ys[nodeRIndex]));
    }
    assert Trapezoids(ring)[..nnodesAroundCell] == Trapezoids(ring);
  }

  /** The inputs of the density update fit the mesh and no interior cell
      has collapsed to zero volume. */
  predicate DensityInputs(t: Connectivity, haloCell: seq<int>, xs: seq<real>, ys: seq<real>, cellMass: seq<real>)
  {
    && t.Valid() && t.nnodes <= |xs| && t.nnodes <= |ys| && t.ncells <= |haloCell| && t.ncells <= |cellMass|
    && forall cc :: 0 <= cc < t.ncells && haloCell[cc] == 0 ==> PolygonVolume(Ring(t, xs, ys, cc)) != 0.0
  }

  /** The density of every interior cell from its fixed mass and its volume
      at the given node positions (omp3/hale.c:242-264, at the predicted
      positions, and 471-492, at the corrected ones). */
  method UpdateDensity(t: Connectivity, haloCell: seq<int>, xs: seq<real>, ys: seq<real>, cellMass: seq<real>,
                       density: array<real>)
    requires DensityInputs(t, haloCell, xs, ys, cellMass) && t.ncells <= density.Length
    modifies density
    ensures forall cc :: 0 <= cc < t.ncells && haloCell[cc] == 0 ==>
      density[cc] == cellMass[cc] / PolygonVolume(Ring(t, xs, ys, cc))
    ensures forall cc :: 0 <= cc < density.Length && (t.ncells <= cc || haloCell[cc] != 0) ==>
      density[cc] == old(density[cc])
  {
    for cc := 0 to t.ncells
      invariant forall c :: 0 <= c < cc && haloCell[c] == 0 ==>
        density[c] == cellMass[c] / PolygonVolume(Ring(t, xs, ys, c))
      invariant forall c :: 0 <= c < density.Length && (cc <= c || haloCell[c] != 0) ==>
        density[c] == old(density[c])
    {
      if haloCell[cc] != 0 {
        continue;
      }
      var cellVolume := CellVolume(t, xs, ys, cc);
      density[cc] := cellMass[cc] / cellVolume;
    }
  }

  /** The updated density carries the cell's mass in its new volume,
      however that volume is split into the sub-cells around any centroid:
      the nodal gathers and the density update see the same volume. */
  lemma DensityKeepsMass(t: Connectivity, xs: seq<real>, ys: seq<real>, cellMass: real, density: real, cc: int,
                         centroid: Vec)
    requires t.Valid() && t.nnodes <= |xs| && t.nnodes <= |ys| && 0 <= cc < t.ncells
    requires PolygonVolume(Ring(t, xs, ys, cc)) != 0.0
    requires density == cellMass / PolygonVolume(Ring(t, xs, ys, cc))
    ensures density * Sum(SubCellVolumes(Ring(t, xs, ys, cc), centroid)) == cellMass
  {
    SubCellPartition(Ring(t, xs, ys, cc), centroid);
  }
}
