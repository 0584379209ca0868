# A verified model of the hale Lagrangian hydro step

This project models, in Dafny, one timestep of the two-dimensional
unstructured Lagrangian hydrodynamics solver `solve_unstructured_hydro_2d`
in `omp3/hale.c`. It also models the routines that step calls:
`calculate_artificial_viscosity`, `handle_unstructured_reflect_2d`,
`handle_cell_boundary` and `handle_node_boundary`.

The step is a predictor followed by a corrector. Each phase is one
sequential loop over cells or nodes, and each becomes one Dafny method over
`array<real>` with loop invariants. Each method is proved against a
specification function, and the lemmas beside it state what the phase
guarantees. The phases are:

- the ideal-gas equation of state and the copy of interior values into halo cells;
- cell centroids;
- nodal mass, volume and sound speed gathered from shoelace sub-cell volumes;
- pressure forces scattered from cells to nodes;
- artificial viscosity;
- the velocity boundary condition and the node halo fill;
- the CFL timestep;
- the velocity, position, energy and density updates.

The mesh is the ragged cell-to-node connectivity (`cells_to_nodes_off`,
`cells_to_nodes`), bundled as `Topology.Connectivity`. The ring of a cell is
the list of its node positions in the order the connectivity gives them.
The timestep `mesh->dt` is the field `dt` of the class `Timestep.Mesh`.
`CflTimestep` writes it, and the update methods read it.

Arithmetic is over `real`, an exact stand-in for `double`. The square root
is a parameter `sqrt: real -> real` about which nothing is assumed. Every
division outside the abstract viscous force becomes a precondition that its
divisor is non-zero. The exception is the 1/N at omp3/hale.c:48; see
"## Left out".

Facts that the proofs rely on or that they brought out:

- Over exact arithmetic, the ghost branch of `handle_unstructured_reflect_2d`
  adds exactly zero to the neighbour node, at omp3/hale.c:620-623.
  - The projected velocity is parallel to the face.
  - Its reflection therefore has no component along the normal.
  - `Halo.ReflectGhostNode` still performs the add. `Halo.ReflectGhostProjects`
    proves that it is zero, so each reflected node's result depends on that
    node alone.
- The source reads `halo_neighbour[index]` at omp3/hale.c:595 before it tests
  for `IS_BOUNDARY`. For a boundary node that index is a sentinel, not a
  table entry. The model reads the neighbour only in the ghost branch, where
  the index is valid.
- Whatever point serves as the centroid, the sub-cell volumes that the mass
  loop distributes add up exactly to the trapezoid-rule volume that the
  density loop computes (`Geometry.SubCellPartition`).
- The equation of state follows the code. With `GAM = 1.4`, a specific
  energy of 2.5 and a density of 1 it gives a pressure of 1.0.

## Model

| member | source | states |
|---|---|---|
| Stencil.LeftInSlice | omp3/hale.c:81-83 | the left read of node nn in a ring of n nodes at offset off is off + (nn - 1 + n) mod n, inside the cell's slice |
| Stencil.RightInSlice | omp3/hale.c:85-86 | the right read is off + (nn + 1) mod n, inside the cell's slice |
| Pressure.IdealGasPressure | omp3/hale.c:39 | the ideal-gas pressure is non-negative for non-negative energy and density; for energy 2.5 and density 1 it is 1.0 |
| Pressure.EquationOfState | omp3/hale.c:34-40 | every interior cell gets (GAM - 1)·energy·density; halo cells and every entry past ncells are unchanged |
| Pressure.HandleCellBoundary | omp3/hale.c:629-639 | the array afterwards equals the sequential fill, where each halo cell takes the value its named cell holds at that point in the loop |
| Pressure.FillKeepsInterior | omp3/hale.c:633-638 | the fill never changes an interior cell, nor a cell the loop has not reached |
| Pressure.FillReadsAtTurn | omp3/hale.c:634-636 | a halo cell ends with the value its named cell held when the loop reached the halo cell |
| Pressure.FillFromInteriorNeighbour | omp3/hale.c:634-636 | a halo cell whose named cell is interior receives that cell's original value |
| Pressure.PressureAfterBoundary | omp3/hale.c:34-42 | after the equation of state and the fill, interior cells hold their own ideal-gas pressure, and halo cells named to an interior cell hold that cell's pressure |
| Pressure.TimeCentredPressure | omp3/hale.c:268-278 | every interior cell gets the mean of its start pressure and the ideal-gas pressure at the predicted energy and density; other entries are unchanged |
| Centroids.CellCentroid | omp3/hale.c:46-56 | the accumulated centroid is the arithmetic mean of the x and of the y coordinates of the cell's nodes |
| Centroids.CalculateCentroids | omp3/hale.c:45-57 | every cell, halo cells included, gets the mean of its nodes (also at 297-309); entries past ncells are unchanged |
| Centroids.ScaledSumIsMean | omp3/hale.c:48-55 | adding each coordinate times 1/N, in ring order, yields the mean |
| Centroids.MeanBounds | omp3/hale.c:45-57 | a centroid lies within the bounds of its nodes' coordinates |
| Geometry.SubCellPartition | omp3/hale.c:91-105 | the shoelace sub-cell volumes of a cell add up to its trapezoid-rule polygon volume, for any centroid |
| Geometry.AreaVectorsBalance | omp3/hale.c:149-154 | the nodal area vectors of a closed ring add up to zero in x and in y |
| NodalFields.StencilSubCellVolume | omp3/hale.c:80-102 | the sub-cell volume computed from the explicit left/centre/right stencil is the ring's sub-cell volume around the centroid (also at 323-346) |
| NodalFields.ScatterPredictorCell | omp3/hale.c:72-113 | one cell's loop returns the sum of its sub-cell volumes and scatter-adds density·volume, volume and sound speed·volume onto each node of its ring |
| NodalFields.AddSubCell | omp3/hale.c:107-112 | adding one sub-cell to its node extends, by that sub-cell, each node's mass, volume and sound speed beyond their start values: the gathered density·volume, volume and sound speed·volume of the sub-cells scattered so far |
| NodalFields.ScatterInteriorCell | omp3/hale.c:67-117 | each node's three fields grow from the totals of cells 0..cc-1 to those of 0..cc; the cell volume is the polygon volume |
| NodalFields.ClearNodalFields | omp3/hale.c:59-63 | nodal mass, volume and sound speed are all zero |
| NodalFields.NodalMassAndVolumes | omp3/hale.c:59-118 | each node holds the gathered sub-cell totals of the interior cells; each interior cell's mass is density·volume, others unchanged; total_mass is the interior cells' mass and equals the sum of the nodal masses |
| NodalFields.NodalTotalsSum | omp3/hale.c:67-118 | conservation: the nodal totals add up to the amount held by the interior cells |
| NodalFields.NodalMassTotal | omp3/hale.c:107-117 | nodal values equal to the totals of all cells add up to the interior cells' amount |
| NodalFields.HaloCellsContributeNothing | omp3/hale.c:68-70 | a node's total does not depend on the coefficient of any halo cell |
| NodalFields.CellMassIsAmount | omp3/hale.c:116 | density times the accumulated cell volume is the cell's amount |
| NodalFields.AddCorrectorSubCell | omp3/hale.c:349-353 | adding one sub-cell to its node extends, by that sub-cell, each node's volume and sound speed beyond their start values: the gathered volume and sound speed·volume of the sub-cells scattered so far |
| NodalFields.ScatterCorrectorCell | omp3/hale.c:317-354 | one cell's corrector loop scatter-adds volume and sound speed·volume onto each node of its ring |
| NodalFields.NodalVolumesAndSoundspeed | omp3/hale.c:311-355 | each node's volume and sound speed grow by the gathered sub-cell totals of the interior cells at the predicted positions and energies |
| NodalFields.NormaliseSoundspeedAndClearForces | omp3/hale.c:125-129 | every node's sound speed is divided by its volume, and both node forces are zero |
| NodalFields.NormaliseSoundspeed | omp3/hale.c:357-359 | every node's sound speed is divided by its volume |
| Halo.HandleNodeBoundary | omp3/hale.c:642-652 | the array afterwards equals the sequential node fill, where each ghost node takes its neighbour's value at that point in the loop |
| Halo.NodeFillKeeps | omp3/hale.c:645-651 | interior nodes, boundary nodes and nodes not yet reached are unchanged |
| Halo.NodeFillReadsAtTurn | omp3/hale.c:646-649 | a ghost node ends with the value its neighbour held when the loop reached the ghost node |
| Halo.NodeFillFromSettledNeighbour | omp3/hale.c:646-649 | a ghost node whose neighbour is not a ghost receives the neighbour's original value |
| Halo.FaceDirection | omp3/hale.c:604-605 | the face direction is perpendicular to the normal |
| Halo.Tangential | omp3/hale.c:606-609 | the projected velocity has no component along the normal |
| Halo.TangentialIdempotent | omp3/hale.c:604-609 | for a unit normal, projecting twice equals projecting once |
| Halo.ReflectedTangentialIsTangential | omp3/hale.c:612-617 | the reflection of a projected velocity still has no component along the normal |
| Halo.ReflectGhostProjects | omp3/hale.c:602-624 | the ghost branch writes the projection to the node and leaves the neighbour's value as it was |
| Halo.ReflectedNode | omp3/hale.c:590-624 | a ghost node's new velocity has no component along its face normal |
| Halo.ReflectFillAt | omp3/hale.c:589-625 | each visited node holds its interior, zeroed or projected velocity, a function of its own start velocity alone; unvisited nodes are unchanged |
| Halo.ReflectGhostIdempotent | omp3/hale.c:602-624 | for a unit normal, applying the ghost branch a second time to the same node changes no velocity |
| Halo.ReflectGhostNode | omp3/hale.c:602-624 | the in-place ghost branch computes the projection, the reflection and the add-back to the neighbour |
| Halo.HandleUnstructuredReflect | omp3/hale.c:584-626 | the velocities afterwards equal the sequential reflect loop: interior nodes skipped, boundary nodes zeroed, ghost nodes projected |
| Forces.StencilAreaVector | omp3/hale.c:137-154 | the area vector computed from the explicit stencil is the ring's area vector at that node |
| Forces.PressureForceCell | omp3/hale.c:133-160 | each slot of the cell holds pressure times its area vector, the node forces gain exactly those slots, and other slots are unchanged |
| Forces.PressureForces | omp3/hale.c:131-161 | every slot holds its cell's pressure force (also at 361-391); every node force grows by the sum of the slots that name it |
| Forces.StoreAndScatter | omp3/hale.c:156-159 | storing a slot's force and adding it to its node keeps every node force equal to its start value plus the stored forces of the slots that name it |
| Forces.CellSlotForces | omp3/hale.c:156-159 | a cell's slice of the cell forces is its pressure times its area vectors |
| Forces.CellForcesBalance | omp3/hale.c:149-159 | the pressure forces of one cell add up to zero |
| Forces.StoredForcesBalance | omp3/hale.c:132-161 | the stored cell forces of cells 0..k-1 add up to zero |
| Forces.NetPressureForceZero | omp3/hale.c:156-157 | the pressure pass leaves the sums of the node forces unchanged |
| Viscosity.MoveEdgeForce | omp3/hale.c:574-577 | the edge force is subtracted from the edge's first node and added to its second; nothing else changes |
| Viscosity.ViscousCell | omp3/hale.c:511-579 | each edge whose expansion term is at most zero moves its force from node c to node r; expanding edges move nothing |
| Viscosity.CalculateArtificialViscosity | omp3/hale.c:496-581 | the node forces change by the gated edge forces of the interior cells only, and their sums in x and y are unchanged |
| Viscosity.ViscousTotalStep | omp3/hale.c:506-580 | scattering one more interior cell extends the running per-node viscous total by that cell |
| Viscosity.EdgeScatteredSum | omp3/hale.c:574-577 | an antisymmetric edge scatter leaves the sum of the array unchanged |
| Viscosity.CellConserves | omp3/hale.c:574-577 | one cell's edge scatter leaves the sums of the node forces unchanged |
| Viscosity.ExpandingCellMovesNothing | omp3/hale.c:557-561 | a cell with no compressing edge adds nothing to any node |
| Timestep.Min | omp3/hale.c:230-235 | the minimum is at most both arguments and equal to one of them |
| Timestep.CellShortestEdge | omp3/hale.c:222-233 | the loop yields the running minimum of the cell's edge lengths, seeded with 1e10 |
| Timestep.CflTimestep | omp3/hale.c:212-240 | mesh.dt becomes the running minimum over the interior cells of CFL·shortest edge/sound speed, seeded with 1e10 (also at 420-448) |
| Timestep.ShortestEdgeIsMinimum | omp3/hale.c:222-233 | the shortest edge is at most 1e10 and at most every edge, and it is 1e10 or one of the edges |
| Timestep.TimestepIsMinimum | omp3/hale.c:213-238 | dt ≤ 1e10, dt ≤ every interior cell's candidate, and dt is 1e10 or one of those candidates |
| Integrate.PredictVelocities | omp3/hale.c:171-179 | each node's new velocity is the mean of its start velocity and its start velocity kicked by dt·force/mass |
| Integrate.HalfStepKick | omp3/hale.c:173-178 | that mean is the start velocity kicked for half the step |
| Integrate.KickIsImpulse | omp3/hale.c:173-174 | a kick changes the node's momentum by dt·force |
| Integrate.MomentumGain | omp3/hale.c:171-175 | the kicks change the total momentum by dt times the total force |
| Integrate.BalancedKickKeepsMomentum | omp3/hale.c:171-175 | forces that sum to zero leave the total momentum unchanged |
| Integrate.CorrectVelocities | omp3/hale.c:400-408 | the time-centred velocity is kicked by the corrector force, and the start velocity is replaced by its mean with the result |
| Integrate.MoveNodes | omp3/hale.c:186-189 | each node moves to its position plus dt·velocity (also 415-418 in place) |
| Integrate.NodesStayOnBoundary | omp3/hale.c:181-189 | after the reflect loop, a boundary node does not move and a ghost node moves along its face, with no component along the normal |
| Integrate.HalfStepDrift | omp3/hale.c:283-286 | the time-centred predicted position is the start position drifted for half the step |
| Integrate.PrepareCorrector | omp3/hale.c:283-290 | the predicted positions become their mean with the start positions; node forces, nodal volumes and sound speeds are zero |
| Integrate.CellWork | omp3/hale.c:199-207 | the loop yields the sum over the cell's slots of node velocity · sub-cell force |
| Integrate.UpdateEnergy | omp3/hale.c:192-210 | every interior cell's energy drops by dt·work/cell mass (also 450-468 in place); other entries are unchanged |
| Integrate.SpendIsWork | omp3/hale.c:209 | the cell mass times the energy change is minus dt times the work rate |
| Integrate.UniformWork | omp3/hale.c:199-207 | if all nodes of a cell share one velocity, the work is that velocity against the sum of the cell's forces |
| Integrate.RigidTranslationDoesNoWork | omp3/hale.c:192-210 | a cell whose nodes all move at one velocity does no pressure work |
| Integrate.CellVolume | omp3/hale.c:251-261 | the loop yields the trapezoid-rule polygon volume of the cell |
| Integrate.UpdateDensity | omp3/hale.c:242-264 | every interior cell's density becomes mass/polygon volume (also 471-492); other entries are unchanged |
| Integrate.DensityKeepsMass | omp3/hale.c:263 | the new density times the sum of the cell's sub-cell volumes, about any centroid, is the cell mass |

## Left out

- Floating point. Rounding, NaN and infinities are not modelled; arithmetic is exact `real`.
- The square root is a parameter with no assumed property.
  - This covers the sound speed at omp3/hale.c:111, 234, 350 and 442.
  - It covers the edge length at 231 and 439.
  - It covers the viscous term.
- The viscous force magnitude at omp3/hale.c:538-570 is an abstract function `viscousForce(cc, nn)`.
  - It stands for the edge density, the minimum sound speed, the limiter, `visc_coeff1/2`, `fabs` and the unit velocity jump.
  - Only the compression gate and the antisymmetric scatter are modelled.
- Division by zero is excluded by preconditions that the divisor is non-zero:
  - nodal volumes at omp3/hale.c:128 and 358;
  - nodal mass at 173 and 402;
  - cell mass at 209 and 467;
  - the sound speed at 235 and 443;
  - the cell volume at 263 and 491.
- Centroids.CellCentroid: a cell with no nodes gets centroid 0, as in the source. The source's `1.0/0` at omp3/hale.c:48 is never used, so the model does not compute it.
- Halo.HandleUnstructuredReflect: the source reads `halo_neighbour[index]` at omp3/hale.c:595 for every halo node, including `IS_BOUNDARY` nodes, where the index is a sentinel outside the table. That out-of-table read is not reproduced: the model reads the neighbour only in the ghost branch.
- `printf` output at omp3/hale.c:120, 239 and 447 is not modelled. The total mass is returned by `NodalFields.NodalMassAndVolumes` instead.
- Constants from headers that are not part of this model:
  - `CFL` is a parameter `cfl` of `Timestep.CflTimestep`.
  - `min` is `Timestep.Min`, the first argument when strictly smaller. It is used at omp3/hale.c:230-231 and 235, and again at 438-439 and 443.
  - `IS_NOT_HALO` and `IS_BOUNDARY` are the distinct negative constants -1 and -2.
- The unused constants `c1` and `c2` at omp3/hale.c:26-27, and the `#if 0` limiter block at 654-702. `limiter` only feeds the abstract viscous force.
- The order in which `solve_unstructured_hydro_2d` calls its phases is not one Dafny method. Each phase is its own method. Lemmas connect the phases that depend on each other:
  - reflect then move (`Integrate.NodesStayOnBoundary`);
  - pressure forces then energy (`Integrate.RigidTranslationDoesNoWork`);
  - mass then density (`Integrate.DensityKeepsMass`).
- In-place updates whose new value reads only the same entry are modelled as a method that takes the old contents as a value and writes the array. This covers `energy0 -=` at omp3/hale.c:467 and `nodes_x0 +=` at 416-417.
- The 32-bit width of the C `int` indices is not modelled; indices are unbounded integers.
- hale_data.c, cuda/hale.c and the prototypes in hale_interface.h are not part of this model. Only `GAM` (hale_interface.h:12) is taken from them.
