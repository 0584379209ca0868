/** The ideal-gas equation of state for interior cells and the copy of
    interior values into halo cells (handle_cell_boundary). */
module Pressure {
  import opened Topology

  /** Ideal-gas pressure from specific internal energy and density. */
  function IdealGasPressure(energy: real, density: real): (p: real)
    ensures energy >= 0.0 && density >= 0.0 ==> p >= 0.0
    ensures energy == 2.5 && density == 1.0 ==> p == 1.0
  {
    (GAM - 1.0) * energy * density
  }

  /** Every halo cell among the first ncells names a cell to copy from. */
  predicate HaloCellsValid(ncells: int, haloCell: seq<int>)
  {
    && 0 <= ncells <= |haloCell|
    && forall cc :: 0 <= cc < ncells && haloCell[cc] != 0 ==> 0 <= haloCell[cc] < ncells
  }

  /** Pressure of every interior cell from the equation of state; halo cells
      are left for the boundary fill (omp3/hale.c:33-40). */
  method EquationOfState(ncells: int, haloCell: seq<int>, energy: seq<real>, density: seq<real>,
                         pressure: array<real>)
    requires 0 <= ncells <= |haloCell| && ncells <= |energy| && ncells <= |density|
    requires ncells <= pressure.Length
    modifies pressure
    ensures forall cc :: 0 <= cc < ncells && haloCell[cc] == 0 ==>
      pressure[cc] == IdealGasPressure(energy[cc], density[cc])
    ensures forall cc :: 0 <= cc < pressure.Length && (ncells <= cc || haloCell[cc] != 0) ==>
      pressure[cc] == old(pressure[cc])
  {
    for cc := 0 to ncells
      invariant forall c :: 0 <= c < cc && haloCell[c] == 0 ==>
        pressure[c] == IdealGasPressure(energy[c], density[c])
      invariant forall c :: 0 <= c < pressure.Length && (cc <= c || haloCell[c] != 0) ==>
        pressure[c] == old(pressure[c])
    {
      if haloCell[cc] != 0 {
        continue;
      }
      pressure[cc] := (GAM - 1.0) * energy[cc] * density[cc];
    }
  }

  /** Time-centred pressure of the predictor: the mean of the start-of-step
      pressure and the equation of state at the predicted energy and density
      (omp3/hale.c:268-278). */
  method TimeCentredPressure(ncells: int, haloCell: seq<int>, pressure0: seq<real>, energy1: seq<real>,
                             density1: seq<real>, pressure1: array<real>)
    requires 0 <= ncells <= |haloCell| && ncells <= |pressure0| && ncells <= |energy1| && ncells <= |density1|
    requires ncells <= pressure1.Length
    modifies pressure1
    ensures forall cc :: 0 <= cc < ncells && haloCell[cc] == 0 ==>
      pressure1[cc] == 0.5 * (pressure0[cc] + IdealGasPressure(energy1[cc], density1[cc]))
    ensures forall cc :: 0 <= cc < pressure1.Length && (ncells <= cc || haloCell[cc] != 0) ==>
      pressure1[cc] == old(pressure1[cc])
  {
    for cc := 0 to ncells
      invariant forall c :: 0 <= c < cc && haloCell[c] == 0 ==>
        pressure1[c] == 0.5 * (pressure0[c] + IdealGasPressure(energy1[c], density1[c]))
      invariant forall c :: 0 <= c < pressure1.Length && (cc <= c || haloCell[c] != 0) ==>
        pressure1[c] == old(pressure1[c])
    {
      if haloCell[cc] != 0 {
        continue;
      }
      pressure1[cc] := (GAM - 1.0) * energy1[cc] * density1[cc];
      assert pressure1[cc] == IdealGasPressure(energy1[cc], density1[cc]);
      pressure1[cc] := 0.5 * (pressure0[cc] + pressure1[cc]);
    }
  }

  /** The array after the sequential halo fill has visited cells 0 .. k-1:
      each halo cell takes the value its neighbour holds at that moment. */
  function CellBoundaryFill(s: seq<real>, haloCell: seq<int>, k: int): (r: seq<real>)
    requires 0 <= k <= |haloCell| && k <= |s|
    requires forall cc :: 0 <= cc < k && haloCell[cc] != 0 ==> 0 <= haloCell[cc] < |s|
    ensures |r| == |s|
    decreases k
  {
    if k == 0 then s
    else
      var t := CellBoundaryFill(s, haloCell, k - 1);
      if haloCell[k - 1] != 0 then t[k - 1 := t[haloCell[k - 1]]] else t
  }

  /** Fill halo cells from the cells they name (omp3/hale.c:629-639). */
  method HandleCellBoundary(ncells: int, haloCell: seq<int>, arr: array<real>)
    requires HaloCellsValid(ncells, haloCell) && ncells <= arr.Length
    modifies arr
    ensures arr[..] == CellBoundaryFill(old(arr[..]), haloCell, ncells)
  {
    for cc := 0 to ncells
      invariant arr[..] == CellBoundaryFill(old(arr[..]), haloCell, cc)
    {
      if haloCell[cc] != 0 {
        var neighbourIndex := haloCell[cc];
        arr[cc] := arr[neighbourIndex];
      }
    }
  }

  /** The fill never changes an interior cell, nor any entry it has not
      reached. */
  lemma {:induction false} FillKeepsInterior(s: seq<real>, haloCell: seq<int>, k: int, cc: int)
    requires 0 <= k <= |haloCell| && k <= |s|
    requires forall c :: 0 <= c < k && haloCell[c] != 0 ==> 0 <= haloCell[c] < |s|
    requires 0 <= cc < |s| && (k <= cc || haloCell[cc] == 0)
    ensures CellBoundaryFill(s, haloCell, k)[cc] == s[cc]
    decreases k
  {
    if k > 0 {
      FillKeepsInterior(s, haloCell, k - 1, cc);
    }
  }

  /** A halo cell ends with the value its neighbour held when the loop reached
      the halo cell; later iterations never touch it again. */
  lemma {:induction false} FillReadsAtTurn(s: seq<real>, haloCell: seq<int>, k: int, cc: int)
    requires 0 <= k <= |haloCell| && k <= |s|
    requires forall c :: 0 <= c < k && haloCell[c] != 0 ==> 0 <= haloCell[c] < |s|
    requires 0 <= cc < k && haloCell[cc] != 0
    ensures CellBoundaryFill(s, haloCell, k)[cc] == CellBoundaryFill(s, haloCell, cc)[haloCell[cc]]
    decreases k
  {
    if k > cc + 1 {
      FillReadsAtTurn(s, haloCell, k - 1, cc);
    }
  }

  /** A halo cell whose named cell is interior receives that cell's
      original value. */
  lemma FillFromInteriorNeighbour(s: seq<real>, haloCell: seq<int>, k: int, cc: int)
    requires 0 <= k <= |haloCell| && k <= |s|
    requires forall c :: 0 <= c < k && haloCell[c] != 0 ==> 0 <= haloCell[c] < |s|
    requires 0 <= cc < k && haloCell[cc] != 0 && haloCell[cc] < |haloCell| && haloCell[haloCell[cc]] == 0
    ensures CellBoundaryFill(s, haloCell, k)[cc] == s[haloCell[cc]]
  {
    FillReadsAtTurn(s, haloCell, k, cc);
    FillKeepsInterior(s, haloCell, cc, haloCell[cc]);
  }

  /** Pressure after the equation of state and the halo fill (lines 34-42):
      interior cells hold the ideal-gas pressure of their own state, and a
      halo cell whose neighbour is interior holds the neighbour's. */
  lemma PressureAfterBoundary(ncells: int, haloCell: seq<int>, energy: seq<real>, density: seq<real>,
                              eos: seq<real>, filled: seq<real>)
    requires HaloCellsValid(ncells, haloCell) && ncells <= |energy| && ncells <= |density| && ncells <= |eos|
    requires forall cc :: 0 <= cc < ncells && haloCell[cc] == 0 ==> eos[cc] == IdealGasPressure(energy[cc], density[cc])
    requires filled == CellBoundaryFill(eos, haloCell, ncells)
    ensures forall cc :: 0 <= cc < ncells && haloCell[cc] == 0 ==>
      filled[cc] == IdealGasPressure(energy[cc], density[cc])
    ensures forall cc :: 0 <= cc < ncells && haloCell[cc] != 0 && haloCell[haloCell[cc]] == 0 ==>
      filled[cc] == IdealGasPressure(energy[haloCell[cc]], density[haloCell[cc]])
  {
    forall cc | 0 <= cc < ncells && haloCell[cc] == 0
      ensures filled[cc] == IdealGasPressure(energy[cc], density[cc])
    {
      FillKeepsInterior(eos, haloCell, ncells, cc);
    }
    forall cc | 0 <= cc < ncells && haloCell[cc] != 0 && haloCell[haloCell[cc]] == 0
      ensures filled[cc] == IdealGasPressure(energy[haloCell[cc]], density[haloCell[cc]])
    {
      FillFromInteriorNeighbour(eos, haloCell, ncells, cc);
    }
  }
}
