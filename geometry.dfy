/** Planar geometry of one cell, given as the ring of its node positions in
    the order the connectivity lists them: sub-cell volumes, the polygon
    volume, and the nodal area vectors. */
module Geometry {
  import opened Sums
  import opened Stencil

  datatype Vec = Vec(x: real, y: real)

  /** Dot product of two vectors. */
  function Dot(a: Vec, b: Vec): real
  {
    a.x * b.x + a.y * b.y
  }

  /** The vector a scaled by s. */
  function Scale(s: real, a: Vec): Vec
  {
    Vec(s * a.x, s * a.y)
  }

  /** Scaling commutes with the dot product. */
  lemma DotScale(s: real, a: Vec, b: Vec)
    ensures Dot(Scale(s, a), b) == s * Dot(a, b)
  {
  }

  /** The dot product distributes over vector addition. */
  lemma DotAdd(u: Vec, a: Vec, b: Vec)
    ensures Dot(u, Vec(a.x + b.x, a.y + b.y)) == Dot(u, a) + Dot(u, b)
  {
  }

  /** The x and the y components of a sequence of vectors. */
  function Xs(ring: seq<Vec>): (s: seq<real>)
    ensures |s| == |ring|
  {
    seq(|ring|, i requires 0 <= i < |ring| => ring[i].x)
  }

  function Ys(ring: seq<Vec>): (s: seq<real>)
    ensures |s| == |ring|
  {
    seq(|ring|, i requires 0 <= i < |ring| => ring[i].y)
  }

  function Midpoint(a: Vec, b: Vec): Vec
  {
    Vec(0.5 * (a.x + b.x), 0.5 * (a.y + b.y))
  }

  /** Shoelace volume of the quadrilateral (left edge midpoint, node, right
      edge midpoint, cell centroid) around node c, as omp3/hale.c:91-102
      and 335-346 compute it. */
  function SubCellVolume(l: Vec, c: Vec, r: Vec, centroid: Vec): real
  {
    var ml := Midpoint(l, c);
    var mr := Midpoint(c, r);
    0.5 * ((ml.x * c.y + c.x * mr.y + mr.x * centroid.y + centroid.x * ml.y) -
           (c.x * ml.y + mr.x * c.y + centroid.x * mr.y + ml.x * centroid.y))
  }

  /** The trapezoid term of edge c -> r that the density loops sum
      (omp3/hale.c:259-260, 485-487). */
  function Trapezoid(c: Vec, r: Vec): real
  {
    0.5 * (c.x + r.x) * (r.y - c.y)
  }

  /** Signed area of the triangle (centroid, a, b). */
  function FanArea(a: Vec, b: Vec, centroid: Vec): real
  {
    0.5 * ((a.x - centroid.x) * (b.y - centroid.y) - (b.x - centroid.x) * (a.y - centroid.y))
  }

  /** Area vector through node c from the two half edges next to it
      (omp3/hale.c:149-154, 379-384). */
  function AreaVector(l: Vec, c: Vec, r: Vec): Vec
  {
    Vec(0.5 * ((c.y - l.y) + (r.y - c.y)), -0.5 * ((c.x - l.x) + (r.x - c.x)))
  }

  /** The sub-cell volume of every node of a ring, in ring order. */
  function SubCellVolumes(ring: seq<Vec>, centroid: Vec): (v: seq<real>)
    ensures |v| == |ring|
  {
    seq(|ring|, i requires 0 <= i < |ring| =>
      SubCellVolume(ring[LeftOf(|ring|, i)], ring[i], ring[RightOf(|ring|, i)], centroid))
  }

  /** The trapezoid term of every edge of a ring, edge i running from node i
      to its right neighbour. */
  function Trapezoids(ring: seq<Vec>): (v: seq<real>)
    ensures |v| == |ring|
  {
    seq(|ring|, i requires 0 <= i < |ring| => Trapezoid(ring[i], ring[RightOf(|ring|, i)]))
  }

  /** Polygon volume by the trapezoid (shoelace) rule over the full ring. */
  function PolygonVolume(ring: seq<Vec>): real
  {
    Sum(Trapezoids(ring))
  }

  /** x and y components of every node's area vector, in ring order. */
  function AreaVectorsX(ring: seq<Vec>): (v: seq<real>)
    ensures |v| == |ring|
  {
    seq(|ring|, i requires 0 <= i < |ring| =>
      AreaVector(ring[LeftOf(|ring|, i)], ring[i], ring[RightOf(|ring|, i)]).x)
  }

  function AreaVectorsY(ring: seq<Vec>): (v: seq<real>)
    ensures |v| == |ring|
  {
    seq(|ring|, i requires 0 <= i < |ring| =>
      AreaVector(ring[LeftOf(|ring|, i)], ring[i], ring[RightOf(|ring|, i)]).y)
  }

  /** A sub-cell is half of each of the two fan triangles on the edges
      through its node. */
  lemma SubCellSplit(l: Vec, c: Vec, r: Vec, centroid: Vec)
    ensures SubCellVolume(l, c, r, centroid) == 0.5 * FanArea(l, c, centroid) + 0.5 * FanArea(c, r, centroid)
  {
  }

  function TelescopeTerm(v: Vec, centroid: Vec): real
  {
    0.5 * (centroid.x * v.y - centroid.y * v.x) + 0.5 * v.x * v.y
  }

  /** A fan triangle differs from the trapezoid of the same edge by a term
      that telescopes around the ring. */
  lemma FanTrapezoid(a: Vec, b: Vec, centroid: Vec)
    ensures FanArea(a, b, centroid) == Trapezoid(a, b) + TelescopeTerm(a, centroid) - TelescopeTerm(b, centroid)
  {
  }

  /** Halving each entry and sharing it with the right neighbour keeps the
      sum of a ring's values. */
  lemma {:induction false} SumOfSharedHalves(sv: seq<real>, fan: seq<real>)
    requires |sv| == |fan| >= 1
    requires forall i {:trigger sv[i]} :: 0 <= i < |sv| ==> sv[i] == 0.5 * fan[LeftOf(|fan|, i)] + 0.5 * fan[i]
    ensures Sum(sv) == Sum(fan)
  {
    var n := |fan|;
    var fanL := seq(n, i requires 0 <= i < n => fan[LeftOf(n, i)]);
    var half := seq(n, i requires 0 <= i < n => 0.5 * fan[i]);
    var halfL := seq(n, i requires 0 <= i < n => 0.5 * fanL[i]);
    assert Sum(fanL) == Sum(fan) by {
      SumLeftRotation(fan, fanL);
    }
    assert Sum(half) == 0.5 * Sum(fan) by {
      SumScale(fan, half, 0.5);
    }
    assert Sum(halfL) == 0.5 * Sum(fanL) by {
      SumScale(fanL, halfL, 0.5);
    }
    assert Sum(sv) == Sum(halfL) + Sum(half) by {
      SumAdd(halfL, half, sv);
    }
  }

  /** A term that is added at a node and taken away at its left neighbour
      cancels around the ring. */
  lemma {:induction false} SumTelescopes(fan: seq<real>, trap: seq<real>, g: seq<real>)
    requires |fan| == |trap| == |g| >= 1
    requires forall i {:trigger fan[i]} :: 0 <= i < |fan| ==> fan[i] == trap[i] + (g[i] - g[RightOf(|g|, i)])
    ensures Sum(fan) == Sum(trap)
  {
    var n := |g|;
    var gR := seq(n, i requires 0 <= i < n => g[RightOf(n, i)]);
    var d := seq(n, i requires 0 <= i < n => g[i] - gR[i]);
    SumAdd(trap, d, fan);
    SumAdd(d, gR, g);
    SumRightRotation(g, gR);
  }

  /** Each node's right neighbour value minus its left neighbour value. */
  function NeighbourDifferences(s: seq<real>): (d: seq<real>)
    ensures |d| == |s|
  {
    seq(|s|, i requires 0 <= i < |s| => s[RightOf(|s|, i)] - s[LeftOf(|s|, i)])
  }

  /** The neighbour differences around a ring cancel. */
  lemma NeighbourDifferencesCancel(s: seq<real>)
    requires |s| >= 1
    ensures Sum(NeighbourDifferences(s)) == 0.0
  {
    var n := |s|;
    var sR := seq(n, i requires 0 <= i < n => s[RightOf(n, i)]);
    var sL := seq(n, i requires 0 <= i < n => s[LeftOf(n, i)]);
    SumRightRotation(s, sR);
    SumLeftRotation(s, sL);
    SumAdd(NeighbourDifferences(s), sL, sR);
  }

  /** The difference between each node's right and left neighbour values
      sums to zero around the ring, whatever the scale factor. */
  lemma SumOfNeighbourDifferences(s: seq<real>, t: seq<real>, a: real)
    requires |s| == |t| >= 1
    requires forall i {:trigger t[i]} :: 0 <= i < |t| ==> t[i] == a * (s[RightOf(|s|, i)] - s[LeftOf(|s|, i)])
    ensures Sum(t) == 0.0
  {
    var d := NeighbourDifferences(s);
    NeighbourDifferencesCancel(s);
    forall i | 0 <= i < |t|
      ensures t[i] == a * d[i]
    {
    }
    ScaledTotal(d, t, a, 0.0);
  }

  function FanAreas(ring: seq<Vec>, centroid: Vec): (v: seq<real>)
    ensures |v| == |ring|
  {
    seq(|ring|, i requires 0 <= i < |ring| => FanArea(ring[i], ring[RightOf(|ring|, i)], centroid))
  }

  /** Sub-cell partition: whatever point is used as the centroid, the
      sub-cell volumes of a cell add up exactly to the polygon volume that
      the density update computes. So the volume the mass loop distributes
      to nodes is the cell's own volume. */
  lemma SubCellPartition(ring: seq<Vec>, centroid: Vec)
    ensures Sum(SubCellVolumes(ring, centroid)) == PolygonVolume(ring)
  {
    var n := |ring|;
    if n == 0 {
      assert SubCellVolumes(ring, centroid) == [] && Trapezoids(ring) == [];
    } else {
      var sv, fan := SubCellVolumes(ring, centroid), FanAreas(ring, centroid);
      forall i | 0 <= i < n
        ensures sv[i] == 0.5 * fan[LeftOf(n, i)] + 0.5 * fan[i]
      {
        StencilInverse(n, i);
        SubCellSplit(ring[LeftOf(n, i)], ring[i], ring[RightOf(n, i)], centroid);
      }
      SumOfSharedHalves(sv, fan);
      var trap := Trapezoids(ring);
      var g := seq(n, i requires 0 <= i < n => TelescopeTerm(ring[i], centroid));
      forall i | 0 <= i < n
        ensures fan[i] == trap[i] + (g[i] - g[RightOf(n, i)])
      {
        FanTrapezoid(ring[i], ring[RightOf(n, i)], centroid);
      }
      SumTelescopes(fan, trap, g);
    }
  }

  /** The area vectors of a closed ring cancel: a cell under uniform pressure
      pushes its nodes with zero net force. */
  lemma AreaVectorsBalance(ring: seq<Vec>)
    ensures Sum(AreaVectorsX(ring)) == 0.0
    ensures Sum(AreaVectorsY(ring)) == 0.0
  {
    var n := |ring|;
    if n == 0 {
      assert AreaVectorsX(ring) == [] && AreaVectorsY(ring) == [];
    } else {
      var ys := seq(n, i requires 0 <= i < n => ring[i].y);
      var xs := seq(n, i requires 0 <= i < n => ring[i].x);
      SumOfNeighbourDifferences(ys, AreaVectorsX(ring), 0.5);
      SumOfNeighbourDifferences(xs, AreaVectorsY(ring), -0.5);
    }
  }
}
