/** The node halo routines: the copy of interior values into ghost nodes
    (handle_node_boundary) and the velocity boundary condition
    (handle_unstructured_reflect_2d). A node's halo_index is IS_NOT_HALO for
    an interior node, IS_BOUNDARY for an artificial boundary node, and
    otherwise names the entry of the halo tables (halo_neighbour, the normals)
    that belongs to the ghost node. */
module Halo {
  import opened Geometry
  import opened Topology

  /** A halo index that names a table entry rather than a sentinel. */
  predicate IsGhost(index: int)
  {
    index != IS_BOUNDARY && index != IS_NOT_HALO
  }

  /** Every ghost node among the first nnodes names an entry of the halo
      tables, and that entry names one of the m nodes. */
  predicate NodeHaloValid(nnodes: int, haloIndex: seq<int>, haloNeighbour: seq<int>, m: int)
  {
    && 0 <= nnodes <= |haloIndex|
    && forall nn :: 0 <= nn < nnodes && IsGhost(haloIndex[nn]) ==>
         0 <= haloIndex[nn] < |haloNeighbour| && 0 <= haloNeighbour[haloIndex[nn]] < m
  }

  /** The array after the sequential node fill has visited nodes 0 .. k-1:
      each ghost node takes the value its neighbour holds at that moment. */
  function NodeBoundaryFill(s: seq<real>, haloIndex: seq<int>, haloNeighbour: seq<int>, k: int): (r: seq<real>)
    requires NodeHaloValid(k, haloIndex, haloNeighbour, |s|) && k <= |s|
    ensures |r| == |s|
    decreases k
  {
    if k == 0 then s
    else
      var t := NodeBoundaryFill(s, haloIndex, haloNeighbour, k - 1);
      if IsGhost(haloIndex[k - 1]) then t[k - 1 := t[haloNeighbour[haloIndex[k - 1]]]] else t
  }

  /** Fill ghost nodes from the nodes they are paired with
      (omp3/hale.c:642-652). */
  method HandleNodeBoundary(nnodes: int, haloIndex: seq<int>, haloNeighbour: seq<int>, arr: array<real>)
    requires NodeHaloValid(nnodes, haloIndex, haloNeighbour, arr.Length) && nnodes <= arr.Length
    modifies arr
    ensures arr[..] == NodeBoundaryFill(old(arr[..]), haloIndex, haloNeighbour, nnodes)
  {
    for nn := 0 to nnodes
      invariant arr[..] == NodeBoundaryFill(old(arr[..]), haloIndex, haloNeighbour, nn)
    {
      var index := haloIndex[nn];
      if index != IS_BOUNDARY && index != IS_NOT_HALO {
        arr[nn] := arr[haloNeighbour[index]];
      }
    }
  }

  /** The fill changes neither an interior node, nor a boundary node, nor
      any node it has not reached. */
  lemma {:induction false} NodeFillKeeps(s: seq<real>, haloIndex: seq<int>, haloNeighbour: seq<int>, k: int, nn: int)
    requires NodeHaloValid(k, haloIndex, haloNeighbour, |s|) && k <= |s|
    requires 0 <= nn < |s| && (k <= nn || !IsGhost(haloIndex[nn]))
    ensures NodeBoundaryFill(s, haloIndex, haloNeighbour, k)[nn] == s[nn]
    decreases k
  {
    if k > 0 {
      NodeFillKeeps(s, haloIndex, haloNeighbour, k - 1, nn);
    }
  }

  /** A ghost node ends with the value its neighbour held when the loop
      reached the ghost node. */
  lemma {:induction false} NodeFillReadsAtTurn(s: seq<real>, haloIndex: seq<int>, haloNeighbour: seq<int>, k: int, nn: int)
    requires NodeHaloValid(k, haloIndex, haloNeighbour, |s|) && k <= |s|
    requires 0 <= nn < k && IsGhost(haloIndex[nn])
    ensures NodeBoundaryFill(s, haloIndex, haloNeighbour, k)[nn]
         == NodeBoundaryFill(s, haloIndex, haloNeighbour, nn)[haloNeighbour[haloIndex[nn]]]
    decreases k
  {
    if k > nn + 1 {
      NodeFillReadsAtTurn(s, haloIndex, haloNeighbour, k - 1, nn);
    }
  }

  /** A ghost node paired with a node that is not itself a ghost receives
      that node's original value. */
  lemma NodeFillFromSettledNeighbour(s: seq<real>, haloIndex: seq<int>, haloNeighbour: seq<int>, k: int, nn: int)
    requires NodeHaloValid(k, haloIndex, haloNeighbour, |s|) && k <= |s|
    requires 0 <= nn < k && IsGhost(haloIndex[nn])
    requires haloNeighbour[haloIndex[nn]] < |haloIndex| && !IsGhost(haloIndex[haloNeighbour[haloIndex[nn]]])
    ensures NodeBoundaryFill(s, haloIndex, haloNeighbour, k)[nn] == s[haloNeighbour[haloIndex[nn]]]
  {
    NodeFillReadsAtTurn(s, haloIndex, haloNeighbour, k, nn);
    NodeFillKeeps(s, haloIndex, haloNeighbour, nn, haloNeighbour[haloIndex[nn]]);
  }

  /** Velocity of every node after the reflect loop has visited nodes
      0 .. k-1 (the two components kept side by side). */
  datatype Velocities = Velocities(x: seq<real>, y: seq<real>)

  /** Every halo node among the first nnodes that is neither interior nor
      a boundary node names an entry of the neighbour and normal tables, and
      the neighbour is one of the m nodes. */
  predicate ReflectTablesValid(nnodes: int, haloIndex: seq<int>, haloNeighbour: seq<int>,
                               normalX: seq<real>, normalY: seq<real>, m: int)
  {
    && NodeHaloValid(nnodes, haloIndex, haloNeighbour, m)
    && forall nn :: 0 <= nn < nnodes && IsGhost(haloIndex[nn]) ==> haloIndex[nn] < |normalX| && haloIndex[nn] < |normalY|
  }

  /** The face direction of a boundary with normal n: n turned a quarter
      turn clockwise. */
  function FaceDirection(n: Vec): (p: Vec)
    ensures Dot(p, n) == 0.0
  {
    Vec(n.y, -n.x)
  }

  /** Velocity u projected onto the face direction of normal n: the
      projection has no component along the normal. */
  function Tangential(u: Vec, n: Vec): (t: Vec)
    ensures Dot(t, n) == 0.0
  {
    DotScale(Dot(u, FaceDirection(n)), FaceDirection(n), n);
    Scale(Dot(u, FaceDirection(n)), FaceDirection(n))
  }

  /** Velocity u mirrored in the plane with normal n. */
  function Reflect(u: Vec, n: Vec): Vec
  {
    Vec(u.x - n.x * 2.0 * Dot(u, n), u.y - n.y * 2.0 * Dot(u, n))
  }

  /** The velocity of node nn, as a vector. */
  function At(v: Velocities, nn: int): Vec
    requires |v.x| == |v.y| && 0 <= nn < |v.x|
  {
    Vec(v.x[nn], v.y[nn])
  }

  /** The ghost branch for node nn with normal: the node's velocity is
      replaced by its projection onto the face, that projection is reflected
      in the normal, and the normal component of the reflection, along the
      normal, is added to the neighbour. */
  function ReflectGhost(v: Velocities, nn: int, neighbour: int, normal: Vec): (r: Velocities)
    requires |v.x| == |v.y| && 0 <= nn < |v.x| && 0 <= neighbour < |v.x|
    ensures |r.x| == |v.x| && |r.y| == |v.y|
  {
    var u := Tangential(At(v, nn), normal);
    var x1, y1 := v.x[nn := u.x], v.y[nn := u.y];
    var back := Scale(Dot(Reflect(u, normal), normal), normal);
    Velocities(x1[neighbour := x1[neighbour] + back.x], y1[neighbour := y1[neighbour] + back.y])
  }

  /** The velocities after the reflect loop has visited nodes 0 .. k-1. */
  function ReflectFill(v: Velocities, haloIndex: seq<int>, haloNeighbour: seq<int>,
                       normalX: seq<real>, normalY: seq<real>, k: int): (r: Velocities)
    requires |v.x| == |v.y| && k <= |v.x|
    requires ReflectTablesValid(k, haloIndex, haloNeighbour, normalX, normalY, |v.x|)
    ensures |r.x| == |v.x| && |r.y| == |v.y|
    decreases k
  {
    if k == 0 then v
    else
      var w := ReflectFill(v, haloIndex, haloNeighbour, normalX, normalY, k - 1);
      var index := haloIndex[k - 1];
      if index == IS_NOT_HALO then w
      else if index == IS_BOUNDARY then Velocities(w.x[k - 1 := 0.0], w.y[k - 1 := 0.0])
      else ReflectGhost(w, k - 1, haloNeighbour[index], Vec(normalX[index], normalY[index]))
  }

  /** For a unit normal the projection onto the face is idempotent: a
      velocity along the face is left as it is. */
  lemma {:induction false} TangentialIdempotent(u: Vec, n: Vec)
    requires Dot(n, n) == 1.0
    ensures Tangential(Tangential(u, n), n) == Tangential(u, n)
  {
    var p := FaceDirection(n);
    var s := Dot(u, p);
    assert Dot(p, p) == Dot(n, n);
    DotScale(s, p, p);
    assert Dot(Tangential(u, n), p) == s;
  }

  /** A velocity along the face, reflected in the normal, still has no
      component along the normal. */
  lemma {:induction false} ReflectedTangentialIsTangential(u: Vec, n: Vec)
    ensures Dot(Reflect(Tangential(u, n), n), n) == 0.0
  {
    var t := Tangential(u, n);
    assert Dot(t, n) == 0.0;
    assert Reflect(t, n) == t;
  }

  /** The ghost branch amounts to projecting the node's velocity onto the
      face: what it adds to the neighbour is zero. */
  lemma ReflectGhostProjects(v: Velocities, nn: int, neighbour: int, normal: Vec)
    requires |v.x| == |v.y| && 0 <= nn < |v.x| && 0 <= neighbour < |v.x|
    ensures ReflectGhost(v, nn, neighbour, normal)
         == Velocities(v.x[nn := Tangential(At(v, nn), normal).x], v.y[nn := Tangential(At(v, nn), normal).y])
  {
    ReflectedTangentialIsTangential(At(v, nn), normal);
  }

  /** For a unit normal the ghost branch is a fixed point: applying it a
      second time to the same node leaves every velocity as the first
      application left it. */
  lemma ReflectGhostIdempotent(v: Velocities, nn: int, neighbour: int, normal: Vec)
    requires |v.x| == |v.y| && 0 <= nn < |v.x| && 0 <= neighbour < |v.x|
    requires Dot(normal, normal) == 1.0
    ensures ReflectGhost(ReflectGhost(v, nn, neighbour, normal), nn, neighbour, normal)
         == ReflectGhost(v, nn, neighbour, normal)
  {
    var u := Tangential(At(v, nn), normal);
    var w := ReflectGhost(v, nn, neighbour, normal);
    ReflectGhostProjects(v, nn, neighbour, normal);
    ReflectGhostProjects(w, nn, neighbour, normal);
    assert At(w, nn) == u;
    TangentialIdempotent(At(v, nn), normal);
    assert w.x[nn := u.x] == w.x && w.y[nn := u.y] == w.y;
  }

  /** The velocity the reflect loop gives node u at its turn: an interior
      node keeps it, a boundary node is stopped, a ghost node keeps only
      its component along the face. */
  function ReflectedNode(u: Vec, index: int, normalX: seq<real>, normalY: seq<real>): (r: Vec)
    requires IsGhost(index) ==> 0 <= index < |normalX| && index < |normalY|
    ensures IsGhost(index) ==> Dot(r, Vec(normalX[index], normalY[index])) == 0.0
  {
    if index == IS_NOT_HALO then u
    else if index == IS_BOUNDARY then Vec(0.0, 0.0)
    else Tangential(u, Vec(normalX[index], normalY[index]))
  }

  /** After the loop has visited nodes 0 .. k-1, each of them holds the
      velocity its own classification gives its original velocity, and
      every other node is unchanged: no node's result depends on another's. */
  lemma {:induction false} ReflectFillAt(v: Velocities, haloIndex: seq<int>, haloNeighbour: seq<int>,
                                         normalX: seq<real>, normalY: seq<real>, k: int, i: int)
    requires |v.x| == |v.y| && k <= |v.x| && 0 <= i < |v.x|
    requires ReflectTablesValid(k, haloIndex, haloNeighbour, normalX, normalY, |v.x|)
    ensures At(ReflectFill(v, haloIndex, haloNeighbour, normalX, normalY, k), i)
         == if i < k then ReflectedNode(At(v, i), haloIndex[i], normalX, normalY) else At(v, i)
    decreases k
  {
    if k > 0 {
      var w := ReflectFill(v, haloIndex, haloNeighbour, normalX, normalY, k - 1);
      ReflectFillAt(v, haloIndex, haloNeighbour, normalX, normalY, k - 1, i);
      var index := haloIndex[k - 1];
      if IsGhost(index) {
        ReflectFillAt(v, haloIndex, haloNeighbour, normalX, normalY, k - 1, k - 1);
        ReflectGhostProjects(w, k - 1, haloNeighbour[index], Vec(normalX[index], normalY[index]));
      }
    }
  }

  /** One ghost node of the reflect loop (omp3/hale.c:602-624). */
  method ReflectGhostNode(velocityX: array<real>, velocityY: array<real>, nn: int, neighbourIndex: int,
                          normal: Vec)
    requires velocityX != velocityY && velocityX.Length == velocityY.Length
    requires 0 <= nn < velocityX.Length && 0 <= neighbourIndex < velocityX.Length
    modifies velocityX, velocityY
    ensures Velocities(velocityX[..], velocityY[..])
         == ReflectGhost(Velocities(old(velocityX[..]), old(velocityY[..])), nn, neighbourIndex, normal)
  {
    var haloParallel := FaceDirection(normal);
    var velDotParallel := Dot(Vec(velocityX[nn], velocityY[nn]), haloParallel);
    var tangential := Scale(velDotParallel, haloParallel);
    velocityX[nn] := tangential.x;
    velocityY[nn] := tangential.y;
    var reflect := Reflect(Vec(velocityX[nn], velocityY[nn]), normal);
    var back := Scale(Dot(reflect, normal), normal);
    velocityX[neighbourIndex] := velocityX[neighbourIndex] + back.x;
    velocityY[neighbourIndex] := velocityY[neighbourIndex] + back.y;
  }

  /** Reflect the node velocities on the boundary (omp3/hale.c:584-626).
      The neighbour is looked up only for ghost nodes: for a boundary node
      the index is a sentinel, not an entry of the neighbour table. */
  method HandleUnstructuredReflect(nnodes: int, haloIndex: seq<int>, haloNeighbour: seq<int>,
                                   normalX: seq<real>, normalY: seq<real>,
                                   velocityX: array<real>, velocityY: array<real>)
    requires velocityX != velocityY && velocityX.Length == velocityY.Length && nnodes <= velocityX.Length
    requires ReflectTablesValid(nnodes, haloIndex, haloNeighbour, normalX, normalY, velocityX.Length)
    modifies velocityX, velocityY
    ensures Velocities(velocityX[..], velocityY[..])
         == ReflectFill(Velocities(old(velocityX[..]), old(velocityY[..])), haloIndex, haloNeighbour, normalX, normalY, nnodes)
  {
    ghost var v0 := Velocities(velocityX[..], velocityY[..]);
    for nn := 0 to nnodes
      invariant Velocities(velocityX[..], velocityY[..]) == ReflectFill(v0, haloIndex, haloNeighbour, normalX, normalY, nn)
    {
      var index := haloIndex[nn];
      if index == IS_NOT_HALO {
        continue;
      }
      if index == IS_BOUNDARY {
        velocityX[nn] := 0.0;
        velocityY[nn] := 0.0;
      } else {
        var neighbourIndex := haloNeighbour[index];
        ReflectGhostNode(velocityX, velocityY, nn, neighbourIndex, Vec(normalX[index], normalY[index]));
      }
    }
  }
}
