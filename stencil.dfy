/** The cyclic three-node stencil (left, centre, right) around a cell's node
    ring, and the two rotation facts about sums over a ring that the
    geometric identities need. */
module Stencil {
  import opened Sums

  /** Local position of the left neighbour of local node nn in a ring of n
      nodes: the previous node, wrapping from the first to the last. */
  function LeftOf(n: int, nn: int): (l: int)
    requires 0 <= nn < n
    ensures 0 <= l < n
  {
    if nn == 0 then n - 1 else nn - 1
  }

  /** Local position of the right neighbour: the next node, wrapping from the
      last to the first. */
  function RightOf(n: int, nn: int): (r: int)
    requires 0 <= nn < n
    ensures 0 <= r < n
  {
    if nn == n - 1 then 0 else nn + 1
  }

  /** The left read of the stencil for local node nn of a ring of n nodes
      starting at flat offset off is off + (nn - 1 + n) mod n, inside the
      cell's slice off .. off + n - 1 (omp3/hale.c:81-83). */
  lemma LeftInSlice(off: int, n: int, nn: int)
    requires 0 <= nn < n
    ensures off + LeftOf(n, nn) == off + (nn - 1 + n) % n
    ensures off <= off + LeftOf(n, nn) < off + n
  {
    if nn == 0 {
      assert (n - 1) % n == n - 1;
    } else {
      assert (nn - 1 + n) % n == nn - 1 by {
        assert (nn - 1 + n) - n == nn - 1;
      }
    }
  }

  /** The right read is off + (nn + 1) mod n, inside the same slice
      (omp3/hale.c:85-86). */
  lemma RightInSlice(off: int, n: int, nn: int)
    requires 0 <= nn < n
    ensures off + RightOf(n, nn) == off + (nn + 1) % n
    ensures off <= off + RightOf(n, nn) < off + n
  {
    if nn == n - 1 {
      assert (nn + 1) % n == 0;
    } else {
      assert (nn + 1) % n == nn + 1;
    }
  }

  /** Stepping right then left (or left then right) returns to the node, so
      the stencil visits every ring position as some node's neighbour. */
  lemma StencilInverse(n: int, nn: int)
    requires 0 <= nn < n
    ensures LeftOf(n, RightOf(n, nn)) == nn
    ensures RightOf(n, LeftOf(n, nn)) == nn
  {
  }

  /** Reading every ring value through the right neighbour is a rotation and
      leaves the sum unchanged. */
  lemma SumRightRotation(s: seq<real>, t: seq<real>)
    requires |s| == |t| >= 1
    requires forall i :: 0 <= i < |t| ==> t[i] == s[RightOf(|s|, i)]
    ensures Sum(t) == Sum(s)
  {
    assert t == s[1..] + s[..1];
    assert s == s[..1] + s[1..];
    SumAppend(s[1..], s[..1]);
    SumAppend(s[..1], s[1..]);
  }

  /** The same through the left neighbour. */
  lemma SumLeftRotation(s: seq<real>, t: seq<real>)
    requires |s| == |t| >= 1
    requires forall i :: 0 <= i < |t| ==> t[i] == s[LeftOf(|s|, i)]
    ensures Sum(t) == Sum(s)
  {
    var n := |s|;
    assert t == s[n - 1..] + s[..n - 1];
    assert s == s[..n - 1] + s[n - 1..];
    SumAppend(s[n - 1..], s[..n - 1]);
    SumAppend(s[..n - 1], s[n - 1..]);
  }
}
