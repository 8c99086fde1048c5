/** Rotations of a simple cycle, and what identifies a cycle up to rotation. */
module Rotations {
  import opened Walks

  function Rotate(p: seq<Edge>, k: nat): seq<Edge>
    requires k <= |p|
  {
    p[k..] + p[..k]
  }

  ghost predicate IsRotation(p: seq<Edge>, q: seq<Edge>) {
    exists k :: 0 <= k <= |p| && q == Rotate(p, k)
  }

  ghost function EdgeSet(p: seq<Edge>): set<Edge> {
    set e | e in p
  }

  /** A rotation of a simple cycle is a simple cycle. */
  lemma RotateSimple(adj: Adjacency, p: seq<Edge>, k: nat)
    requires SimpleCycle(adj, p) && k < |p|
    ensures SimpleCycle(adj, Rotate(p, k)) && Rotate(p, k)[0] == p[k]
  {
  }

  lemma RotateEdgeSet(p: seq<Edge>, k: nat)
    requires k <= |p|
    ensures EdgeSet(Rotate(p, k)) == EdgeSet(p)
  {
  }

  /** The weight of a closed path does not depend on where it is entered. */
  lemma RotateTotal(negLog: NegLog, p: seq<Edge>, k: nat)
    requires k <= |p|
    ensures Total(negLog, Rotate(p, k)) == Total(negLog, p)
  {
    TotalConcat(negLog, p[k..], p[..k]);
    TotalConcat(negLog, p[..k], p[k..]);
    assert p == p[..k] + p[k..];
  }

  /** The edge after `p[i]` on a simple cycle is the only one leaving the node it enters. */
  lemma NextEdge(adj: Adjacency, p: seq<Edge>, i: nat, e: Edge)
    requires SimpleCycle(adj, p) && i < |p| && e in p && e.src == p[i].dst
    ensures e == (if i + 1 < |p| then p[i + 1] else p[0])
  {
  }

  lemma SimpleSize(adj: Adjacency, p: seq<Edge>)
    requires SimpleCycle(adj, p)
    ensures |EdgeSet(p)| == |p|
  {
    DistinctSize(p);
  }

  lemma {:induction false} DistinctSize(p: seq<Edge>)
    requires forall i, j | 0 <= i < j < |p| :: p[i].src != p[j].src
    ensures |EdgeSet(p)| == |p|
  {
    if p == [] {
      assert EdgeSet(p) == {};
    } else {
      DistinctSize(p[1..]);
      assert EdgeSet(p) == {p[0]} + EdgeSet(p[1..]);
    }
  }

  /** Two simple cycles over the same edges agree from any common edge on. */
  lemma {:induction false} Aligned(adj: Adjacency, p: seq<Edge>, q: seq<Edge>, i: nat)
    requires SimpleCycle(adj, p) && SimpleCycle(adj, q) && EdgeSet(p) == EdgeSet(q)
    requires p[0] == q[0] && i < |p| && |p| == |q|
    ensures p[i] == q[i]
  {
    if i > 0 {
      Aligned(adj, p, q, i - 1);
      assert q[i] in EdgeSet(q) && q[i - 1].dst == q[i].src;
      NextEdge(adj, p, i - 1, q[i]);
    }
  }

  /** The set of edges identifies a simple cycle up to rotation. */
  lemma SameEdgesRotate(adj: Adjacency, p: seq<Edge>, q: seq<Edge>)
    requires SimpleCycle(adj, p) && SimpleCycle(adj, q) && EdgeSet(p) == EdgeSet(q)
    ensures IsRotation(p, q)
  {
    assert q[0] in EdgeSet(p);
    var k :| 0 <= k < |p| && p[k] == q[0];
    var r := Rotate(p, k);
    RotateSimple(adj, p, k);
    RotateEdgeSet(p, k);
    SimpleSize(adj, r);
    SimpleSize(adj, q);
    forall i | 0 <= i < |r| ensures r[i] == q[i] {
      Aligned(adj, r, q, i);
    }
    assert r == q;
  }
}
