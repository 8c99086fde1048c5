/** Closed walks against simple cycles: what the weights of the cycles say about the tolerant search's answer. */
module NegativeCycles {
  import opened Collections
  import opened Walks
  import opened BellmanFord

  lemma SlackAdds(a: nat, b: nat, eps: real)
    ensures Slack(a + b, eps) == Slack(a, eps) + Slack(b, eps)
    ensures eps >= 0.0 ==> Slack(a, eps) >= 0.0
  {
  }

  ghost predicate Beats(negLog: NegLog, eps: real, p: seq<Edge>) {
    Total(negLog, p).Finite? && Total(negLog, p).value < -Slack(|p|, eps)
  }

  /** The loop between two visits of a node, and the closed walk without it. */
  lemma Cut(adj: Adjacency, p: seq<Edge>, v: string, i: nat, j: nat)
    requires Walk(adj, p, v, v) && i < j < |p| && p[i].src == p[j].src
    ensures Walk(adj, p[..i], v, p[i].src)
    ensures Walk(adj, p[i..j], p[i].src, p[i].src) && Walk(adj, p[..i] + p[j..], v, v)
  {
    var outer := p[..i] + p[j..];
    assert i > 0 ==> p[i - 1].dst == p[i].src;
    assert p[j - 1].dst == p[j].src;
    forall k | 0 <= k < |outer| ensures outer[k] == p[if k < i then k else k + j - i] {
    }
  }

  lemma CutTotals(negLog: NegLog, p: seq<Edge>, i: nat, j: nat)
    requires i <= j <= |p|
    ensures Total(negLog, p) == Total(negLog, p[i..j]).Plus(Total(negLog, p[..i] + p[j..]))
    ensures Total(negLog, p).Finite? ==> Total(negLog, p[..i]).Finite?
  {
    hide Total;
    var a, b, c := p[..i], p[i..j], p[j..];
    assert p == a + (b + c);
    TotalConcat(negLog, a, b + c);
    TotalConcat(negLog, b, c);
    TotalConcat(negLog, a, c);
  }

  /** One of the two halves of a cut beats the tolerance if the whole does. */
  lemma HalfBeats(negLog: NegLog, eps: real, p: seq<Edge>, i: nat, j: nat)
    requires i <= j <= |p| && Beats(negLog, eps, p)
    ensures Beats(negLog, eps, p[i..j]) || Beats(negLog, eps, p[..i] + p[j..])
  {
    hide Slack, Total;
    CutTotals(negLog, p, i, j);
    var inner, outer := p[i..j], p[..i] + p[j..];
    assert |p| == |inner| + |outer|;
    SlackAdds(|inner|, |outer|, eps);
  }

  lemma ReachesAlong(adj: Adjacency, negLog: NegLog, source: string, v: string, p: seq<Edge>, w: string)
    requires Reaches(adj, negLog, source, v) && Walk(adj, p, v, w) && Total(negLog, p).Finite?
    ensures Reaches(adj, negLog, source, w)
  {
    var q :| Walk(adj, q, source, v) && Total(negLog, q).Finite?;
    TotalConcat(negLog, q, p);
    WalkConcat(adj, q, source, v, p, w);
    hide Walk, Total;
  }

  lemma WalkConcat(adj: Adjacency, q: seq<Edge>, source: string, v: string, p: seq<Edge>, w: string)
    requires Walk(adj, q, source, v) && Walk(adj, p, v, w)
    ensures Walk(adj, q + p, source, w)
  {
  }

  /** A closed walk that beats the tolerance contains a simple cycle that does, reachable from the same source. */
  lemma {:induction false} SimpleInside(adj: Adjacency, negLog: NegLog, source: string, eps: real, v: string,
                                        p: seq<Edge>) returns (q: seq<Edge>)
    requires eps >= 0.0 && Reaches(adj, negLog, source, v) && Walk(adj, p, v, v) && Beats(negLog, eps, p)
    ensures SimpleCycle(adj, q) && Reaches(adj, negLog, source, q[0].src) && Beats(negLog, eps, q)
    decreases |p|
  {
    SlackAdds(0, 0, eps);
    if i, j :| 0 <= i < j < |p| && p[i].src == p[j].src {
      Cut(adj, p, v, i, j);
      CutTotals(negLog, p, i, j);
      HalfBeats(negLog, eps, p, i, j);
      ReachesAlong(adj, negLog, source, v, p[..i], p[i].src);
      hide *;
      if Beats(negLog, eps, p[i..j]) {
        q := SimpleInside(adj, negLog, source, eps, p[i].src, p[i..j]);
      } else {
        q := SimpleInside(adj, negLog, source, eps, v, p[..i] + p[j..]);
      }
    } else {
      q := p;
    }
  }

  /** Some reachable simple cycle loses more than the tolerance allows for its edges. */
  ghost predicate BeyondTolerance(adj: Adjacency, negLog: NegLog, source: string, eps: real) {
    exists q: seq<Edge> :: SimpleCycle(adj, q) && Reaches(adj, negLog, source, q[0].src) && Beats(negLog, eps, q)
  }

  /** A closed walk loses weight exactly when a simple cycle does. */
  lemma ClosedIffSimple(adj: Adjacency, negLog: NegLog, source: string)
    requires source in adj
    ensures NegativeCycleExists(adj, negLog, source) <==> BeyondTolerance(adj, negLog, source, 0.0)
  {
    if NegativeCycleExists(adj, negLog, source) {
      var v, p :| v in adj && source in adj && Reaches(adj, negLog, source, v) && Walk(adj, p, v, v)
          && Total(negLog, p).Negative();
      var q := SimpleInside(adj, negLog, source, 0.0, v, p);
    }
    if BeyondTolerance(adj, negLog, source, 0.0) {
      var q: seq<Edge> :| SimpleCycle(adj, q) && Reaches(adj, negLog, source, q[0].src) && Beats(negLog, 0.0, q);
      assert IsEdge(adj, q[0]) && Walk(adj, q, q[0].src, q[0].src) && Total(negLog, q).Negative();
    }
  }

  /** A cycle beyond the tolerance is answered. */
  lemma BeyondIsFound(adj: Adjacency, negLog: NegLog, source: string, eps: real, r: Option<Cycle>)
    requires source in adj && Outcome(adj, negLog, source, eps, r) && BeyondTolerance(adj, negLog, source, eps)
    ensures r.Some?
  {
  }

  /** Some reachable simple cycle weighs less than minus the tolerance. */
  ghost predicate BelowTolerance(adj: Adjacency, negLog: NegLog, source: string, eps: real) {
    exists q: seq<Edge> ::
      SimpleCycle(adj, q) && Reaches(adj, negLog, source, q[0].src)
      && Total(negLog, q).Finite? && Total(negLog, q).value < -eps
  }

  /** A cycle is answered only if some cycle weighs less than minus the tolerance. */
  lemma FoundIsBelow(adj: Adjacency, negLog: NegLog, source: string, eps: real, r: Option<Cycle>)
    requires Outcome(adj, negLog, source, eps, r) && r.Some?
    ensures BelowTolerance(adj, negLog, source, eps)
  {
    var q := r.value.edges;
    assert SimpleCycle(adj, q) && Total(negLog, q).Finite?;
  }

  lemma BelowIsNegative(adj: Adjacency, negLog: NegLog, source: string, eps: real)
    requires eps >= 0.0 && source in adj && BelowTolerance(adj, negLog, source, eps)
    ensures NegativeCycleExists(adj, negLog, source)
  {
    var q: seq<Edge> :|
      SimpleCycle(adj, q) && Reaches(adj, negLog, source, q[0].src)
      && Total(negLog, q).Finite? && Total(negLog, q).value < -eps;
    assert IsEdge(adj, q[0]) && Walk(adj, q, q[0].src, q[0].src) && Total(negLog, q).Negative();
  }

  /**
   * What the search answers, by the weights of the reachable simple cycles: a cycle if one of k edges
   * weighs less than -k times the tolerance, none if no cycle weighs less than minus the tolerance. So
   * wherever no cycle lies between the two, it answers exactly when a cycle is below the first bound.
   */
  lemma AnswerBracket(adj: Adjacency, negLog: NegLog, source: string, eps: real, r: Option<Cycle>)
    requires eps >= 0.0 && source in adj && Outcome(adj, negLog, source, eps, r)
    ensures BeyondTolerance(adj, negLog, source, eps) ==> r.Some?
    ensures r.Some? ==> BelowTolerance(adj, negLog, source, eps)
    ensures (BelowTolerance(adj, negLog, source, eps) ==> BeyondTolerance(adj, negLog, source, eps))
            ==> (r.Some? <==> BeyondTolerance(adj, negLog, source, eps))
    ensures (NegativeCycleExists(adj, negLog, source) ==> BeyondTolerance(adj, negLog, source, eps))
            ==> (r.Some? <==> NegativeCycleExists(adj, negLog, source))
  {
    hide *;
    if BeyondTolerance(adj, negLog, source, eps) {
      BeyondIsFound(adj, negLog, source, eps, r);
    }
    if r.Some? {
      FoundIsBelow(adj, negLog, source, eps, r);
      BelowIsNegative(adj, negLog, source, eps);
    }
  }
}
