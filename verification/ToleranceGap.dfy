/** Between the two bounds the weights of the cycles do not decide: one graph is answered, another is not. */
module ToleranceGaps {
  import opened Collections
  import opened Walks
  import opened NegativeCycles
  import opened Relaxation

  function Hop(src: string, dst: string, rate: real): Edge {
    Edge(src, dst, rate, 0.0, "v", src + "/" + dst, Buy)
  }

  /** Two nodes with an edge each way. */
  function Loop(rate: real): Dict<string, seq<Edge>> {
    Dict(["A", "B"], map["A" := [Hop("A", "B", rate)], "B" := [Hop("B", "A", rate)]])
  }

  /** The same two nodes, each reached from a third one over an edge that weighs nothing. */
  function Fork(rate: real, flat: real): Dict<string, seq<Edge>> {
    Dict(["S", "A", "B"],
         map["S" := [Hop("S", "A", flat), Hop("S", "B", flat)],
             "A" := [Hop("A", "B", rate)], "B" := [Hop("B", "A", rate)]])
  }

  /** Each way the loop loses three quarters of the tolerance; the flat edges lose nothing. */
  ghost predicate Slight(negLog: NegLog, eps: real, rate: real, flat: real) {
    eps > 0.0 && rate > 0.0 && flat > 0.0 && negLog(rate) == -0.75 * eps && negLog(flat) == 0.0
  }

  lemma HopWeight(negLog: NegLog, src: string, dst: string, rate: real)
    requires rate > 0.0
    ensures Hop(src, dst, rate).Weight(negLog) == Finite(negLog(rate))
  {
    assert Hop(src, dst, rate).EffectiveRate() == rate;
  }

  lemma SweepTwo(adj: Adjacency, negLog: NegLog, eps: real, s: Sweep, a: string, b: string)
    ensures SweepNodes(adj, negLog, eps, s, [a, b]) == SweepNode(adj, negLog, eps, SweepNode(adj, negLog, eps, s, a), b)
  {
    assert [a, b][..1] == [a] && [a][..0] == [];
    assert SweepNodes(adj, negLog, eps, s, [a]) == SweepNode(adj, negLog, eps, s, a);
  }

  lemma SweepThree(adj: Adjacency, negLog: NegLog, eps: real, s: Sweep, a: string, b: string, c: string)
    ensures SweepNodes(adj, negLog, eps, s, [a, b, c])
            == SweepNode(adj, negLog, eps, SweepNodes(adj, negLog, eps, s, [a, b]), c)
  {
    assert [a, b, c][..2] == [a, b];
  }

  /** Sweeping a node with one edge, and one with two. */
  lemma SweepOneEdge(negLog: NegLog, eps: real, s: Sweep, e: Edge)
    ensures SweepEdges(negLog, eps, s, [e]) == SweepEdge(negLog, eps, s, e)
  {
    assert [e][..0] == [];
  }

  lemma SweepTwoEdges(negLog: NegLog, eps: real, s: Sweep, e: Edge, f: Edge)
    ensures SweepEdges(negLog, eps, s, [e, f]) == SweepEdge(negLog, eps, SweepEdge(negLog, eps, s, e), f)
  {
    SweepOneEdge(negLog, eps, s, e);
    assert [e, f][..1] == [e];
  }

  /** Sweeping one of the loop's nodes, in a graph that lists the loop. */
  lemma LoopNode(adj: Adjacency, negLog: NegLog, eps: real, rate: real, flat: real, s: Sweep, src: string, dst: string)
    requires Slight(negLog, eps, rate, flat)
    requires src in adj && adj[src] == [Hop(src, dst, rate)] && DistOf(s.dist, src).Finite?
    ensures var candidate, t := DistOf(s.dist, src).value - 0.75 * eps, SweepNode(adj, negLog, eps, s, src);
            if DistOf(s.dist, dst).Infinite? || candidate < DistOf(s.dist, dst).value - eps
            then t.dist == s.dist[dst := Finite(candidate)] && t.updated == Some(dst)
            else t == s
  {
    HopWeight(negLog, src, dst, rate);
    SweepOneEdge(negLog, eps, s, Hop(src, dst, rate));
  }

  /** On the loop every pass lowers both labels by more than the tolerance. */
  lemma LoopAnswers(negLog: NegLog, eps: real, rate: real, flat: real)
    requires Slight(negLog, eps, rate, flat)
    ensures Answers(Loop(rate), negLog, "A", eps)
  {
    var d := Loop(rate);
    var adj, s0 := d.entries, Sweep(StartDist(d.entries, "A"), StartPred(d.entries), None);
    var s1 := SweepNode(adj, negLog, eps, s0, "A");
    LoopNode(adj, negLog, eps, rate, flat, s0, "A", "B");
    var s2 := SweepNode(adj, negLog, eps, s1, "B");
    LoopNode(adj, negLog, eps, rate, flat, s1, "B", "A");
    SweepTwo(adj, negLog, eps, s0, "A", "B");
    var t0 := Sweep(s2.dist, s2.pred, None);
    var t1 := SweepNode(adj, negLog, eps, t0, "A");
    LoopNode(adj, negLog, eps, rate, flat, t0, "A", "B");
    var t2 := SweepNode(adj, negLog, eps, t1, "B");
    LoopNode(adj, negLog, eps, rate, flat, t1, "B", "A");
    SweepTwo(adj, negLog, eps, t0, "A", "B");
    hide SweepNodes, SweepNode, SweepEdges;
    assert s2.updated.Some? && t2.updated.Some?;
    LastUpdateNext(d, negLog, eps, s0.dist, s0.pred, 2);
    LastUpdateNext(d, negLog, eps, s2.dist, s2.pred, 1);
  }

  /** A flat edge out of a source at zero offers zero. */
  lemma FlatEdge(negLog: NegLog, eps: real, rate: real, flat: real, s: Sweep, dst: string)
    requires Slight(negLog, eps, rate, flat) && DistOf(s.dist, "S") == Finite(0.0)
    ensures var e := Hop("S", dst, flat);
            SweepEdge(negLog, eps, s, e)
            == if Undercuts(Finite(0.0), DistOf(s.dist, dst), eps)
               then Sweep(s.dist[dst := Finite(0.0)], s.pred[dst := Some(e)], Some(dst)) else s
  {
    HopWeight(negLog, "S", dst, flat);
    assert Hop("S", dst, flat).Weight(negLog) == Finite(0.0);
    hide Edge.Weight, Slight;
  }

  lemma ForkSource(negLog: NegLog, eps: real, rate: real, flat: real, s: Sweep)
    requires Slight(negLog, eps, rate, flat) && DistOf(s.dist, "S") == Finite(0.0)
    ensures var adj := Fork(rate, flat).entries;
            var t := SweepNode(adj, negLog, eps, s, "S");
            && (DistOf(s.dist, "A").Infinite? && DistOf(s.dist, "B").Infinite? ==>
                  t.dist == s.dist["A" := Finite(0.0)]["B" := Finite(0.0)] && t.updated == Some("B"))
            && (DistOf(s.dist, "A") == Finite(0.0) && DistOf(s.dist, "B") == Finite(0.0) ==> t == s)
  {
    var e, f := Hop("S", "A", flat), Hop("S", "B", flat);
    SweepTwoEdges(negLog, eps, s, e, f);
    FlatEdge(negLog, eps, rate, flat, s, "A");
    FlatEdge(negLog, eps, rate, flat, SweepEdge(negLog, eps, s, e), "B");
    assert Fork(rate, flat).entries["S"] == [e, f];
    hide SweepEdges, SweepEdge, Slight, Fork;
  }

  /** Behind the fork both labels are final after one pass: neither edge of the loop gains enough. */
  lemma ForkDoesNot(negLog: NegLog, eps: real, rate: real, flat: real)
    requires Slight(negLog, eps, rate, flat)
    ensures !Answers(Fork(rate, flat), negLog, "S", eps)
  {
    var d := Fork(rate, flat);
    var adj, s0 := d.entries, Sweep(StartDist(d.entries, "S"), StartPred(d.entries), None);
    var s1 := SweepNode(adj, negLog, eps, s0, "S");
    ForkSource(negLog, eps, rate, flat, s0);
    LoopNode(adj, negLog, eps, rate, flat, s1, "A", "B");
    LoopNode(adj, negLog, eps, rate, flat, s1, "B", "A");
    SweepTwo(adj, negLog, eps, s0, "S", "A");
    SweepThree(adj, negLog, eps, s0, "S", "A", "B");
    var t0 := Sweep(s1.dist, s1.pred, None);
    ForkSource(negLog, eps, rate, flat, t0);
    LoopNode(adj, negLog, eps, rate, flat, t0, "A", "B");
    LoopNode(adj, negLog, eps, rate, flat, t0, "B", "A");
    SweepTwo(adj, negLog, eps, t0, "S", "A");
    SweepThree(adj, negLog, eps, t0, "S", "A", "B");
    hide SweepNodes, SweepNode, SweepEdges;
    LastUpdateNext(d, negLog, eps, s0.dist, s0.pred, 3);
    LastUpdateNext(d, negLog, eps, s1.dist, s1.pred, 2);
  }

  /** The edges of both graphs. */
  ghost predicate Sketched(adj: Adjacency, rate: real, flat: real) {
    forall e | IsEdge(adj, e) ::
      e == Hop("A", "B", rate) || e == Hop("B", "A", rate) || e == Hop("S", "A", flat) || e == Hop("S", "B", flat)
  }

  /** Their only simple cycle is the loop, which loses one and a half tolerances on two edges. */
  lemma OnlyTheLoop(adj: Adjacency, negLog: NegLog, eps: real, rate: real, flat: real, q: seq<Edge>)
    requires Slight(negLog, eps, rate, flat) && Sketched(adj, rate, flat) && SimpleCycle(adj, q)
    ensures |q| == 2 && Total(negLog, q) == Finite(-1.5 * eps)
  {
    LoopEdges(adj, rate, flat, q);
    LoopLength(q, rate);
    assert q == [q[0], q[1]] && q[0].dst == q[1].src;
    hide SimpleCycle, Sketched;
    HopWeight(negLog, "A", "B", rate);
    HopWeight(negLog, "B", "A", rate);
    TwoEdges(negLog, q[0], q[1]);
  }

  /** A closed path never meets the third node, which nothing leads to. */
  lemma LoopEdges(adj: Adjacency, rate: real, flat: real, q: seq<Edge>)
    requires Sketched(adj, rate, flat) && SimpleCycle(adj, q)
    ensures forall k | 0 <= k < |q| :: q[k] == Hop("A", "B", rate) || q[k] == Hop("B", "A", rate)
    ensures q[|q| - 1].dst == q[0].src && forall i, j | 0 <= i < j < |q| :: q[i].src != q[j].src
    ensures forall k | 0 <= k < |q| - 1 :: q[k].dst == q[k + 1].src
  {
    forall k | 0 <= k < |q| ensures q[k] == Hop("A", "B", rate) || q[k] == Hop("B", "A", rate) {
      var before := if k == 0 then |q| - 1 else k - 1;
      assert IsEdge(adj, q[k]) && IsEdge(adj, q[before]) && q[before].dst == q[k].src;
    }
  }

  lemma LoopLength(q: seq<Edge>, rate: real)
    requires q != [] && forall k | 0 <= k < |q| :: q[k] == Hop("A", "B", rate) || q[k] == Hop("B", "A", rate)
    requires q[|q| - 1].dst == q[0].src && forall i, j | 0 <= i < j < |q| :: q[i].src != q[j].src
    ensures |q| == 2
  {
    var sources := seq(|q|, k requires 0 <= k < |q| => q[k].src);
    DistinctBound(sources, {"A", "B"});
  }

  lemma TwoEdges(negLog: NegLog, e: Edge, f: Edge)
    ensures Total(negLog, [e, f]) == e.Weight(negLog).Plus(f.Weight(negLog))
  {
    TotalSnoc(negLog, [], e);
    TotalSnoc(negLog, [e], f);
    assert [] + [e] == [e] && [e] + [f] == [e, f];
    hide Total, Edge.Weight;
    assert Total(negLog, []) == Finite(0.0) by { Nothing(negLog); }
  }

  lemma Nothing(negLog: NegLog)
    ensures Total(negLog, []) == Finite(0.0)
  {
  }

  lemma LoopIsBelow(adj: Adjacency, negLog: NegLog, eps: real, rate: real, flat: real, source: string, p: seq<Edge>)
    requires Slight(negLog, eps, rate, flat) && Sketched(adj, rate, flat)
    requires IsEdge(adj, Hop("A", "B", rate)) && IsEdge(adj, Hop("B", "A", rate))
    requires Walk(adj, p, source, "A") && Total(negLog, p).Finite?
    ensures BelowTolerance(adj, negLog, source, eps) && !BeyondTolerance(adj, negLog, source, eps)
  {
    var q := [Hop("A", "B", rate), Hop("B", "A", rate)];
    assert Walk(adj, q, "A", "A") && SimpleCycle(adj, q) && Reaches(adj, negLog, source, q[0].src);
    OnlyTheLoop(adj, negLog, eps, rate, flat, q);
    forall q: seq<Edge> | SimpleCycle(adj, q) ensures !Beats(negLog, eps, q) {
      OnlyTheLoop(adj, negLog, eps, rate, flat, q);
    }
  }

  /**
   * Two graphs with the same only cycle, between the bounds: on the loop alone the search answers with
   * it, behind the fork it answers nothing.
   */
  lemma GapUndetermined(negLog: NegLog, eps: real, rate: real, flat: real)
    requires Slight(negLog, eps, rate, flat)
    ensures var adj := Loop(rate).entries;
            && BelowTolerance(adj, negLog, "A", eps) && !BeyondTolerance(adj, negLog, "A", eps)
            && Answers(Loop(rate), negLog, "A", eps)
    ensures var adj := Fork(rate, flat).entries;
            && BelowTolerance(adj, negLog, "S", eps) && !BeyondTolerance(adj, negLog, "S", eps)
            && !Answers(Fork(rate, flat), negLog, "S", eps)
  {
    LoopAnswers(negLog, eps, rate, flat);
    ForkDoesNot(negLog, eps, rate, flat);
    LoopWalk(negLog, rate, flat);
    ForkWalk(negLog, eps, rate, flat);
    hide *;
    LoopIsBelow(Loop(rate).entries, negLog, eps, rate, flat, "A", []);
    LoopIsBelow(Fork(rate, flat).entries, negLog, eps, rate, flat, "S", [Hop("S", "A", flat)]);
  }

  lemma LoopWalk(negLog: NegLog, rate: real, flat: real)
    ensures var adj := Loop(rate).entries;
            && Sketched(adj, rate, flat) && Walk(adj, [], "A", "A") && Total(negLog, []).Finite?
            && IsEdge(adj, Hop("A", "B", rate)) && IsEdge(adj, Hop("B", "A", rate))
  {
  }

  lemma ForkWalk(negLog: NegLog, eps: real, rate: real, flat: real)
    requires Slight(negLog, eps, rate, flat)
    ensures var adj, e := Fork(rate, flat).entries, Hop("S", "A", flat);
            && Sketched(adj, rate, flat) && Walk(adj, [e], "S", "A") && Total(negLog, [e]).Finite?
            && IsEdge(adj, Hop("A", "B", rate)) && IsEdge(adj, Hop("B", "A", rate))
  {
    var e := Hop("S", "A", flat);
    assert e.src == "S" && e.dst == "A";
    hide *;
    ForkEdges(rate, flat);
    FlatTotal(negLog, eps, rate, flat, e);
    OneEdgeWalk(Fork(rate, flat).entries, e);
  }

  lemma OneEdgeWalk(adj: Adjacency, e: Edge)
    requires IsEdge(adj, e)
    ensures Walk(adj, [e], e.src, e.dst)
  {
  }

  lemma ForkEdges(rate: real, flat: real)
    ensures var adj := Fork(rate, flat).entries;
            && Sketched(adj, rate, flat) && IsEdge(adj, Hop("S", "A", flat))
            && IsEdge(adj, Hop("A", "B", rate)) && IsEdge(adj, Hop("B", "A", rate))
  {
  }

  lemma FlatTotal(negLog: NegLog, eps: real, rate: real, flat: real, e: Edge)
    requires Slight(negLog, eps, rate, flat) && e == Hop("S", "A", flat)
    ensures Total(negLog, [e]).Finite?
  {
    HopWeight(negLog, "S", "A", flat);
    hide Edge.Weight;
    assert [e][1..] == [];
  }
}
