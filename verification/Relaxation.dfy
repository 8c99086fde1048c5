/** The relaxation loops of Bellman-Ford as functions: on which graphs exactly the search answers. */
module Relaxation {
  import opened Collections
  import opened Walks

  /** What one sweep over the adjacency lists leaves: labels, predecessors, and the node updated last. */
  datatype Sweep = Sweep(dist: map<string, Extended>, pred: map<string, Option<Edge>>, updated: Option<string>)

  function DistOf(dist: map<string, Extended>, v: string): Extended {
    if v in dist then dist[v] else Infinite
  }

  /** `candidate < known - eps`, where no number is below an infinite candidate. */
  predicate Undercuts(candidate: Extended, known: Extended, eps: real) {
    candidate.Finite? && (known.Infinite? || candidate.value < known.value - eps)
  }

  function SweepEdge(negLog: NegLog, eps: real, s: Sweep, e: Edge): Sweep {
    var candidate := DistOf(s.dist, e.src).Plus(e.Weight(negLog));
    if Undercuts(candidate, DistOf(s.dist, e.dst), eps)
    then Sweep(s.dist[e.dst := candidate], s.pred[e.dst := Some(e)], Some(e.dst))
    else s
  }

  function SweepEdges(negLog: NegLog, eps: real, s: Sweep, edges: seq<Edge>): Sweep {
    if edges == [] then s
    else SweepEdge(negLog, eps, SweepEdges(negLog, eps, s, edges[..|edges| - 1]), edges[|edges| - 1])
  }

  /** A node that is not reached yet is passed over. */
  function SweepNode(adj: Adjacency, negLog: NegLog, eps: real, s: Sweep, src: string): Sweep {
    if DistOf(s.dist, src) == Infinite || src !in adj then s else SweepEdges(negLog, eps, s, adj[src])
  }

  function SweepNodes(adj: Adjacency, negLog: NegLog, eps: real, s: Sweep, nodes: seq<string>): Sweep {
    if nodes == [] then s
    else
      SweepNode(adj, negLog, eps, SweepNodes(adj, negLog, eps, s, nodes[..|nodes| - 1]), nodes[|nodes| - 1])
  }

  /** One pass over the whole graph, in node order. */
  function PassOf(d: Dict<string, seq<Edge>>, negLog: NegLog, eps: real, dist: map<string, Extended>,
                  pred: map<string, Option<Edge>>): Sweep {
    SweepNodes(d.entries, negLog, eps, Sweep(dist, pred, None), d.keys)
  }

  /** The node updated last in the last of `left` passes, unless an earlier pass changes nothing. */
  function LastUpdate(d: Dict<string, seq<Edge>>, negLog: NegLog, eps: real, dist: map<string, Extended>,
                      pred: map<string, Option<Edge>>, left: nat): Option<string>
    decreases left
  {
    if left == 0 then None
    else
      var s := PassOf(d, negLog, eps, dist, pred);
      if left == 1 || s.updated == None then s.updated else LastUpdate(d, negLog, eps, s.dist, s.pred, left - 1)
  }

  function StartDist(adj: Adjacency, source: string): map<string, Extended> {
    map v | v in adj :: if v == source then Finite(0.0) else Infinite
  }

  function StartPred(adj: Adjacency): map<string, Option<Edge>> {
    map v | v in adj :: None
  }

  /** Whether as many passes as there are nodes still change a label in the last one. */
  predicate Answers(d: Dict<string, seq<Edge>>, negLog: NegLog, source: string, eps: real) {
    source in d.entries
    && LastUpdate(d, negLog, eps, StartDist(d.entries, source), StartPred(d.entries), |d.keys|).Some?
  }

  lemma LastUpdateNext(d: Dict<string, seq<Edge>>, negLog: NegLog, eps: real, dist: map<string, Extended>,
                       pred: map<string, Option<Edge>>, left: nat)
    requires left > 0
    ensures var s := PassOf(d, negLog, eps, dist, pred);
            LastUpdate(d, negLog, eps, dist, pred, left)
            == if left == 1 || s.updated == None then s.updated
                else LastUpdate(d, negLog, eps, s.dist, s.pred, left - 1)
  {
  }

  lemma SweepEdgesNext(negLog: NegLog, eps: real, s: Sweep, edges: seq<Edge>, k: nat)
    requires k < |edges|
    ensures SweepEdges(negLog, eps, s, edges[..k + 1])
            == SweepEdge(negLog, eps, SweepEdges(negLog, eps, s, edges[..k]), edges[k])
  {
    assert edges[..k + 1][..k] == edges[..k];
  }

  lemma SweepNodesNext(adj: Adjacency, negLog: NegLog, eps: real, s: Sweep, nodes: seq<string>, k: nat)
    requires k < |nodes|
    ensures SweepNodes(adj, negLog, eps, s, nodes[..k + 1])
            == SweepNode(adj, negLog, eps, SweepNodes(adj, negLog, eps, s, nodes[..k]), nodes[k])
  {
    assert nodes[..k + 1][..k] == nodes[..k];
  }
}
