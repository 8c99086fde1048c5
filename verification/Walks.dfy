/** Conversion edges, their log weights, and walks over an adjacency map. */
module Walks {

  datatype Side = Buy | Sell | Transfer

  /** A float that is a real or `math.inf`. */
  datatype Extended = Finite(value: real) | Infinite {
    function Plus(other: Extended): Extended {
      if Finite? && other.Finite? then Finite(value + other.value) else Infinite
    }

    predicate Negative() {
      Finite? && value < 0.0
    }
  }

  /** `x -> -log(x)`. Searching a graph needs no law of it; pricing a cycle needs `Lawful`. */
  type NegLog = real -> real

  function Product(a: real, b: real): real {
    a * b
  }

  lemma ProductAssociates(a: real, b: real, c: real)
    ensures Product(a, Product(b, c)) == Product(Product(a, b), c)
  {
  }

  function AfterFee(rate: real, fee: real): real {
    rate * (1.0 - fee)
  }

  /** 1 unit of `src` converts to `rate * (1 - fee)` units of `dst`. */
  datatype Edge = Edge(src: string, dst: string, rate: real, fee: real, venue: string, symbol: string, side: Side) {
    function EffectiveRate(): real {
      AfterFee(rate, fee)
    }

    function Weight(negLog: NegLog): Extended {
      if EffectiveRate() <= 0.0 then Infinite else Finite(negLog(EffectiveRate()))
    }
  }

  type Adjacency = map<string, seq<Edge>>

  ghost predicate WellFormed(adj: Adjacency) {
    forall a, e | a in adj && e in adj[a] :: e.src == a && e.dst in adj
  }

  predicate IsEdge(adj: Adjacency, e: Edge) {
    e.src in adj && e in adj[e.src]
  }

  ghost predicate Chained(p: seq<Edge>) {
    forall k | 0 <= k < |p| - 1 :: p[k].dst == p[k + 1].src
  }

  /** `p` leads from `a` to `b` along edges of the graph. */
  ghost predicate Walk(adj: Adjacency, p: seq<Edge>, a: string, b: string) {
    && (forall k | 0 <= k < |p| :: IsEdge(adj, p[k]))
    && Chained(p)
    && (if p == [] then a == b else p[0].src == a && p[|p| - 1].dst == b)
  }

  function Total(negLog: NegLog, p: seq<Edge>): Extended {
    if p == [] then Finite(0.0) else p[0].Weight(negLog).Plus(Total(negLog, p[1..]))
  }

  lemma {:induction false} TotalConcat(negLog: NegLog, p: seq<Edge>, q: seq<Edge>)
    ensures Total(negLog, p + q) == Total(negLog, p).Plus(Total(negLog, q))
  {
    if p == [] {
      assert p + q == q;
    } else {
      assert (p + q)[1..] == p[1..] + q;
      TotalConcat(negLog, p[1..], q);
    }
  }

  lemma TotalSnoc(negLog: NegLog, p: seq<Edge>, e: Edge)
    ensures Total(negLog, p + [e]) == Total(negLog, p).Plus(e.Weight(negLog))
  {
    TotalConcat(negLog, p, [e]);
    assert [e][1..] == [];
  }

  /** A closed walk whose nodes are distinct. */
  ghost predicate SimpleCycle(adj: Adjacency, p: seq<Edge>) {
    && p != []
    && Walk(adj, p, p[0].src, p[0].src)
    && forall i, j | 0 <= i < j < |p| :: p[i].src != p[j].src
  }

  /** `v` can be reached from `source` over edges of finite weight. */
  ghost predicate Reaches(adj: Adjacency, negLog: NegLog, source: string, v: string) {
    exists p :: Walk(adj, p, source, v) && Total(negLog, p).Finite?
  }

  lemma ReachesStep(adj: Adjacency, negLog: NegLog, source: string, e: Edge)
    requires Reaches(adj, negLog, source, e.src)
    requires IsEdge(adj, e) && e.Weight(negLog).Finite?
    ensures Reaches(adj, negLog, source, e.dst)
  {
    var p :| Walk(adj, p, source, e.src) && Total(negLog, p).Finite?;
    TotalSnoc(negLog, p, e);
    assert Walk(adj, p + [e], source, e.dst);
  }

  lemma ReachesSelf(adj: Adjacency, negLog: NegLog, source: string)
    ensures Reaches(adj, negLog, source, source)
  {
    assert Walk(adj, [], source, source) && Total(negLog, []).Finite?;
  }

  /** A closed path together with the nodes it visits; the first node is repeated at the end. */
  datatype Cycle = Cycle(assets: seq<string>, edges: seq<Edge>, total: Extended)

  function Nodes(start: string, p: seq<Edge>): (nodes: seq<string>)
    ensures |nodes| == |p| + 1 && nodes[0] == start
    ensures forall k | 0 <= k < |p| :: nodes[k + 1] == p[k].dst
    decreases |p|
  {
    if p == [] then [start] else [start] + Nodes(p[0].dst, p[1..])
  }

  function CycleOf(negLog: NegLog, start: string, p: seq<Edge>): Cycle {
    Cycle(Nodes(start, p), p, Total(negLog, p))
  }
}
