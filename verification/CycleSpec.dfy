/** The cycles a bounded depth-first search discovers, in order, and which cycles those are. */
module CycleSpec {
  import opened Collections
  import opened Sorting
  import opened Walks

  /** The nodes on a path, which the search must not enter again. */
  function Visited(start: string, path: seq<Edge>): set<string> {
    {start} + set e | e in path :: e.dst
  }

  function EdgesFrom(adj: Adjacency, asset: string): seq<Edge> {
    if asset in adj then adj[asset] else []
  }

  /** Discovery order below `current`, which `path` leads to. */
  function Explore(adj: Adjacency, negLog: NegLog, start: string, maxLength: int, path: seq<Edge>,
                   current: string): seq<Cycle>
    decreases maxLength - |path|, |EdgesFrom(adj, current)| + 1
  {
    if |path| >= maxLength then [] else ExploreEdges(adj, negLog, start, maxLength, path, EdgesFrom(adj, current))
  }

  function ExploreEdges(adj: Adjacency, negLog: NegLog, start: string, maxLength: int, path: seq<Edge>,
                        edges: seq<Edge>): seq<Cycle>
    requires |path| < maxLength
    decreases maxLength - |path|, |edges|
  {
    if edges == [] then []
    else
      ExploreEdge(adj, negLog, start, maxLength, path, edges[0])
      + ExploreEdges(adj, negLog, start, maxLength, path, edges[1..])
  }

  function ExploreEdge(adj: Adjacency, negLog: NegLog, start: string, maxLength: int, path: seq<Edge>,
                       e: Edge): seq<Cycle>
    requires |path| < maxLength
    decreases maxLength - |path|, 0
  {
    if e.dst == start && |path| >= 2 then
      if Total(negLog, path + [e]).Negative() then [CycleOf(negLog, start, path + [e])] else []
    else if e.dst in Visited(start, path) then []
    else Explore(adj, negLog, start, maxLength, path + [e], e.dst)
  }

  /** Edges traversed by the same search. */
  function Cost(adj: Adjacency, start: string, maxLength: int, path: seq<Edge>, current: string): nat
    decreases maxLength - |path|, |EdgesFrom(adj, current)| + 1
  {
    if |path| >= maxLength then 0 else CostEdges(adj, start, maxLength, path, EdgesFrom(adj, current))
  }

  function CostEdges(adj: Adjacency, start: string, maxLength: int, path: seq<Edge>, edges: seq<Edge>): nat
    requires |path| < maxLength
    decreases maxLength - |path|, |edges|
  {
    if edges == [] then 0
    else 1 + CostEdge(adj, start, maxLength, path, edges[0]) + CostEdges(adj, start, maxLength, path, edges[1..])
  }

  function CostEdge(adj: Adjacency, start: string, maxLength: int, path: seq<Edge>, e: Edge): nat
    requires |path| < maxLength
    decreases maxLength - |path|, 0
  {
    if e.dst == start && |path| >= 2 then 0
    else if e.dst in Visited(start, path) then 0
    else Cost(adj, start, maxLength, path + [e], e.dst)
  }

  /** What one traversal of `e` reports by itself. */
  function Discovery(negLog: NegLog, start: string, path: seq<Edge>, e: Edge): Option<Cycle> {
    if e.dst == start && |path| >= 2 && Total(negLog, path + [e]).Negative()
        then Some(CycleOf(negLog, start, path + [e]))
    else None
  }

  /** The search edge by edge: one entry per traversal, in order, with what that traversal reports. */
  function Trace(adj: Adjacency, negLog: NegLog, start: string, maxLength: int, path: seq<Edge>, current: string)
    : seq<Option<Cycle>>
    decreases maxLength - |path|, |EdgesFrom(adj, current)| + 1
  {
    if |path| >= maxLength then [] else TraceEdges(adj, negLog, start, maxLength, path, EdgesFrom(adj, current))
  }

  function TraceEdges(adj: Adjacency, negLog: NegLog, start: string, maxLength: int, path: seq<Edge>, edges: seq<Edge>)
    : seq<Option<Cycle>>
    requires |path| < maxLength
    decreases maxLength - |path|, |edges|
  {
    if edges == [] then []
    else
      [Discovery(negLog, start, path, edges[0])] + TraceBelow(adj, negLog, start, maxLength, path, edges[0])
      + TraceEdges(adj, negLog, start, maxLength, path, edges[1..])
  }

  /** The traversals beneath `e`: none when it closes a path or enters a visited node. */
  function TraceBelow(adj: Adjacency, negLog: NegLog, start: string, maxLength: int, path: seq<Edge>, e: Edge)
    : seq<Option<Cycle>>
    requires |path| < maxLength
    decreases maxLength - |path|, 0
  {
    if (e.dst == start && |path| >= 2) || e.dst in Visited(start, path) then []
    else Trace(adj, negLog, start, maxLength, path + [e], e.dst)
  }

  /** The cycles that a run of traversals reports. */
  function Reported(trace: seq<Option<Cycle>>): seq<Cycle> {
    if trace == [] then []
    else (if trace[0].Some? then [trace[0].value] else []) + Reported(trace[1..])
  }

  lemma {:induction false} ReportedConcat(a: seq<Option<Cycle>>, b: seq<Option<Cycle>>)
    ensures Reported(a + b) == Reported(a) + Reported(b)
  {
    if a == [] {
      assert a + b == b;
    } else {
      var head: seq<Cycle> := if a[0].Some? then [a[0].value] else [];
      assert (a + b)[0] == a[0] && (a + b)[1..] == a[1..] + b;
      assert Reported(a) == head + Reported(a[1..]) && Reported(a + b) == head + Reported(a[1..] + b);
      hide Reported;
      ReportedConcat(a[1..], b);
    }
  }

  /** Traversal by traversal the whole search reports its discoveries and makes as many steps as it costs. */
  lemma {:induction false} TraceIsExplore(adj: Adjacency, negLog: NegLog, start: string, maxLength: int,
                                          path: seq<Edge>, current: string)
    ensures Reported(Trace(adj, negLog, start, maxLength, path, current))
            == Explore(adj, negLog, start, maxLength, path, current)
    ensures |Trace(adj, negLog, start, maxLength, path, current)| == Cost(adj, start, maxLength, path, current)
    decreases maxLength - |path|, |EdgesFrom(adj, current)| + 1
  {
    if |path| < maxLength {
      EdgesTraced(adj, negLog, start, maxLength, path, EdgesFrom(adj, current));
    }
  }

  lemma {:induction false} EdgesTraced(adj: Adjacency, negLog: NegLog, start: string, maxLength: int,
                                       path: seq<Edge>, edges: seq<Edge>)
    requires |path| < maxLength
    ensures Reported(TraceEdges(adj, negLog, start, maxLength, path, edges))
            == ExploreEdges(adj, negLog, start, maxLength, path, edges)
    ensures |TraceEdges(adj, negLog, start, maxLength, path, edges)| == CostEdges(adj, start, maxLength, path, edges)
    decreases maxLength - |path|, |edges|
  {
    if edges != [] {
      var e := edges[0];
      var head, below := [Discovery(negLog, start, path, e)], TraceBelow(adj, negLog, start, maxLength, path, e);
      var rest := TraceEdges(adj, negLog, start, maxLength, path, edges[1..]);
      ReportedConcat(head + below, rest);
      ReportedConcat(head, below);
      EdgesTraced(adj, negLog, start, maxLength, path, edges[1..]);
      EdgeTraced(adj, negLog, start, maxLength, path, e);
    }
  }

  lemma {:induction false} EdgeTraced(adj: Adjacency, negLog: NegLog, start: string, maxLength: int,
                                      path: seq<Edge>, e: Edge)
    requires |path| < maxLength
    ensures var below := TraceBelow(adj, negLog, start, maxLength, path, e);
            && Reported([Discovery(negLog, start, path, e)]) + Reported(below)
               == ExploreEdge(adj, negLog, start, maxLength, path, e)
            && |below| == CostEdge(adj, start, maxLength, path, e)
    decreases maxLength - |path|, 0
  {
    if !(e.dst == start && |path| >= 2) && e.dst !in Visited(start, path) {
      TraceIsExplore(adj, negLog, start, maxLength, path + [e], e.dst);
    }
  }

  /** A cycle the search should report: simple, through `start`, 3 to `maxLength` legs. */
  ghost predicate Eligible(adj: Adjacency, start: string, maxLength: int, p: seq<Edge>) {
    3 <= |p| <= maxLength && SimpleCycle(adj, p) && p[0].src == start
  }

  /** A path from `start` to `current` that enters no node twice. */
  ghost predicate OpenPath(adj: Adjacency, start: string, path: seq<Edge>, current: string) {
    && Walk(adj, path, start, current)
    && (forall k | 0 <= k < |path| :: path[k].dst != start)
    && (forall i, j | 0 <= i < j < |path| :: path[i].dst != path[j].dst)
  }

  function Ways(copies: nat, rest: nat): nat {
    copies * rest
  }

  /** In how many ways the steps of `q` can be chosen from the adjacency lists. */
  function Choices(adj: Adjacency, q: seq<Edge>): nat {
    if q == [] then 1 else Ways(multiset(EdgesFrom(adj, q[0].src))[q[0]], Choices(adj, q[1..]))
  }

  /** How often the search should report the cycle `path + q` once it stands at the end of `path`. */
  ghost function Expected(adj: Adjacency, negLog: NegLog, start: string, maxLength: int, path: seq<Edge>,
                          q: seq<Edge>): nat {
    if q != [] && Eligible(adj, start, maxLength, path + q) && Total(negLog, path + q).Negative()
        then Choices(adj, q) else 0
  }

  /** Everything found below `path` is a cycle that begins with `path`. */
  ghost predicate AllExtend(negLog: NegLog, start: string, path: seq<Edge>, found: seq<Cycle>) {
    forall c | c in found :: c == CycleOf(negLog, start, c.edges) && path <= c.edges
  }

  lemma {:induction false} ExploreExtends(adj: Adjacency, negLog: NegLog, start: string, maxLength: int,
                                          path: seq<Edge>, current: string)
    ensures AllExtend(negLog, start, path, Explore(adj, negLog, start, maxLength, path, current))
    decreases maxLength - |path|, |EdgesFrom(adj, current)| + 1
  {
    if |path| < maxLength {
      EdgesExtend(adj, negLog, start, maxLength, path, EdgesFrom(adj, current));
    }
  }

  lemma {:induction false} EdgesExtend(adj: Adjacency, negLog: NegLog, start: string, maxLength: int, path: seq<Edge>,
                                       edges: seq<Edge>)
    requires |path| < maxLength
    ensures AllExtend(negLog, start, path, ExploreEdges(adj, negLog, start, maxLength, path, edges))
    decreases maxLength - |path|, |edges|
  {
    if edges != [] {
      EdgeExtends(adj, negLog, start, maxLength, path, edges[0]);
      EdgesExtend(adj, negLog, start, maxLength, path, edges[1..]);
    }
  }

  lemma {:induction false} EdgeExtends(adj: Adjacency, negLog: NegLog, start: string, maxLength: int, path: seq<Edge>,
                                       e: Edge)
    requires |path| < maxLength
    ensures AllExtend(negLog, start, path + [e], ExploreEdge(adj, negLog, start, maxLength, path, e))
    decreases maxLength - |path|, 0
  {
    if !(e.dst == start && |path| >= 2) && e.dst !in Visited(start, path) {
      ExploreExtends(adj, negLog, start, maxLength, path + [e], e.dst);
    }
  }

  /** A step into a visited node repeats that node as the start of an earlier edge. */
  lemma Revisits(adj: Adjacency, start: string, path: seq<Edge>, current: string, q: seq<Edge>)
    requires Walk(adj, path, start, current) && Chained(path + q)
    requires |q| >= 2 && q[0].dst in Visited(start, path) && (path == [] ==> q[0].src == start)
    ensures exists i :: 0 <= i <= |path| && (path + q)[i].src == (path + q)[|path| + 1].src
  {
    var p, n := path + q, |path|;
    assert p[n] == q[0] && p[n].dst == p[n + 1].src;
    if q[0].dst == start {
      assert p[0].src == start;
    } else {
      var e :| e in path && e.dst == q[0].dst;
      var k :| 0 <= k < n && path[k] == e;
      assert p[k] == path[k] && p[k].dst == p[k + 1].src;
    }
  }

  /**
   * `path + q` turns back into `start` or into `path` at once: only a closing edge of a long enough path is a
   * cycle.
   */
  lemma Closing(adj: Adjacency, start: string, maxLength: int, path: seq<Edge>, current: string, q: seq<Edge>)
    requires OpenPath(adj, start, path, current) && |path| < maxLength
    requires q != [] && q[0].dst in Visited(start, path)
    ensures Eligible(adj, start, maxLength, path + q) ==> q[0].dst == start && |q| == 1 && |path| >= 2
  {
    var p := path + q;
    if Eligible(adj, start, maxLength, p) {
      assert path == [] ==> p == q;
      if |q| >= 2 {
        Revisits(adj, start, path, current, q);
        assert false;
      }
      assert p[|p| - 1] == q[0];
    }
  }

  /** An open path of two or more edges closed by an edge of the graph is a simple cycle. */
  lemma Closed(adj: Adjacency, start: string, maxLength: int, path: seq<Edge>, current: string, e: Edge)
    requires OpenPath(adj, start, path, current) && 2 <= |path| < maxLength
    requires IsEdge(adj, e) && e.src == current && e.dst == start
    ensures Eligible(adj, start, maxLength, path + [e])
  {
    var p, n := path + [e], |path|;
    assert forall k | 0 <= k < n :: p[k] == path[k];
    assert p[n] == e && path[n - 1].dst == current;
    forall k | 0 <= k < |p| ensures IsEdge(adj, p[k]) {
    }
    forall k | 0 <= k < |p| - 1 ensures p[k].dst == p[k + 1].src {
    }
    forall i, j | 0 <= i < j < |p| ensures p[i].src != p[j].src {
      assert p[j].src == p[j - 1].dst == path[j - 1].dst;
      if i > 0 {
        assert p[i].src == p[i - 1].dst == path[i - 1].dst;
      }
    }
  }

  lemma OpenStep(adj: Adjacency, start: string, path: seq<Edge>, current: string, e: Edge)
    requires OpenPath(adj, start, path, current) && IsEdge(adj, e) && e.src == current && e.dst !in Visited(start, path)
    ensures OpenPath(adj, start, path + [e], e.dst)
  {
  }

  /** The search reports `path + q` exactly as often as its edges can be chosen, if it is a profitable cycle. */
  lemma {:induction false} ExploreCounts(adj: Adjacency, negLog: NegLog, start: string, maxLength: int,
                                         path: seq<Edge>, current: string, q: seq<Edge>)
    requires WellFormed(adj) && OpenPath(adj, start, path, current)
    ensures multiset(Explore(adj, negLog, start, maxLength, path, current))[CycleOf(negLog, start, path + q)]
            == Expected(adj, negLog, start, maxLength, path, q)
    decreases maxLength - |path|, |EdgesFrom(adj, current)| + 1
  {
    if |path| < maxLength {
      EdgesCount(adj, negLog, start, maxLength, path, current, EdgesFrom(adj, current), q);
      if q != [] && q[0].src != current {
        NotEligible(adj, start, maxLength, path, current, q);
      }
      hide Eligible, OpenPath, CycleOf, Total, ExploreEdges, WellFormed;
    } else if q != [] {
      assert |path + q| > maxLength;
    }
  }

  lemma NotEligible(adj: Adjacency, start: string, maxLength: int, path: seq<Edge>, current: string, q: seq<Edge>)
    requires OpenPath(adj, start, path, current) && q != [] && q[0].src != current
    ensures !Eligible(adj, start, maxLength, path + q)
  {
    var p := path + q;
    assert p[|path|] == q[0];
    if path != [] {
      assert p[|path| - 1] == path[|path| - 1];
    }
  }

  lemma {:induction false} EdgesCount(adj: Adjacency, negLog: NegLog, start: string, maxLength: int, path: seq<Edge>,
                                      current: string,
                                      edges: seq<Edge>, q: seq<Edge>)
    requires WellFormed(adj) && OpenPath(adj, start, path, current) && |path| < maxLength
    requires forall e | e in edges :: IsEdge(adj, e) && e.src == current
    ensures multiset(ExploreEdges(adj, negLog, start, maxLength, path, edges))[CycleOf(negLog, start, path + q)]
            == (if q == [] then 0 else Ways(multiset(edges)[q[0]], StepCount(adj, negLog, start, maxLength, path, q)))
    decreases maxLength - |path|, |edges|
  {
    hide Eligible, OpenPath, Total, Choices, Explore, ExploreEdge, WellFormed, StepCount, Ways, CycleOf;
    if edges == [] {
      NoWays(if q == [] then 0 else StepCount(adj, negLog, start, maxLength, path, q));
    } else {
      var e, rest := edges[0], edges[1..];
      var target := CycleOf(negLog, start, path + q);
      EdgesCount(adj, negLog, start, maxLength, path, current, rest, q);
      assert edges == [e] + rest;
      var here, later := ExploreEdge(adj, negLog, start, maxLength, path, e),
          ExploreEdges(adj, negLog, start, maxLength, path, rest);
      assert ExploreEdges(adj, negLog, start, maxLength, path, edges) == here + later;
      assert multiset(here + later)[target] == multiset(here)[target] + multiset(later)[target];
      hide ExploreEdges;
      if q != [] && q[0] == e {
        EdgeCount(adj, negLog, start, maxLength, path, current, q);
        Distribute(multiset(rest)[e], StepCount(adj, negLog, start, maxLength, path, q));
        assert multiset(edges)[e] == multiset(rest)[e] + 1;
      } else {
        OtherEdge(adj, negLog, start, maxLength, path, e, q);
        assert q != [] ==> multiset(edges)[q[0]] == multiset(rest)[q[0]];
      }
    }
  }

  lemma NoWays(c: nat)
    ensures Ways(0, c) == 0
  {
  }

  lemma OtherEdge(adj: Adjacency, negLog: NegLog, start: string, maxLength: int, path: seq<Edge>, e: Edge, q: seq<Edge>)
    requires |path| < maxLength && (q == [] || q[0] != e)
    ensures multiset(ExploreEdge(adj, negLog, start, maxLength, path, e))[CycleOf(negLog, start, path + q)] == 0
  {
    EdgeExtends(adj, negLog, start, maxLength, path, e);
    assert (path + [e])[|path|] == e && (q != [] ==> (path + q)[|path|] == q[0]);
  }

  lemma Distribute(m: nat, c: nat)
    ensures Ways(m + 1, c) == c + Ways(m, c)
  {
  }

  /** How often the cycle `path + q` is expected below one copy of its next edge. */
  ghost function StepCount(adj: Adjacency, negLog: NegLog, start: string, maxLength: int, path: seq<Edge>,
                           q: seq<Edge>): nat
    requires q != []
  {
    if Eligible(adj, start, maxLength, path + q) && Total(negLog, path + q).Negative() then Choices(adj, q[1..]) else 0
  }

  lemma {:induction false} EdgeCount(adj: Adjacency, negLog: NegLog, start: string, maxLength: int, path: seq<Edge>,
                                     current: string, q: seq<Edge>)
    requires WellFormed(adj) && OpenPath(adj, start, path, current) && |path| < maxLength
    requires q != [] && IsEdge(adj, q[0]) && q[0].src == current
    ensures multiset(ExploreEdge(adj, negLog, start, maxLength, path, q[0]))[CycleOf(negLog, start, path + q)]
            == StepCount(adj, negLog, start, maxLength, path, q)
    decreases maxLength - |path|, 0
  {
    var e := q[0];
    if e.dst in Visited(start, path) {
      Closing(adj, start, maxLength, path, current, q);
      if e.dst == start && |path| >= 2 {
        if |q| == 1 {
          assert q == [e] && q[1..] == [];
          Closed(adj, start, maxLength, path, current, e);
        } else {
          assert |path + q| != |path + [e]|;
        }
      }
    } else {
      OpenStep(adj, start, path, current, e);
      assert path + q == path + [e] + q[1..];
      ExploreCounts(adj, negLog, start, maxLength, path + [e], e.dst, q[1..]);
      if q[1..] == [] {
        assert (path + q)[|path + q| - 1] == e;
        assert e.dst != start;
      }
    }
  }

  lemma {:induction false} ChoicesPositive(adj: Adjacency, q: seq<Edge>)
    requires forall k | 0 <= k < |q| :: IsEdge(adj, q[k])
    ensures Choices(adj, q) >= 1
  {
    if q != [] {
      ChoicesPositive(adj, q[1..]);
      AtLeast(multiset(EdgesFrom(adj, q[0].src))[q[0]], Choices(adj, q[1..]));
    }
  }

  lemma AtLeast(m: nat, c: nat)
    requires m >= 1 && c >= 1
    ensures Ways(m, c) >= 1
  {
  }

  /** No adjacency list names an edge twice. */
  ghost predicate NoParallelCopies(adj: Adjacency) {
    forall a | a in adj :: Distinct(adj[a])
  }

  lemma {:induction false} ChoicesUnique(adj: Adjacency, q: seq<Edge>)
    requires NoParallelCopies(adj) && forall k | 0 <= k < |q| :: IsEdge(adj, q[k])
    ensures Choices(adj, q) == 1
  {
    if q != [] {
      ChoicesUnique(adj, q[1..]);
      OncePresent(adj[q[0].src], q[0]);
    }
  }

  /**
   * The uncapped search reports each profitable simple cycle through `start` of 3 to `maxLength`
   * legs once per choice of its edges, and reports nothing else.
   */
  lemma ReportsExactly(adj: Adjacency, negLog: NegLog, start: string, maxLength: int, c: Cycle)
    requires WellFormed(adj) && start in adj
    ensures multiset(Explore(adj, negLog, start, maxLength, [], start))[c]
            == if c == CycleOf(negLog, start, c.edges) && Eligible(adj, start, maxLength, c.edges) && c.total.Negative()
               then Choices(adj, c.edges) else 0
    ensures c in Explore(adj, negLog, start, maxLength, [], start)
            <==> c == CycleOf(negLog, start, c.edges) && Eligible(adj, start, maxLength, c.edges) && c.total.Negative()
  {
    var found := Explore(adj, negLog, start, maxLength, [], start);
    ExploreExtends(adj, negLog, start, maxLength, [], start);
    ExploreCounts(adj, negLog, start, maxLength, [], start, c.edges);
    assert [] + c.edges == c.edges;
    assert c in found <==> multiset(found)[c] > 0;
    if Eligible(adj, start, maxLength, c.edges) {
      ChoicesPositive(adj, c.edges);
    }
  }
}
