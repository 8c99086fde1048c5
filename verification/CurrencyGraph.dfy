/** The multigraph of conversion edges, its bounded enumeration of cycles and its Bellman-Ford search. */
module CurrencyGraphs {
  import opened Collections
  import opened Walks
  import opened Sorting
  import opened Relaxation
  import opened BellmanFord
  import opened CycleSpec
  import opened CycleSearches

  /** The sort key `total_weight`. */
  predicate LighterFirst(a: Cycle, b: Cycle) {
    b.total.Infinite? || (a.total.Finite? && a.total.value <= b.total.value)
  }

  const RELAX_TOLERANCE: real := 0.000000000001

  /** The adjacency with `edge` listed last at its source, and its destination present. */
  function EdgeAdded(adj: Adjacency, edge: Edge): Adjacency {
    var more := adj[edge.src := (if edge.src in adj then adj[edge.src] else []) + [edge]];
    if edge.dst in more then more else more[edge.dst := []]
  }

  /** A node met for the first time goes last. */
  function NodeAdded(nodes: seq<string>, a: string): seq<string> {
    if a in nodes then nodes else nodes + [a]
  }

  /** The graph with `edge` listed last at its source; of two new ends the source comes first. */
  function WithEdge(d: Dict<string, seq<Edge>>, edge: Edge): Dict<string, seq<Edge>> {
    Dict(NodeAdded(NodeAdded(d.keys, edge.src), edge.dst), EdgeAdded(d.entries, edge))
  }

  lemma EdgeAddedWellFormed(adj: Adjacency, edge: Edge)
    requires WellFormed(adj)
    ensures WellFormed(EdgeAdded(adj, edge))
    ensures EdgeAdded(adj, edge).Keys == adj.Keys + {edge.src, edge.dst}
    ensures forall e :: IsEdge(EdgeAdded(adj, edge), e) <==> IsEdge(adj, e) || e == edge
  {
  }

  /** The edge goes last at its source, new nodes go last with the source first, and nothing else changes. */
  lemma WithEdgeMeans(d: Dict<string, seq<Edge>>, edge: Edge)
    ensures var more := WithEdge(d, edge);
            && edge.src in more.entries && edge.dst in more.entries
            && more.entries[edge.src] == EdgesFrom(d.entries, edge.src) + [edge]
            && (forall a | a in more.entries && a != edge.src :: more.entries[a] == EdgesFrom(d.entries, a))
            && (d.Valid() ==> more.keys == d.keys + (if edge.src in d.entries then [] else [edge.src])
                              + (if edge.dst in d.entries || edge.dst == edge.src then [] else [edge.dst]))
  {
  }

  /** Traversals that a search makes before the cap stops it. */
  function Traversals(adj: Adjacency, start: string, maxLength: int, cap: Option<int>): nat {
    var cost := Cost(adj, start, maxLength, [], start);
    if cap.None? || cost <= cap.value then cost else if cap.value > 0 then cap.value else 0
  }

  /** What those traversals report, lightest first. */
  function FoundBy(adj: Adjacency, negLog: NegLog, start: string, maxLength: int, cap: Option<int>): seq<Cycle> {
    TraceIsExplore(adj, negLog, start, maxLength, [], start);
    SortBy(Reported(Trace(adj, negLog, start, maxLength, [], start)[..Traversals(adj, start, maxLength, cap)]),
           LighterFirst)
  }

  lemma LighterFirstOrders(cycles: seq<Cycle>)
    ensures var sorted := SortBy(cycles, LighterFirst);
            forall i, j | 0 <= i < j < |sorted| :: sorted[j].total.Finite? ==>
              sorted[i].total.Finite? && sorted[i].total.value <= sorted[j].total.value
  {
    SortByOrdered(cycles, LighterFirst);
  }

  /** What a search from scratch has found when it returns. */
  lemma SearchResult(adj: Adjacency, negLog: NegLog, start: string, maxLength: int, cap: Option<int>,
                     results: seq<Cycle>, expansions: nat, truncated: bool)
    requires Searched(cap, [], 0, Trace(adj, negLog, start, maxLength, [], start), results, expansions, truncated)
    ensures var trace := Trace(adj, negLog, start, maxLength, [], start);
            var cost := Cost(adj, start, maxLength, [], start);
            && (truncated <==> cap.Some? && cost > 0 && cost > cap.value)
            && expansions == Traversals(adj, start, maxLength, cap) <= |trace|
            && (cap.Some? ==> expansions == 0 || expansions <= cap.value)
            && results == Reported(trace[..expansions])
            && SortBy(results, LighterFirst) == FoundBy(adj, negLog, start, maxLength, cap)
    ensures !truncated ==> results == Explore(adj, negLog, start, maxLength, [], start)
  {
    TraceIsExplore(adj, negLog, start, maxLength, [], start);
    hide Trace, Explore, CycleSpec.Cost, Reported, SortBy;
    var trace := Trace(adj, negLog, start, maxLength, [], start);
    assert trace[..|trace|] == trace;
    assert [] + Reported(trace[..expansions]) == Reported(trace[..expansions]);
  }

  class CurrencyGraph {
    const negLog: NegLog
    var adjacency: Dict<string, seq<Edge>>

    ghost predicate Valid()
      reads this
    {
      adjacency.Valid() && WellFormed(adjacency.entries)
    }

    constructor (negLog: NegLog)
      ensures Valid() && adjacency == Dict([], map[]) && this.negLog == negLog
    {
      this.negLog := negLog;
      adjacency := Dict([], map[]);
    }

    method AddEdge(edge: Edge)
      requires Valid()
      modifies this
      ensures Valid()
      ensures adjacency == WithEdge(old(adjacency), edge)
    {
      EdgeAddedWellFormed(adjacency.entries, edge);
      hide WellFormed;
      var listed := if edge.src in adjacency.entries then adjacency.entries[edge.src] else [];
      adjacency := adjacency.Put(edge.src, listed + [edge]);
      if edge.dst !in adjacency.entries {
        adjacency := adjacency.Put(edge.dst, []);
      }
    }

    method BellmanFordNegativeCycle(source: string) returns (r: Option<Cycle>)
      requires Valid()
      ensures Outcome(adjacency.entries, negLog, source, 0.000000000001, r)
      ensures r.Some? <==> Answers(adjacency, negLog, source, 0.000000000001)
    {
      r := NegativeCycleWithin(source, RELAX_TOLERANCE);
    }

    /**
     * Profitable simple cycles through `startAsset`, lightest first: what the first `expansions`
     * traversals of the search report. Without a cap, or below it, that is all of them; at the cap the
     * traversals stop exactly there.
     */
    method FindCycles(startAsset: string, maxLength: int, maxExpansions: Option<int>)
      returns (cycles: seq<Cycle>, truncated: bool, ghost expansions: nat)
      requires Valid()
      ensures startAsset !in adjacency.entries ==> cycles == [] && !truncated
      ensures startAsset in adjacency.entries ==>
                var trace := Trace(adjacency.entries, negLog, startAsset, maxLength, [], startAsset);
                var cost := Cost(adjacency.entries, startAsset, maxLength, [], startAsset);
                && (truncated <==> maxExpansions.Some? && cost > 0 && cost > maxExpansions.value)
                && expansions == Traversals(adjacency.entries, startAsset, maxLength, maxExpansions) <= |trace|
                && cycles == FoundBy(adjacency.entries, negLog, startAsset, maxLength, maxExpansions)
                && cycles == SortBy(Reported(trace[..expansions]), LighterFirst)
      ensures startAsset in adjacency.entries && !truncated ==>
                var found := Explore(adjacency.entries, negLog, startAsset, maxLength, [], startAsset);
                cycles == SortBy(found, LighterFirst)
      ensures forall i, j | 0 <= i < j < |cycles| :: cycles[j].total.Finite? ==>
                cycles[i].total.Finite? && cycles[i].total.value <= cycles[j].total.value
      ensures maxExpansions.Some? ==> expansions == 0 || expansions <= maxExpansions.value
    {
      expansions := 0;
      if startAsset !in adjacency.entries {
        return [], false, 0;
      }
      var search := new CycleSearch(adjacency, negLog, startAsset, maxLength, maxExpansions);
      assert search.Consistent();
      hide *;
      search.Dfs(startAsset, Finite(0.0));
      truncated, expansions := search.truncated, search.expansions;
      SearchResult(adjacency.entries, negLog, startAsset, maxLength, maxExpansions, search.results, expansions,
                   truncated);
      cycles := SortBy(search.results, LighterFirst);
      LighterFirstOrders(search.results);
    }

    /** Finds one negative cycle reachable from `source`; `eps` is the relaxation tolerance. */
    method NegativeCycleWithin(source: string, eps: real) returns (r: Option<Cycle>)
      requires Valid() && eps >= 0.0
      ensures Outcome(adjacency.entries, negLog, source, eps, r)
      ensures r.Some? <==> Answers(adjacency, negLog, source, eps)
    {
      if source !in adjacency.entries {
        return None;
      }
      var pred, cycleStart := RelaxAll(adjacency, negLog, source, eps);
      ghost var s :| SearchEnd(adjacency, negLog, source, eps, pred, cycleStart, s);
      if cycleStart == None {
        SettledOutcome(adjacency.entries, negLog, source, eps, s);
        return None;
      }
      var node;
      ghost var period;
      node, period := Land(adjacency, negLog, source, eps, pred, cycleStart.value, s);
      var cycle := Unwind(negLog, adjacency.entries, source, eps, pred, node, s, period);
      r := Some(cycle);
    }
  }

  /** Every edge listed before node `a` is scanned. */
  ghost predicate ScannedBefore(adjacency: Dict<string, seq<Edge>>, a: nat, scanned: set<Edge>)
    requires adjacency.Valid()
  {
    a <= |adjacency.keys| && forall c, e | 0 <= c < a && e in adjacency.entries[adjacency.keys[c]] :: e in scanned
  }

  lemma AllScanned(adjacency: Dict<string, seq<Edge>>, scanned: set<Edge>)
    requires adjacency.Valid() && ScannedBefore(adjacency, |adjacency.keys|, scanned)
    ensures forall e | IsEdge(adjacency.entries, e) :: e in scanned
  {
    forall e | IsEdge(adjacency.entries, e) ensures e in scanned {
      var c :| 0 <= c < |adjacency.keys| && adjacency.keys[c] == e.src;
    }
  }

  lemma NodeScanned(adjacency: Dict<string, seq<Edge>>, a: nat, scanned: set<Edge>, more: set<Edge>)
    requires adjacency.Valid() && ScannedBefore(adjacency, a, scanned) && a < |adjacency.keys| && scanned <= more
    requires forall e | e in adjacency.entries[adjacency.keys[a]] :: e in more
    ensures ScannedBefore(adjacency, a + 1, more)
  {
  }

  /** Relaxes the edges of one node, in place. */
  method RelaxNode(adj: Adjacency, negLog: NegLog, ghost source: string, eps: real, ghost i: nat, src: string,
                   dist0: map<string, Extended>, pred0: map<string, Option<Edge>>, updated0: Option<string>,
                   ghost s0: Labels, ghost scanned0: set<Edge>)
    returns (dist: map<string, Extended>, pred: map<string, Option<Edge>>, updated: Option<string>,
             ghost s: Labels, ghost scanned: set<Edge>)
    requires WellFormed(adj) && src in adj
    requires InPass(adj, negLog, source, eps, s0, i, scanned0, updated0)
    requires s0.dist == dist0 && s0.pred == pred0 && dist0.Keys == adj.Keys
    ensures InPass(adj, negLog, source, eps, s, i, scanned, updated)
    ensures s.dist == dist && s.pred == pred && dist.Keys == adj.Keys
    ensures Sweep(dist, pred, updated) == SweepEdges(negLog, eps, Sweep(dist0, pred0, updated0), adj[src])
    ensures scanned0 <= scanned && forall e | e in adj[src] :: e in scanned
  {
    hide InPass, SweepEdges;
    var edges := adj[src];
    dist, pred, updated, s, scanned := dist0, pred0, updated0, s0, scanned0;
    ghost var start := Sweep(dist0, pred0, updated0);
    NothingSwept(adj, negLog, eps, start);
    assert edges[..0] == [];
    for b := 0 to |edges|
      invariant InPass(adj, negLog, source, eps, s, i, scanned, updated)
      invariant s.dist == dist && s.pred == pred && dist.Keys == adj.Keys
      invariant Sweep(dist, pred, updated) == SweepEdges(negLog, eps, start, edges[..b])
      invariant scanned0 <= scanned && forall c | 0 <= c < b :: edges[c] in scanned
    {
      var edge := edges[b];
      SweepEdgesNext(negLog, eps, start, edges, b);
      assert edge.src == src && edge.dst in adj;
      var candidate := dist[src].Plus(edge.Weight(negLog));
      if candidate.Finite? && (dist[edge.dst].Infinite? || candidate.value < dist[edge.dst].value - eps) {
        ScanImproving(adj, negLog, source, eps, s, i, scanned, updated, edge);
        dist := dist[edge.dst := candidate];
        pred := pred[edge.dst := Some(edge)];
        updated := Some(edge.dst);
        s := Relaxed(negLog, s, edge, i);
      } else {
        ScanIdle(adj, negLog, source, eps, s, i, scanned, updated, {edge});
      }
      scanned := scanned + {edge};
    }
    assert edges[..|edges|] == edges;
  }

  /** One sweep over every adjacency list, in place. */
  method RelaxOnce(adjacency: Dict<string, seq<Edge>>, negLog: NegLog, ghost source: string, eps: real, i: nat,
                   dist0: map<string, Extended>, pred0: map<string, Option<Edge>>, ghost s0: Labels)
    returns (dist: map<string, Extended>, pred: map<string, Option<Edge>>, updated: Option<string>, ghost s: Labels)
    requires adjacency.Valid() && WellFormed(adjacency.entries)
    requires InPass(adjacency.entries, negLog, source, eps, s0, i, {}, None)
    requires s0.dist == dist0 && s0.pred == pred0 && dist0.Keys == adjacency.entries.Keys
    ensures InPass(adjacency.entries, negLog, source, eps, s, i + 1, {}, None)
    ensures s.dist == dist && s.pred == pred && dist.Keys == adjacency.entries.Keys
    ensures Sweep(dist, pred, updated) == PassOf(adjacency, negLog, eps, dist0, pred0)
    ensures match updated
            case None => Settled(adjacency.entries, negLog, eps, s)
            case Some(v) => v in adjacency.entries && v in s.round && s.round[v] == i
  {
    hide InPass, Settled, SweepNodes, SweepEdges, ScannedBefore, WellFormed;
    ghost var adj := adjacency.entries;
    dist, pred, updated, s := dist0, pred0, None, s0;
    ghost var start, scanned: set<Edge> := Sweep(dist0, pred0, None), {};
    NothingSwept(adj, negLog, eps, start);
    NothingScanned(adjacency);
    assert adjacency.keys[..0] == [];
    for a := 0 to |adjacency.keys|
      invariant InPass(adj, negLog, source, eps, s, i, scanned, updated)
      invariant s.dist == dist && s.pred == pred && dist.Keys == adj.Keys
      invariant Sweep(dist, pred, updated) == SweepNodes(adj, negLog, eps, start, adjacency.keys[..a])
      invariant ScannedBefore(adjacency, a, scanned)
    {
      var src := adjacency.keys[a];
      SweepNodesNext(adj, negLog, eps, start, adjacency.keys, a);
      ghost var before := scanned;
      if dist[src] == Infinite {
        ghost var idle := set e | e in adj[src];
        IdleEdges(adj, src);
        ScanIdle(adj, negLog, source, eps, s, i, scanned, updated, idle);
        scanned := scanned + idle;
        NodeScanned(adjacency, a, before, scanned);
        continue;
      }
      dist, pred, updated, s, scanned :=
        RelaxNode(adjacency.entries, negLog, source, eps, i, src, dist, pred, updated, s, scanned);
      NodeScanned(adjacency, a, before, scanned);
    }
    assert adjacency.keys[..|adjacency.keys|] == adjacency.keys;
    AllScanned(adjacency, scanned);
    PassDone(adj, negLog, source, eps, s, i, scanned, updated);
  }

  lemma IdleEdges(adj: Adjacency, src: string)
    requires WellFormed(adj) && src in adj
    ensures forall e | e in adj[src] :: e.src == src && e.dst in adj
  {
  }

  lemma NothingScanned(adjacency: Dict<string, seq<Edge>>)
    requires adjacency.Valid()
    ensures ScannedBefore(adjacency, 0, {})
  {
  }

  lemma NothingSwept(adj: Adjacency, negLog: NegLog, eps: real, s: Sweep)
    ensures SweepNodes(adj, negLog, eps, s, []) == s && SweepEdges(negLog, eps, s, []) == s
  {
  }

  /** The labels at the end: settled, or with a node updated in the very last pass. */
  ghost predicate SearchEnd(adjacency: Dict<string, seq<Edge>>, negLog: NegLog, source: string, eps: real,
                            pred: map<string, Option<Edge>>, cycleStart: Option<string>, s: Labels) {
    && Inv(adjacency.entries, negLog, source, eps, s) && s.pred == pred
    && match cycleStart
       case None => Settled(adjacency.entries, negLog, eps, s)
       case Some(v) => v in adjacency.entries && s.round[v] == |adjacency.keys| - 1
  }

  /** Up to one pass per node, stopping early when nothing changes. */
  method RelaxAll(adjacency: Dict<string, seq<Edge>>, negLog: NegLog, source: string, eps: real)
    returns (pred: map<string, Option<Edge>>, cycleStart: Option<string>)
    requires adjacency.Valid() && WellFormed(adjacency.entries) && source in adjacency.entries && eps >= 0.0
    ensures exists s :: SearchEnd(adjacency, negLog, source, eps, pred, cycleStart, s)
    ensures cycleStart.Some? <==> Answers(adjacency, negLog, source, eps)
  {
    hide *;
    ghost var adj := adjacency.entries;
    var dist := StartDist(adjacency.entries, source);
    pred := StartPred(adjacency.entries);
    cycleStart := None;
    ghost var s, done := Start(adj, source), 0;
    ghost var n, last := |adjacency.keys|, LastUpdate(adjacency, negLog, eps, dist, pred, |adjacency.keys|);
    SearchStarts(adjacency, negLog, source, eps);
    for i := 0 to |adjacency.keys|
      invariant done == i && InPass(adj, negLog, source, eps, s, i, {}, None)
      invariant s.dist == dist && s.pred == pred && dist.Keys == adj.Keys
      invariant i < n ==> cycleStart == None && LastUpdate(adjacency, negLog, eps, dist, pred, n - i) == last
      invariant i == n ==> cycleStart == last && EndsAt(adjacency, negLog, eps, s, cycleStart)
    {
      LastUpdateNext(adjacency, negLog, eps, dist, pred, n - i);
      var updated;
      dist, pred, updated, s := RelaxOnce(adjacency, negLog, source, eps, i, dist, pred, s);
      done := i + 1;
      EndOfPass(adjacency, negLog, eps, s, i, updated);
      if i == |adjacency.keys| - 1 {
        cycleStart := updated;
      }
      if updated == None {
        break;
      }
    }
    SearchEnded(adjacency, negLog, source, eps, pred, cycleStart, s, done);
  }

  lemma SearchStarts(adjacency: Dict<string, seq<Edge>>, negLog: NegLog, source: string, eps: real)
    requires adjacency.Valid() && WellFormed(adjacency.entries) && source in adjacency.entries && eps >= 0.0
    ensures var adj, s := adjacency.entries, Start(adjacency.entries, source);
            && InPass(adj, negLog, source, eps, s, 0, {}, None)
            && s.dist == StartDist(adj, source) && s.pred == StartPred(adj) && s.dist.Keys == adj.Keys
            && |adjacency.keys| > 0
            && (Answers(adjacency, negLog, source, eps)
                <==> LastUpdate(adjacency, negLog, eps, s.dist, s.pred, |adjacency.keys|).Some?)
  {
    StartInv(adjacency.entries, negLog, source, eps);
    assert source in adjacency.keys;
  }

  /** How the search can end: with nothing to improve, or with a node updated in the very last pass. */
  ghost predicate EndsAt(adjacency: Dict<string, seq<Edge>>, negLog: NegLog, eps: real, s: Labels,
                         cycleStart: Option<string>) {
    match cycleStart
    case None => Settled(adjacency.entries, negLog, eps, s)
    case Some(v) => v in adjacency.entries && v in s.round && s.round[v] == |adjacency.keys| - 1
  }

  lemma EndOfPass(adjacency: Dict<string, seq<Edge>>, negLog: NegLog, eps: real, s: Labels, i: nat,
                  updated: Option<string>)
    requires match updated
             case None => Settled(adjacency.entries, negLog, eps, s)
             case Some(v) => v in adjacency.entries && v in s.round && s.round[v] == i
    ensures updated == None || i == |adjacency.keys| - 1 ==> EndsAt(adjacency, negLog, eps, s, updated)
  {
  }

  lemma SearchEnded(adjacency: Dict<string, seq<Edge>>, negLog: NegLog, source: string, eps: real,
                    pred: map<string, Option<Edge>>, cycleStart: Option<string>, s: Labels, i: nat)
    requires InPass(adjacency.entries, negLog, source, eps, s, i, {}, None)
    requires s.pred == pred && EndsAt(adjacency, negLog, eps, s, cycleStart)
    ensures SearchEnd(adjacency, negLog, source, eps, pred, cycleStart, s)
  {
  }

  /** As many predecessor steps as there are nodes: neither step can fall off the tree. */
  method Land(adjacency: Dict<string, seq<Edge>>, ghost negLog: NegLog, ghost source: string, ghost eps: real,
              pred: map<string, Option<Edge>>, cycleStart: string, ghost s: Labels)
    returns (node: string, ghost period: nat)
    requires adjacency.Valid() && Inv(adjacency.entries, negLog, source, eps, s) && s.pred == pred
    requires cycleStart in adjacency.entries && s.round[cycleStart] == |adjacency.keys| - 1
    ensures node in adjacency.entries && OnCycle(pred, node, period)
  {
    hide Inv, OnCycle, Dict.Valid;
    ghost var adj := adjacency.entries;
    InvKeys(adj, negLog, source, eps, s);
    node := cycleStart;
    ghost var trail := [node];
    for k := 0 to |adjacency.keys|
      invariant |trail| == k + 1 && trail[k] == node && Trail(pred, trail)
      invariant forall x | x in trail :: x in adj
      invariant s.round[node] >= |adjacency.keys| - 1 - k
    {
      StepBack(adj, negLog, source, eps, s, node);
      var edge := pred[node];
      if edge == None {
        assert false;
        break;
      }
      node := edge.value.src;
      trail := trail + [node];
    }
    KeyCount(adjacency);
    period := Landed(pred, trail, adj.Keys);
  }

  lemma KeyCount<K, V>(d: Dict<K, V>)
    requires d.Valid()
    ensures |d.keys| == |d.entries.Keys|
  {
    DistinctBound(d.keys, d.entries.Keys);
    SetBound(d.keys, d.entries.Keys);
  }

  lemma {:induction false} SetBound<T>(s: seq<T>, all: set<T>)
    requires forall x | x in all :: x in s
    ensures |all| <= |s|
  {
    if s != [] {
      SetBound(s[1..], all - {s[0]});
    }
  }

  function Reversed<T>(s: seq<T>): seq<T> {
    if s == [] then [] else Reversed(s[1..]) + [s[0]]
  }

  lemma {:induction false} ReversedSnoc<T>(s: seq<T>, x: T)
    ensures Reversed(s + [x]) == [x] + Reversed(s)
  {
    if s == [] {
      assert [x][1..] == [] && [] + [x] == [x];
    } else {
      assert (s + [x])[1..] == s[1..] + [x];
      ReversedSnoc(s[1..], x);
    }
  }

  /** `path` is the part of the cycle unwound so far, from `current` to `node`. */
  ghost predicate Unwound(adj: Adjacency, negLog: NegLog, pred: map<string, Option<Edge>>, current: string,
                          node: string,
                          path: seq<Edge>, total: Extended) {
    && Walk(adj, path, current, node) && total == Total(negLog, path)
    && Chase(pred, node, |path|) == Some(current)
    && forall j | 0 <= j < |path| :: Chase(pred, node, |path| - j) == Some(path[j].src)
  }

  lemma UnwindStep(adj: Adjacency, negLog: NegLog, pred: map<string, Option<Edge>>, current: string, node: string,
                   path: seq<Edge>, total: Extended, e: Edge)
    requires Unwound(adj, negLog, pred, current, node, path, total)
    requires current in pred && pred[current] == Some(e) && IsEdge(adj, e) && e.dst == current
    ensures Unwound(adj, negLog, pred, e.src, node, [e] + path, total.Plus(e.Weight(negLog)))
    ensures Nodes(e.src, [e] + path) == [e.src] + Nodes(current, path)
  {
    var longer := [e] + path;
    assert longer[1..] == path;
    assert Walk(adj, longer, e.src, node) by {
      assert forall j | 1 <= j < |longer| :: longer[j] == path[j - 1];
    }
    ChaseAdd(pred, node, |path|, 1);
    assert Chase(pred, current, 1) == Chase(pred, e.src, 0);
    forall j | 0 <= j < |longer| ensures Chase(pred, node, |longer| - j) == Some(longer[j].src) {
      if j > 0 {
        assert |longer| - j == |path| - (j - 1);
      }
    }
  }

  /** Back at `node`, the unwound path is the whole cycle. */
  lemma Unrolled(adj: Adjacency, negLog: NegLog, pred: map<string, Option<Edge>>, node: string, path: seq<Edge>,
                 total: Extended, period: nat)
    requires OnCycle(pred, node, period)
    requires Unwound(adj, negLog, pred, node, node, path, total) && 0 < |path| <= period
    ensures SimpleCycle(adj, path) && path[0].src == node
  {
    assert |path| == period;
    forall i, j | 0 <= i < j < |path| ensures path[i].src != path[j].src {
      CycleDistinct(pred, node, period, period - j, period - i);
    }
  }

  /** Everything known at the head of the unwinding loop. */
  ghost predicate Unwinding(adj: Adjacency, negLog: NegLog, source: string, eps: real, s: Labels, node: string,
                            period: nat,
                            current: string, path: seq<Edge>, total: Extended) {
    && Inv(adj, negLog, source, eps, s) && node in adj && current in adj
    && OnCycle(s.pred, node, period) && |path| < period
    && Unwound(adj, negLog, s.pred, current, node, path, total)
    && Covers(s, current, node, total, eps, |path|)
  }

  lemma UnwindStart(adj: Adjacency, negLog: NegLog, source: string, eps: real, s: Labels, node: string, period: nat)
    requires Inv(adj, negLog, source, eps, s) && node in adj && OnCycle(s.pred, node, period)
    ensures Unwinding(adj, negLog, source, eps, s, node, period, node, [], Finite(0.0))
  {
  }

  /** Inside a cycle there is always one more predecessor step to take. */
  lemma PredExists(pred: map<string, Option<Edge>>, node: string, period: nat, current: string, k: nat)
    requires OnCycle(pred, node, period) && k < period && Chase(pred, node, k) == Some(current)
    ensures current in pred && pred[current].Some?
    ensures pred[current].value.src != node ==> k + 1 < period
  {
    ChaseAdd(pred, node, k, period - k);
    ChaseAdd(pred, node, k, 1);
    assert Chase(pred, current, 1) == Chase(pred, pred[current].value.src, 0);
  }

  lemma CycleOutcome(adj: Adjacency, negLog: NegLog, source: string, eps: real, s: Labels, node: string, period: nat,
                     path: seq<Edge>, total: Extended)
    requires Inv(adj, negLog, source, eps, s) && node in adj && OnCycle(s.pred, node, period) && 0 < |path| <= period
    requires Unwound(adj, negLog, s.pred, node, node, path, total)
    requires Covers(s, node, node, total, eps, |path|)
    ensures Outcome(adj, negLog, source, eps, Some(Cycle(Nodes(node, path), path, total)))
  {
    assert LabelOk(adj, negLog, source, eps, s, node);
    Unrolled(adj, negLog, s.pred, node, path, total, period);
    hide Inv, OnCycle, Unwound, SimpleCycle, Reaches, LabelOk;
  }

  /** A predecessor step is always possible; it either closes the cycle or keeps the loop going. */
  lemma UnwindNext(adj: Adjacency, negLog: NegLog, source: string, eps: real, s: Labels, node: string, period: nat,
                   current: string, path: seq<Edge>, total: Extended)
    requires Unwinding(adj, negLog, source, eps, s, node, period, current, path, total)
    ensures current in s.pred && s.pred[current].Some?
    ensures var e := s.pred[current].value;
            var longer, sum := [e] + path, total.Plus(e.Weight(negLog));
            && Nodes(e.src, longer) == [e.src] + Nodes(current, path)
            && (if e.src == node then Outcome(adj, negLog, source, eps, Some(Cycle(Nodes(node, longer), longer, sum)))
                else Unwinding(adj, negLog, source, eps, s, node, period, e.src, longer, sum))
  {
    assert Chase(s.pred, node, |path|) == Some(current);
    hide Unwound, Outcome, OnCycle, LabelOk, SimpleCycle, Walk, Covers, Inv;
    PredExists(s.pred, node, period, current, |path|);
    var e := s.pred[current].value;
    assert current in s.round && e.src in adj by {
      InvKeys(adj, negLog, source, eps, s);
      StepBack(adj, negLog, source, eps, s, current);
    }
    StepBack(adj, negLog, source, eps, s, current);
    EmptyUnwound(adj, negLog, s.pred, current, node, path, total);
    CoversStep(adj, negLog, source, eps, s, current, node, total, |path|);
    assert e.Weight(negLog).Plus(total) == total.Plus(e.Weight(negLog));
    UnwindStep(adj, negLog, s.pred, current, node, path, total, e);
    if e.src == node {
      CycleOutcome(adj, negLog, source, eps, s, node, period, [e] + path, total.Plus(e.Weight(negLog)));
    }
  }

  lemma InvKeys(adj: Adjacency, negLog: NegLog, source: string, eps: real, s: Labels)
    requires Inv(adj, negLog, source, eps, s)
    ensures Keyed(adj, s)
  {
  }

  lemma EmptyUnwound(adj: Adjacency, negLog: NegLog, pred: map<string, Option<Edge>>, current: string, node: string,
                     path: seq<Edge>, total: Extended)
    requires Unwound(adj, negLog, pred, current, node, path, total)
    ensures path == [] ==> current == node && total == Finite(0.0)
  {
  }

  /** Follows predecessors from `node` until it comes round again. */
  method Unwind(negLog: NegLog, ghost adj: Adjacency, ghost source: string, ghost eps: real,
                pred: map<string, Option<Edge>>, node: string, ghost s: Labels, ghost period: nat)
    returns (cycle: Cycle)
    requires Inv(adj, negLog, source, eps, s) && s.pred == pred && node in adj && OnCycle(pred, node, period)
    ensures Outcome(adj, negLog, source, eps, Some(cycle))
  {
    hide Inv, Unwinding, OnCycle, Outcome;
    var cycleEdges: seq<Edge>, cycleAssets := [], [node];
    var current, totalWeight := node, Finite(0.0);
    UnwindStart(adj, negLog, source, eps, s, node, period);
    while true
      invariant Unwinding(adj, negLog, source, eps, s, node, period, current, Reversed(cycleEdges), totalWeight)
      invariant Reversed(cycleAssets) == Nodes(current, Reversed(cycleEdges))
      decreases period - |cycleEdges|
    {
      UnwindNext(adj, negLog, source, eps, s, node, period, current, Reversed(cycleEdges), totalWeight);
      WithinPeriod(adj, negLog, source, eps, s, node, period, current, cycleEdges, totalWeight);
      if pred[current] == None {
        assert false;
        break;
      }
      var edge := pred[current].value;
      ReversedSnoc(cycleEdges, edge);
      ReversedSnoc(cycleAssets, edge.src);
      cycleEdges := cycleEdges + [edge];
      totalWeight := totalWeight.Plus(edge.Weight(negLog));
      current := edge.src;
      cycleAssets := cycleAssets + [current];
      if current == node {
        break;
      }
    }
    cycle := Cycle(Reversed(cycleAssets), Reversed(cycleEdges), totalWeight);
  }

  lemma WithinPeriod(adj: Adjacency, negLog: NegLog, source: string, eps: real, s: Labels, node: string, period: nat,
                     current: string, collected: seq<Edge>, total: Extended)
    requires Unwinding(adj, negLog, source, eps, s, node, period, current, Reversed(collected), total)
    ensures |collected| < period
  {
    ReversedLength(collected);
  }

  lemma {:induction false} ReversedLength<T>(s: seq<T>)
    ensures |Reversed(s)| == |s|
  {
    if s != [] {
      ReversedLength(s[1..]);
    }
  }
}
