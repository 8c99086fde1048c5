/** The backtracking search behind `find_cycles`, with its shared path and its cap on traversed edges. */
module CycleSearches {
  import opened Collections
  import opened Walks
  import opened CycleSpec

  /** So many traversals into `trace`: their reports are added, and none was made at or past the cap. */
  ghost predicate Progressed(cap: Option<int>, results0: seq<Cycle>, expansions0: nat, trace: seq<Option<Cycle>>,
                             results: seq<Cycle>, expansions: nat) {
    && expansions0 <= expansions <= expansions0 + |trace|
    && results == results0 + Reported(trace[..expansions - expansions0])
    && (cap.Some? ==> expansions == expansions0 || expansions <= cap.value)
  }

  /** One call of the search: the whole of `trace`, or its traversals up to the cap and not one more. */
  ghost predicate Searched(cap: Option<int>, results0: seq<Cycle>, expansions0: nat, trace: seq<Option<Cycle>>,
                           results: seq<Cycle>, expansions: nat, truncated: bool) {
    && Progressed(cap, results0, expansions0, trace, results, expansions)
    && (truncated ==> cap.Some? && expansions >= cap.value)
    && (truncated <==> expansions < expansions0 + |trace|)
  }

  /** Part way through `trace`, with `left` still to come. */
  ghost predicate PartWay(cap: Option<int>, results0: seq<Cycle>, expansions0: nat, trace: seq<Option<Cycle>>,
                          results: seq<Cycle>, expansions: nat, left: seq<Option<Cycle>>) {
    && Progressed(cap, results0, expansions0, trace, results, expansions)
    && trace[expansions - expansions0..] == left
  }

  lemma NothingBelow(cap: Option<int>, results: seq<Cycle>, expansions: nat)
    ensures Searched(cap, results, expansions, [], results, expansions, false)
  {
    assert results + [] == results;
  }

  lemma Begin(cap: Option<int>, results: seq<Cycle>, expansions: nat, trace: seq<Option<Cycle>>)
    ensures PartWay(cap, results, expansions, trace, results, expansions, trace)
  {
    assert results + [] == results;
  }

  lemma End(cap: Option<int>, results0: seq<Cycle>, expansions0: nat, trace: seq<Option<Cycle>>,
            results: seq<Cycle>, expansions: nat)
    requires PartWay(cap, results0, expansions0, trace, results, expansions, [])
    ensures Searched(cap, results0, expansions0, trace, results, expansions, false)
  {
  }

  /** Stopping at the cap with an edge still to traverse. */
  lemma CutOff(cap: Option<int>, results0: seq<Cycle>, expansions0: nat, trace: seq<Option<Cycle>>,
               results: seq<Cycle>, expansions: nat, left: seq<Option<Cycle>>)
    requires PartWay(cap, results0, expansions0, trace, results, expansions, left)
    requires cap.Some? && expansions >= cap.value && left != []
    ensures Searched(cap, results0, expansions0, trace, results, expansions, true)
  {
  }

  /** One edge traversed below the cap, with everything beneath it. */
  lemma OneMore(cap: Option<int>, results0: seq<Cycle>, expansions0: nat, trace: seq<Option<Cycle>>,
                results1: seq<Cycle>, expansions1: nat, head: Option<Cycle>, below: seq<Option<Cycle>>,
                left: seq<Option<Cycle>>, results2: seq<Cycle>, expansions2: nat, truncated: bool)
    requires PartWay(cap, results0, expansions0, trace, results1, expansions1, [head] + below + left)
    requires cap.Some? ==> expansions1 < cap.value
    requires Searched(cap, results1 + Reported([head]), expansions1 + 1, below, results2, expansions2, truncated)
    ensures if truncated then Searched(cap, results0, expansions0, trace, results2, expansions2, true)
            else PartWay(cap, results0, expansions0, trace, results2, expansions2, left)
  {
    var done, more := expansions1 - expansions0, expansions2 - expansions1 - 1;
    var before, below2 := trace[..done], below[..more];
    assert trace == before + ([head] + below + left);
    assert trace[..expansions2 - expansions0] == before + ([head] + below2);
    ReportedConcat(before, [head] + below2);
    ReportedConcat([head], below2);
    if !truncated {
      assert trace[expansions2 - expansions0..] == left;
    }
  }

  class CycleSearch {
    const adjacency: Dict<string, seq<Edge>>
    const negLog: NegLog
    const startAsset: string
    const maxLength: int
    const maxExpansions: Option<int>
    var results: seq<Cycle>
    var pathAssets: seq<string>
    var pathEdges: seq<Edge>
    var visited: set<string>
    var expansions: nat
    var truncated: bool

    constructor (adjacency: Dict<string, seq<Edge>>, negLog: NegLog, startAsset: string, maxLength: int,
                 maxExpansions: Option<int>)
      ensures this.adjacency == adjacency && this.negLog == negLog && this.startAsset == startAsset
      ensures this.maxLength == maxLength && this.maxExpansions == maxExpansions
      ensures results == [] && pathAssets == [startAsset] && pathEdges == [] && visited == {startAsset}
      ensures expansions == 0 && !truncated
    {
      this.adjacency, this.negLog, this.startAsset := adjacency, negLog, startAsset;
      this.maxLength, this.maxExpansions := maxLength, maxExpansions;
      results, pathAssets, pathEdges, visited := [], [startAsset], [], {startAsset};
      expansions, truncated := 0, false;
    }

    /** The three records of the current path agree. */
    ghost predicate Consistent()
      reads this
    {
      pathAssets == Nodes(startAsset, pathEdges) && visited == Visited(startAsset, pathEdges)
    }

    method Dfs(current: string, totalWeight: Extended)
      requires Consistent() && !truncated && totalWeight == Total(negLog, pathEdges)
      modifies this
      ensures pathEdges == old(pathEdges) && pathAssets == old(pathAssets) && visited == old(visited)
      ensures Searched(maxExpansions, old(results), old(expansions),
                       Trace(adjacency.entries, negLog, startAsset, maxLength, pathEdges, current),
                       results, expansions, truncated)
      decreases maxLength - |pathEdges|, 2
    {
      hide Searched, PartWay, Total, Nodes, Visited, Trace, TraceEdges, TraceBelow, Discovery, Reported;
      TraceUnfolds(adjacency.entries, negLog, startAsset, maxLength, pathEdges, current);
      ghost var adj, path := adjacency.entries, pathEdges;
      ghost var results0, expansions0 := results, expansions;
      if |pathEdges| >= maxLength {
        NothingBelow(maxExpansions, results, expansions);
        return;
      }
      var edges := EdgesFrom(adjacency.entries, current);
      ghost var trace := TraceEdges(adj, negLog, startAsset, maxLength, path, edges);
      Begin(maxExpansions, results, expansions, trace);
      assert edges[0..] == edges;
      for k := 0 to |edges|
        invariant pathEdges == path && pathAssets == old(pathAssets) && visited == old(visited) && !truncated
        invariant PartWay(maxExpansions, results0, expansions0, trace, results, expansions,
                          TraceEdges(adj, negLog, startAsset, maxLength, path, edges[k..]))
      {
        ghost var head := Discovery(negLog, startAsset, path, edges[k]);
        ghost var below := TraceBelow(adj, negLog, startAsset, maxLength, path, edges[k]);
        ghost var left := TraceEdges(adj, negLog, startAsset, maxLength, path, edges[k + 1..]);
        EdgesUnfold(adj, negLog, startAsset, maxLength, path, edges, k);
        if maxExpansions.Some? && expansions >= maxExpansions.value {
          CutOff(maxExpansions, results0, expansions0, trace, results, expansions, [head] + below + left);
          truncated := true;
          return;
        }
        ghost var results1, expansions1 := results, expansions;
        Traverse(edges[k], totalWeight);
        OneMore(maxExpansions, results0, expansions0, trace, results1, expansions1, head, below, left,
                results, expansions, truncated);
        if truncated {
          return;
        }
      }
      assert edges[|edges|..] == [];
      End(maxExpansions, results0, expansions0, trace, results, expansions);
    }

    /** Traverses one edge: it closes the path, enters a visited node, or leads further down. */
    method Traverse(edge: Edge, totalWeight: Extended)
      requires Consistent() && !truncated && totalWeight == Total(negLog, pathEdges) && |pathEdges| < maxLength
      modifies this
      ensures pathEdges == old(pathEdges) && pathAssets == old(pathAssets) && visited == old(visited)
      ensures Searched(maxExpansions, old(results) + Reported([Discovery(negLog, startAsset, pathEdges, edge)]),
                       old(expansions) + 1,
                       TraceBelow(adjacency.entries, negLog, startAsset, maxLength, pathEdges, edge),
                       results, expansions, truncated)
      decreases maxLength - |pathEdges|, 1
    {
      hide Searched, Total, Nodes, Visited, Trace, TraceBelow, Discovery, Reported;
      EdgeUnfolds(adjacency.entries, negLog, startAsset, maxLength, pathEdges, edge);
      assert results + [] == results;
      expansions := expansions + 1;
      if edge.dst == startAsset && |pathEdges| >= 2 {
        var newWeight := totalWeight.Plus(edge.Weight(negLog));
        if newWeight.Negative() {
          results := results + [Cycle(pathAssets + [startAsset], pathEdges + [edge], newWeight)];
        }
        NothingBelow(maxExpansions, results, expansions);
        return;
      }
      if edge.dst in visited {
        NothingBelow(maxExpansions, results, expansions);
        return;
      }
      Descend(edge, totalWeight);
    }

    /** Push `edge`, search below it, and pop it again. */
    method Descend(edge: Edge, totalWeight: Extended)
      requires Consistent() && !truncated && totalWeight == Total(negLog, pathEdges)
      requires |pathEdges| < maxLength && edge.dst !in visited
      modifies this
      ensures pathEdges == old(pathEdges) && pathAssets == old(pathAssets) && visited == old(visited)
      ensures Searched(maxExpansions, old(results), old(expansions),
                       Trace(adjacency.entries, negLog, startAsset, maxLength, pathEdges + [edge], edge.dst),
                       results, expansions, truncated)
      decreases maxLength - |pathEdges|, 0
    {
      hide Searched, Total, Nodes, Visited, Trace, Discovery, TraceBelow, Reported;
      EdgeUnfolds(adjacency.entries, negLog, startAsset, maxLength, pathEdges, edge);
      visited := visited + {edge.dst};
      pathAssets := pathAssets + [edge.dst];
      pathEdges := pathEdges + [edge];
      Dfs(edge.dst, totalWeight.Plus(edge.Weight(negLog)));
      pathEdges := pathEdges[..|pathEdges| - 1];
      pathAssets := pathAssets[..|pathAssets| - 1];
      visited := visited - {edge.dst};
    }
  }

  lemma TraceUnfolds(adj: Adjacency, negLog: NegLog, start: string, maxLength: int, path: seq<Edge>, current: string)
    ensures |path| >= maxLength ==> Trace(adj, negLog, start, maxLength, path, current) == []
    ensures |path| < maxLength ==>
              && Trace(adj, negLog, start, maxLength, path, current)
                 == TraceEdges(adj, negLog, start, maxLength, path, EdgesFrom(adj, current))
              && TraceEdges(adj, negLog, start, maxLength, path, []) == []
  {
  }

  lemma EdgesUnfold(adj: Adjacency, negLog: NegLog, start: string, maxLength: int, path: seq<Edge>, edges: seq<Edge>,
                    k: nat)
    requires |path| < maxLength && k < |edges|
    ensures TraceEdges(adj, negLog, start, maxLength, path, edges[k..])
            == [Discovery(negLog, start, path, edges[k])]
               + TraceBelow(adj, negLog, start, maxLength, path, edges[k])
               + TraceEdges(adj, negLog, start, maxLength, path, edges[k + 1..])
  {
    assert edges[k..][0] == edges[k] && edges[k..][1..] == edges[k + 1..];
  }

  /** The three fates of an edge, and how the path's records grow with it. */
  lemma EdgeUnfolds(adj: Adjacency, negLog: NegLog, start: string, maxLength: int, path: seq<Edge>, e: Edge)
    requires |path| < maxLength
    ensures Total(negLog, path + [e]) == Total(negLog, path).Plus(e.Weight(negLog))
    ensures Nodes(start, path + [e]) == Nodes(start, path) + [e.dst]
    ensures Visited(start, path + [e]) == Visited(start, path) + {e.dst}
    ensures var total := Total(negLog, path).Plus(e.Weight(negLog));
            Reported([Discovery(negLog, start, path, e)])
            == if e.dst == start && |path| >= 2 && total.Negative()
               then [Cycle(Nodes(start, path) + [start], path + [e], total)] else []
    ensures TraceBelow(adj, negLog, start, maxLength, path, e)
            == if (e.dst == start && |path| >= 2) || e.dst in Visited(start, path) then []
               else Trace(adj, negLog, start, maxLength, path + [e], e.dst)
  {
    TotalSnoc(negLog, path, e);
    NodesSnoc(start, path, e);
    assert Visited(start, path + [e]) == Visited(start, path) + {e.dst};
  }

  lemma {:induction false} NodesSnoc(start: string, p: seq<Edge>, e: Edge)
    ensures Nodes(start, p + [e]) == Nodes(start, p) + [e.dst]
    decreases |p|
  {
    if p != [] {
      assert (p + [e])[1..] == p[1..] + [e];
      NodesSnoc(p[0].dst, p[1..], e);
    }
  }
}
