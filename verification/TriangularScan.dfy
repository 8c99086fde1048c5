/** The venue scan as a whole: collect from the start assets, then keep one opportunity per key. */
module TriangularScan {
  import opened Collections
  import opened Walks
  import opened Rotations
  import opened Pricing
  import opened CurrencyGraphs
  import opened Symbols
  import opened Universe
  import opened Triangular

  /** `cycles` holds genuine cycles only and, when complete, every one that begins at a node of `done`. */
  ghost predicate Collected(adj: Adjacency, t: Terms, done: set<string>,
                            cycles: seq<Cycle>, complete: bool) {
    && (forall c | c in cycles :: Genuine(adj, t, c))
    && (complete ==> forall c | Genuine(adj, t, c) && c.edges != [] && c.edges[0].src in done :: c in cycles)
  }

  lemma CollectNothing(adj: Adjacency, t: Terms, cap: Option<int>)
    ensures Collected(adj, t, {}, [], true) && AllAffordable(adj, {}, t.maxLength, cap)
  {
  }

  lemma CollectMore(adj: Adjacency, t: Terms, cap: Option<int>, done: set<string>,
                    cycles: seq<Cycle>, complete: bool, start: string, kept: seq<Cycle>, whole: bool)
    requires Collected(adj, t, done, cycles, complete)
    requires complete <==> AllAffordable(adj, done, t.maxLength, cap)
    requires KeptFrom(adj, t, start, kept, whole)
    requires whole <==> Affordable(adj, start, t.maxLength, cap)
    ensures Collected(adj, t, done + {start}, cycles + kept, complete && whole)
    ensures complete && whole <==> AllAffordable(adj, done + {start}, t.maxLength, cap)
  {
    hide Genuine, Affordable;
  }

  /** `[asset for asset in nodes if asset in starts]`, as a set. */
  function StartsIn(nodes: seq<string>, starts: set<string>): set<string> {
    set a | a in nodes && a in starts
  }

  lemma StartsNext(nodes: seq<string>, k: nat, starts: set<string>)
    requires k < |nodes|
    ensures StartsIn(nodes[..k + 1], starts)
            == StartsIn(nodes[..k], starts) + (if nodes[k] in starts then {nodes[k]} else {})
  {
  }

  lemma StartsAll(graph: CurrencyGraph, starts: set<string>)
    requires graph.Valid()
    ensures StartsIn(graph.adjacency.keys, starts) == starts * graph.adjacency.entries.Keys
    ensures forall k | 0 <= k < |graph.adjacency.keys| :: graph.adjacency.keys[k] in graph.adjacency.entries
  {
  }

  /** Searches from every node of the graph that is a start. */
  method Collect(graph: CurrencyGraph, starts: set<string>, t: Terms, cap: Option<int>)
    returns (cycles: seq<Cycle>, complete: bool)
    requires graph.Valid() && graph.negLog == t.negLog
    ensures Collected(graph.adjacency.entries, t, starts * graph.adjacency.entries.Keys, cycles, complete)
    ensures complete <==> AllAffordable(graph.adjacency.entries, starts * graph.adjacency.entries.Keys,
                                        t.maxLength, cap)
  {
    hide *;
    ghost var adj := graph.adjacency.entries;
    var nodes := graph.adjacency.keys;
    cycles, complete := [], true;
    CollectNothing(adj, t, cap);
    StartsAll(graph, starts);
    NoStarts(starts);
    assert nodes[..0] == [];
    for k := 0 to |nodes|
      invariant Collected(adj, t, StartsIn(nodes[..k], starts), cycles, complete)
      invariant complete <==> AllAffordable(adj, StartsIn(nodes[..k], starts), t.maxLength, cap)
    {
      StartsNext(nodes, k, starts);
      var start := nodes[k];
      if start !in starts {
        assert StartsIn(nodes[..k + 1], starts) == StartsIn(nodes[..k], starts);
        continue;
      }
      var kept, truncated := AboveThreshold(graph, start, t, cap);
      CollectMore(adj, t, cap, StartsIn(nodes[..k], starts), cycles, complete, start, kept, !truncated);
      cycles, complete := cycles + kept, complete && !truncated;
    }
    assert nodes[..|nodes|] == nodes;
  }

  lemma NoStarts(starts: set<string>)
    ensures StartsIn([], starts) == {}
  {
  }

  ghost predicate HasKey(opportunities: seq<Opportunity>, chosen: seq<nat>, key: RouteSet) {
    exists k :: 0 <= k < |chosen| && chosen[k] < |opportunities| && KeyOf(opportunities[chosen[k]].legs) == key
  }

  /** Each chosen opportunity is the first of its key, in order, and every key is among them. */
  ghost predicate OnePerKey(opportunities: seq<Opportunity>, chosen: seq<nat>) {
    && (forall k | 0 <= k < |chosen| :: chosen[k] < |opportunities|)
    && (forall k, m | 0 <= k < |chosen| && 0 <= m < chosen[k] ::
        KeyOf(opportunities[m].legs) != KeyOf(opportunities[chosen[k]].legs))
    && (forall i, j | 0 <= i < j < |chosen| :: chosen[i] < chosen[j])
    && (forall i, j | 0 <= i < j < |chosen| ::
        KeyOf(opportunities[chosen[i]].legs) != KeyOf(opportunities[chosen[j]].legs))
    && (forall m | 0 <= m < |opportunities| :: HasKey(opportunities, chosen, KeyOf(opportunities[m].legs)))
  }

  /** After `i` opportunities: the chosen ones have distinct keys, and those are the keys seen so far. */
  ghost predicate SeenKeys(opportunities: seq<Opportunity>, i: nat, chosen: seq<nat>, seen: set<RouteSet>) {
    && i <= |opportunities|
    && (forall k | 0 <= k < |chosen| :: chosen[k] < i && KeyOf(opportunities[chosen[k]].legs) in seen)
    && (forall k, m | 0 <= k < |chosen| && 0 <= m < chosen[k] ::
        KeyOf(opportunities[m].legs) != KeyOf(opportunities[chosen[k]].legs))
    && (forall k, m | 0 <= k < m < |chosen| :: chosen[k] < chosen[m])
    && (forall key | key in seen :: HasKey(opportunities, chosen, key))
    && (forall j | 0 <= j < i :: KeyOf(opportunities[j].legs) in seen)
  }

  lemma SeenMore(opportunities: seq<Opportunity>, i: nat, chosen: seq<nat>, seen: set<RouteSet>)
    requires SeenKeys(opportunities, i, chosen, seen) && i < |opportunities|
    ensures var key := KeyOf(opportunities[i].legs);
            if key in seen then SeenKeys(opportunities, i + 1, chosen, seen)
            else SeenKeys(opportunities, i + 1, chosen + [i], seen + {key})
  {
    hide KeyOf;
    var key := KeyOf(opportunities[i].legs);
    if key !in seen {
      var more := chosen + [i];
      forall other | other in seen + {key} ensures HasKey(opportunities, more, other) {
        HasKeyMore(opportunities, chosen, i, other);
      }
      hide HasKey;
    }
  }

  lemma HasKeyMore(opportunities: seq<Opportunity>, chosen: seq<nat>, i: nat, key: RouteSet)
    requires i < |opportunities| && (HasKey(opportunities, chosen, key) || KeyOf(opportunities[i].legs) == key)
    ensures HasKey(opportunities, chosen + [i], key)
  {
    hide KeyOf;
    var more := chosen + [i];
    if KeyOf(opportunities[i].legs) == key {
      assert more[|chosen|] == i;
    } else {
      var k :| 0 <= k < |chosen| && chosen[k] < |opportunities| && KeyOf(opportunities[chosen[k]].legs) == key;
      assert more[k] == chosen[k];
    }
  }

  lemma SeenAll(opportunities: seq<Opportunity>, chosen: seq<nat>, seen: set<RouteSet>)
    requires SeenKeys(opportunities, |opportunities|, chosen, seen)
    ensures OnePerKey(opportunities, chosen)
  {
  }

  ghost predicate KeyAmong(opportunities: seq<Opportunity>, key: RouteSet) {
    exists j :: 0 <= j < |opportunities| && KeyOf(opportunities[j].legs) == key
  }

  /** Each opportunity whose key no earlier one has. */
  ghost function FirstOfKeys(opportunities: seq<Opportunity>): seq<Opportunity> {
    if opportunities == [] then []
    else
      var init, last := opportunities[..|opportunities| - 1], opportunities[|opportunities| - 1];
      FirstOfKeys(init) + (if KeyAmong(init, KeyOf(last.legs)) then [] else [last])
  }

  lemma SeenIsAmong(opportunities: seq<Opportunity>, i: nat, chosen: seq<nat>, seen: set<RouteSet>, key: RouteSet)
    requires SeenKeys(opportunities, i, chosen, seen)
    ensures key in seen ==> KeyAmong(opportunities[..i], key)
  {
    hide KeyOf;
    if key in seen {
      assert HasKey(opportunities, chosen, key);
      var k :| 0 <= k < |chosen| && chosen[k] < |opportunities| && KeyOf(opportunities[chosen[k]].legs) == key;
      assert opportunities[..i][chosen[k]] == opportunities[chosen[k]];
    }
  }

  lemma AmongIsSeen(opportunities: seq<Opportunity>, i: nat, chosen: seq<nat>, seen: set<RouteSet>, key: RouteSet)
    requires SeenKeys(opportunities, i, chosen, seen)
    ensures KeyAmong(opportunities[..i], key) ==> key in seen
  {
    hide KeyOf;
    if KeyAmong(opportunities[..i], key) {
      var j :| 0 <= j < i && KeyOf(opportunities[..i][j].legs) == key;
      assert opportunities[..i][j] == opportunities[j];
    }
  }

  lemma FirstOfKeysNext(opportunities: seq<Opportunity>, i: nat, chosen: seq<nat>, seen: set<RouteSet>)
    requires SeenKeys(opportunities, i, chosen, seen) && i < |opportunities|
    ensures FirstOfKeys(opportunities[..i + 1])
            == FirstOfKeys(opportunities[..i])
                + (if KeyOf(opportunities[i].legs) in seen then [] else [opportunities[i]])
  {
    SeenIsAmong(opportunities, i, chosen, seen, KeyOf(opportunities[i].legs));
    AmongIsSeen(opportunities, i, chosen, seen, KeyOf(opportunities[i].legs));
    hide KeyOf, SeenKeys, KeyAmong;
    assert opportunities[..i + 1][..i] == opportunities[..i];
  }

  lemma NothingSeen(opportunities: seq<Opportunity>)
    ensures SeenKeys(opportunities, 0, [], {}) && FirstOfKeys([]) == []
  {
  }

  /** Keeps the first opportunity of each key. */
  /** `deduped` are the chosen opportunities, all of them before `i`. */
  ghost predicate Picked(opportunities: seq<Opportunity>, i: nat, chosen: seq<nat>, deduped: seq<Opportunity>) {
    && i <= |opportunities| && |chosen| == |deduped|
    && forall k | 0 <= k < |chosen| :: chosen[k] < i && deduped[k] == opportunities[chosen[k]]
  }

  lemma PickedMore(opportunities: seq<Opportunity>, i: nat, chosen: seq<nat>, deduped: seq<Opportunity>)
    requires Picked(opportunities, i, chosen, deduped) && i < |opportunities|
    ensures Picked(opportunities, i + 1, chosen, deduped)
    ensures Picked(opportunities, i + 1, chosen + [i], deduped + [opportunities[i]])
  {
  }

  method DropRotations(opportunities: seq<Opportunity>) returns (deduped: seq<Opportunity>, ghost chosen: seq<nat>)
    ensures deduped == FirstOfKeys(opportunities)
    ensures OnePerKey(opportunities, chosen)
    ensures Picked(opportunities, |opportunities|, chosen, deduped)
  {
    var seen: set<RouteSet> := {};
    deduped, chosen := [], [];
    NothingSeen(opportunities);
    assert opportunities[..0] == [];
    hide KeyOf, SeenKeys, FirstOfKeys, OnePerKey, Picked;
    for i := 0 to |opportunities|
      invariant SeenKeys(opportunities, i, chosen, seen)
      invariant deduped == FirstOfKeys(opportunities[..i])
      invariant Picked(opportunities, i, chosen, deduped)
    {
      SeenMore(opportunities, i, chosen, seen);
      PickedMore(opportunities, i, chosen, deduped);
      FirstOfKeysNext(opportunities, i, chosen, seen);
      var key := KeyOf(opportunities[i].legs);
      if key in seen {
        continue;
      }
      seen := seen + {key};
      deduped := deduped + [opportunities[i]];
      chosen := chosen + [i];
    }
    assert opportunities[..|opportunities|] == opportunities;
    SeenAll(opportunities, chosen, seen);
  }

  lemma MarketRates(view: VenueView, symbols: seq<string>, adj: Adjacency, p: seq<Edge>)
    requires forall e | IsEdge(adj, e) :: view.MarketEdge(symbols, e)
    requires SimpleCycle(adj, p)
    ensures forall e | e in p :: e.rate != 0.0
  {
    assert forall e | e in p :: IsEdge(adj, e);
    hide SimpleCycle, IsEdge, VenueView.MarketEdge;
    forall e | e in p ensures e.rate != 0.0 {
      MarketRate(view, symbols, e);
    }
  }

  lemma MarketRate(view: VenueView, symbols: seq<string>, e: Edge)
    requires view.MarketEdge(symbols, e)
    ensures e.rate > 0.0
  {
  }

  /** One opportunity per collected cycle, in order. */
  ghost predicate Describes(venue: string, t: Terms, cycles: seq<Cycle>, opportunities: seq<Opportunity>) {
    && |opportunities| == |cycles|
    && (forall k | 0 <= k < |cycles| :: forall e | e in cycles[k].edges :: e.rate != 0.0)
    && (forall k | 0 <= k < |cycles| :: opportunities[k] == OpportunityOf(venue, t.exp, t.maxTradeUsd, cycles[k]))
  }

  /** Equal keys of two described opportunities mean one rotation class. */
  lemma KeysAreRotations(adj: Adjacency, view: VenueView, symbols: seq<string>, t: Terms, c: Cycle, d: Cycle)
    requires forall e | IsEdge(adj, e) :: view.MarketEdge(symbols, e)
    requires SimpleCycle(adj, c.edges) && SimpleCycle(adj, d.edges)
    requires (forall e | e in c.edges :: e.rate != 0.0) && forall e | e in d.edges :: e.rate != 0.0
    ensures KeyOf(OpportunityOf(view.venue, t.exp, t.maxTradeUsd, c).legs)
            == KeyOf(OpportunityOf(view.venue, t.exp, t.maxTradeUsd, d).legs)
            <==> IsRotation(c.edges, d.edges)
  {
    hide SimpleCycle, EdgeKeys, KeyOf;
    KeyOfLegs(c.edges);
    KeyOfLegs(d.edges);
    SameKeyIffRotation(adj, view, symbols, c.edges, d.edges);
  }

  function EdgesOf(cycles: seq<Cycle>, chosen: seq<nat>): (origins: seq<seq<Edge>>)
    requires forall k | 0 <= k < |chosen| :: chosen[k] < |cycles|
    ensures |origins| == |chosen| && forall k | 0 <= k < |chosen| :: origins[k] == cycles[chosen[k]].edges
  {
    if chosen == [] then [] else [cycles[chosen[0]].edges] + EdgesOf(cycles, chosen[1..])
  }

  lemma GenuineMeans(adj: Adjacency, t: Terms, c: Cycle)
    requires Genuine(adj, t, c)
    ensures Qualifies(adj, t, c.edges) && SimpleCycle(adj, c.edges)
  {
  }

  lemma SameKeyIndices(adj: Adjacency, view: VenueView, symbols: seq<string>, t: Terms,
                       cycles: seq<Cycle>, opportunities: seq<Opportunity>, i: nat, j: nat)
    requires forall e | IsEdge(adj, e) :: view.MarketEdge(symbols, e)
    requires forall c | c in cycles :: Genuine(adj, t, c)
    requires Describes(view.venue, t, cycles, opportunities) && i < |cycles| && j < |cycles|
    ensures KeyOf(opportunities[i].legs) == KeyOf(opportunities[j].legs)
            <==> IsRotation(cycles[i].edges, cycles[j].edges)
  {
    GenuineMeans(adj, t, cycles[i]);
    GenuineMeans(adj, t, cycles[j]);
    hide Genuine, SimpleCycle, KeyOf, IsRotation, IsEdge;
    KeysAreRotations(adj, view, symbols, t, cycles[i], cycles[j]);
  }

  /** A qualifying cycle that meets a start has a rotation among the collected ones. */
  lemma CollectedRotation(adj: Adjacency, t: Terms, starts: set<string>,
                          cycles: seq<Cycle>, p: seq<Edge>) returns (m: nat)
    requires Collected(adj, t, starts * adj.Keys, cycles, true)
    requires Covers(adj, t, starts)
    requires Qualifies(adj, t, p)
    ensures m < |cycles| && EdgeKeys(cycles[m].edges) == EdgeKeys(p)
  {
    var k :| 0 <= k < |p| && p[k].src in starts;
    var q := Rotate(p, k);
    RotationQualifies(adj, t, p, k);
    assert IsEdge(adj, q[0]);
    RotationKeys(p, q);
    hide Qualifies, EdgeKeys, Covers, IsRotation;
    var c := CycleOf(t.negLog, q[0].src, q);
    assert Genuine(adj, t, c);
    m :| 0 <= m < |cycles| && cycles[m] == c;
  }

  /** The de-duplicated scan keeps qualifying cycles only, and no rotation of another one. */
  lemma ScanIsSound(adj: Adjacency, view: VenueView, symbols: seq<string>, t: Terms,
                    cycles: seq<Cycle>, opportunities: seq<Opportunity>, chosen: seq<nat>)
    requires forall e | IsEdge(adj, e) :: view.MarketEdge(symbols, e)
    requires forall c | c in cycles :: Genuine(adj, t, c)
    requires Describes(view.venue, t, cycles, opportunities) && OnePerKey(opportunities, chosen)
    ensures DistinctClasses(adj, t, EdgesOf(cycles, chosen))
  {
    hide Genuine, Qualifies, KeyOf, IsEdge, IsRotation, SimpleCycle, HasKey;
    var origins := EdgesOf(cycles, chosen);
    forall k | 0 <= k < |origins| ensures Qualifies(adj, t, origins[k]) {
      GenuineMeans(adj, t, cycles[chosen[k]]);
    }
    forall i, j | 0 <= i < j < |origins| ensures !IsRotation(origins[i], origins[j]) {
      SameKeyIndices(adj, view, symbols, t, cycles, opportunities, chosen[i], chosen[j]);
    }
  }

  /** Where the starts cover them, it keeps one of every rotation class of qualifying cycles. */
  lemma ScanIsOnePerRotation(adj: Adjacency, view: VenueView, symbols: seq<string>, t: Terms, starts: set<string>,
                             cycles: seq<Cycle>, opportunities: seq<Opportunity>, chosen: seq<nat>)
    requires forall e | IsEdge(adj, e) :: view.MarketEdge(symbols, e)
    requires Collected(adj, t, starts * adj.Keys, cycles, true)
    requires Covers(adj, t, starts)
    requires Describes(view.venue, t, cycles, opportunities) && OnePerKey(opportunities, chosen)
    ensures OnePerRotation(adj, t, EdgesOf(cycles, chosen))
  {
    hide Genuine, Qualifies, KeyOf, IsEdge, Covers, IsRotation, EdgeKeys, SimpleCycle, DistinctClasses;
    ScanIsSound(adj, view, symbols, t, cycles, opportunities, chosen);
    var origins := EdgesOf(cycles, chosen);
    forall p | Qualifies(adj, t, p) ensures exists k :: 0 <= k < |origins| && IsRotation(origins[k], p) {
      var m := CollectedRotation(adj, t, starts, cycles, p);
      assert HasKey(opportunities, chosen, KeyOf(opportunities[m].legs));
      var k :| 0 <= k < |chosen| && chosen[k] < |opportunities|
          && KeyOf(opportunities[chosen[k]].legs) == KeyOf(opportunities[m].legs);
      SameKeyIndices(adj, view, symbols, t, cycles, opportunities, chosen[k], m);
      RotationKeys(origins[k], cycles[m].edges);
      GenuineMeans(adj, t, cycles[chosen[k]]);
      QualifiesSimple(adj, t, p);
      SameKeyIffRotation(adj, view, symbols, origins[k], p);
    }
  }

  lemma QualifiesSimple(adj: Adjacency, t: Terms, p: seq<Edge>)
    requires Qualifies(adj, t, p)
    ensures SimpleCycle(adj, p)
  {
  }

  /** The hub assets see every qualifying cycle over universe symbols. */
  lemma HubsCover(adj: Adjacency, view: VenueView, symbols: seq<string>, t: Terms)
    requires forall e | IsEdge(adj, e) :: view.MarketEdge(symbols, e)
    requires forall s | s in symbols :: UniverseSymbol(s)
    ensures Covers(adj, t, HUB_ASSETS)
  {
    forall p: seq<Edge> | Qualifies(adj, t, p) ensures exists k :: 0 <= k < |p| && p[k].src in HUB_ASSETS {
      CycleMeetsHub(adj, view, symbols, p);
    }
  }

  /** So does the set of all assets, of course. */
  lemma AssetsCover(adj: Adjacency, t: Terms, starts: set<string>)
    requires adj.Keys <= starts
    ensures Covers(adj, t, starts)
  {
  }

  /** Two scans that both keep one cycle per rotation class keep the same classes, one for one. */
  lemma SameClasses(adj: Adjacency, t: Terms, a: seq<seq<Edge>>, b: seq<seq<Edge>>, i: nat)
    requires OnePerRotation(adj, t, a) && OnePerRotation(adj, t, b)
    requires i < |a|
    ensures exists j :: 0 <= j < |b| && IsRotation(b[j], a[i])
    ensures forall j, k | 0 <= j < k < |b| :: !(IsRotation(b[j], a[i]) && IsRotation(b[k], a[i]))
  {
    assert Qualifies(adj, t, a[i]);
    forall j, k | 0 <= j < k < |b| && IsRotation(b[j], a[i]) && IsRotation(b[k], a[i]) ensures false {
      assert Qualifies(adj, t, b[j]) && Qualifies(adj, t, b[k]);
      RotationEdgeSet(b[j], a[i]);
      RotationEdgeSet(b[k], a[i]);
      SameEdgesRotate(adj, b[j], b[k]);
    }
  }

  /** Two such scans report equally many opportunities: every start set that covers finds as much as the full one. */
  lemma SameNumber(adj: Adjacency, t: Terms, a: seq<seq<Edge>>, b: seq<seq<Edge>>)
    requires OnePerRotation(adj, t, a) && OnePerRotation(adj, t, b)
    ensures |a| == |b|
  {
    hide OnePerRotation;
    NoMore(adj, t, a, b);
    NoMore(adj, t, b, a);
  }

  lemma NoMore(adj: Adjacency, t: Terms, a: seq<seq<Edge>>, b: seq<seq<Edge>>)
    requires OnePerRotation(adj, t, a) && OnePerRotation(adj, t, b)
    ensures |a| <= |b|
  {
    hide OnePerRotation, IsRotation;
    var partner: seq<nat> := [];
    for i := 0 to |a|
      invariant |partner| == i && forall k | 0 <= k < i :: partner[k] < |b| && IsRotation(b[partner[k]], a[k])
    {
      SameClasses(adj, t, a, b, i);
      var j: nat :| j < |b| && IsRotation(b[j], a[i]);
      partner := partner + [j];
    }
    assert Distinct(partner) by {
      forall i, k | 0 <= i < k < |partner| ensures partner[i] != partner[k] {
        OnePartner(adj, t, a, b, i, k, partner[i]);
      }
    }
    DistinctBound(partner, Indices(|b|));
  }

  function Indices(n: nat): (s: set<nat>)
    ensures |s| == n && forall j: nat :: j in s <==> j < n
  {
    if n == 0 then {} else Indices(n - 1) + {n - 1}
  }

  /** Two classes of one scan have no common rotation. */
  lemma OnePartner(adj: Adjacency, t: Terms, a: seq<seq<Edge>>, b: seq<seq<Edge>>,
                   i: nat, k: nat, j: nat)
    requires OnePerRotation(adj, t, a) && OnePerRotation(adj, t, b)
    requires i < k < |a| && j < |b| && IsRotation(b[j], a[i])
    ensures !IsRotation(b[j], a[k])
  {
    if IsRotation(b[j], a[k]) {
      QualifiesSimple(adj, t, a[i]);
      QualifiesSimple(adj, t, a[k]);
      hide Qualifies, SimpleCycle;
      RotationEdgeSet(b[j], a[i]);
      RotationEdgeSet(b[j], a[k]);
      SameEdgesRotate(adj, a[i], a[k]);
    }
  }

  lemma RotationEdgeSet(p: seq<Edge>, q: seq<Edge>)
    requires IsRotation(p, q)
    ensures EdgeSet(p) == EdgeSet(q)
  {
  }

  /**
   * `deduped` reports the cycles `origins` of the venue's graph: qualifying ones only, no two of them
   * rotations of each other. When every search fits the cap and the starts meet every qualifying cycle,
   * there is one of every rotation class.
   */
  ghost predicate VenueScan(view: VenueView, symbols: seq<string>, t: Terms, starts: set<string>, cap: Option<int>,
                            origins: seq<seq<Edge>>, deduped: seq<Opportunity>, complete: bool) {
    var adj := MarketGraph(view, symbols).entries;
    && DistinctClasses(adj, t, origins)
    && (complete <==> AllAffordable(adj, starts * adj.Keys, t.maxLength, cap))
    && (complete && Covers(adj, t, starts) ==> OnePerRotation(adj, t, origins))
    && Described(view.venue, t, origins, deduped)
  }

  /** `_scan_venue` from a given set of start assets. */
  method ScanVenueFrom(view: VenueView, symbols: seq<string>, t: Terms, starts: set<string>, cap: Option<int>)
    returns (deduped: seq<Opportunity>, complete: bool)
    requires forall s | s in symbols && view.Usable(s) :: '/' !in Quote(s)
    ensures exists origins: seq<seq<Edge>> :: VenueScan(view, symbols, t, starts, cap, origins, deduped, complete)
  {
    hide *;
    var graph := BuildVenueGraph(view, symbols, t.negLog);
    ghost var adj := graph.adjacency.entries;
    var cycles;
    cycles, complete := Collect(graph, starts, t, cap);
    RatesNonZero(view, symbols, t, adj, starts * adj.Keys, cycles, complete);
    var opportunities := DescribeAll(view.venue, t, cycles);
    ghost var chosen;
    deduped, chosen := DropRotations(opportunities);
    ScanOutcome(view, symbols, t, starts, cap, cycles, opportunities, chosen, deduped, complete);
  }

  /** What was collected, described and de-duplicated makes up a scan. */
  lemma ScanOutcome(view: VenueView, symbols: seq<string>, t: Terms, starts: set<string>, cap: Option<int>,
                    cycles: seq<Cycle>, opportunities: seq<Opportunity>, chosen: seq<nat>, deduped: seq<Opportunity>,
                    complete: bool)
    requires var adj := MarketGraph(view, symbols).entries;
             && (forall e :: IsEdge(adj, e) <==> view.MarketEdge(symbols, e))
             && Collected(adj, t, starts * adj.Keys, cycles, complete)
             && (complete <==> AllAffordable(adj, starts * adj.Keys, t.maxLength, cap))
    requires Describes(view.venue, t, cycles, opportunities) && OnePerKey(opportunities, chosen)
    requires Picked(opportunities, |opportunities|, chosen, deduped)
    ensures exists origins: seq<seq<Edge>> :: VenueScan(view, symbols, t, starts, cap, origins, deduped, complete)
  {
    var adj, origins := MarketGraph(view, symbols).entries, EdgesOf(cycles, chosen);
    hide *;
    CollectedMeans(adj, t, starts * adj.Keys, cycles, complete);
    ScanIsSound(adj, view, symbols, t, cycles, opportunities, chosen);
    DescribedCycles(view.venue, adj, t, cycles, opportunities, chosen, deduped);
    if complete && Covers(adj, t, starts) {
      ScanIsOnePerRotation(adj, view, symbols, t, starts, cycles, opportunities, chosen);
    }
    ScanIs(view, symbols, t, starts, cap, origins, deduped, complete);
  }

  lemma CollectedMeans(adj: Adjacency, t: Terms, done: set<string>, cycles: seq<Cycle>, complete: bool)
    requires Collected(adj, t, done, cycles, complete)
    ensures forall c | c in cycles :: Genuine(adj, t, c)
  {
    hide Genuine;
  }

  lemma ScanIs(view: VenueView, symbols: seq<string>, t: Terms, starts: set<string>, cap: Option<int>,
               origins: seq<seq<Edge>>, deduped: seq<Opportunity>, complete: bool)
    requires var adj := MarketGraph(view, symbols).entries;
             && DistinctClasses(adj, t, origins) && Described(view.venue, t, origins, deduped)
             && (complete <==> AllAffordable(adj, starts * adj.Keys, t.maxLength, cap))
             && (complete && Covers(adj, t, starts) ==> OnePerRotation(adj, t, origins))
    ensures VenueScan(view, symbols, t, starts, cap, origins, deduped, complete)
  {
    hide OnePerRotation, DistinctClasses, AllAffordable, Described, Covers, MarketGraph;
  }

  method DescribeAll(venue: string, t: Terms, cycles: seq<Cycle>) returns (opportunities: seq<Opportunity>)
    requires forall k | 0 <= k < |cycles| :: forall e | e in cycles[k].edges :: e.rate != 0.0
    ensures Describes(venue, t, cycles, opportunities)
  {
    opportunities := [];
    for k := 0 to |cycles|
      invariant |opportunities| == k
      invariant forall j | 0 <= j < k :: opportunities[j] == OpportunityOf(venue, t.exp, t.maxTradeUsd, cycles[j])
    {
      opportunities := opportunities + [OpportunityOf(venue, t.exp, t.maxTradeUsd, cycles[k])];
    }
  }

  lemma RatesNonZero(view: VenueView, symbols: seq<string>, t: Terms,
                     adj: Adjacency, done: set<string>, cycles: seq<Cycle>, complete: bool)
    requires forall e | IsEdge(adj, e) :: view.MarketEdge(symbols, e)
    requires Collected(adj, t, done, cycles, complete)
    ensures forall k | 0 <= k < |cycles| :: forall e | e in cycles[k].edges :: e.rate != 0.0
  {
    forall k | 0 <= k < |cycles| ensures forall e | e in cycles[k].edges :: e.rate != 0.0 {
      GenuineMeans(adj, t, cycles[k]);
      MarketRates(view, symbols, adj, cycles[k].edges);
    }
  }

  /** Opportunity `k` describes the cycle `origins[k]`. */
  ghost predicate Described(venue: string, t: Terms, origins: seq<seq<Edge>>, deduped: seq<Opportunity>) {
    && |origins| == |deduped|
    && forall k | 0 <= k < |origins| ::
         && origins[k] != [] && (forall e | e in origins[k] :: e.rate != 0.0)
         && deduped[k] == OpportunityOf(venue, t.exp, t.maxTradeUsd, CycleOf(t.negLog, origins[k][0].src, origins[k]))
  }

  lemma DescribedCycles(venue: string, adj: Adjacency, t: Terms,
                       cycles: seq<Cycle>, opportunities: seq<Opportunity>, chosen: seq<nat>, deduped: seq<Opportunity>)
    requires forall c | c in cycles :: Genuine(adj, t, c)
    requires Describes(venue, t, cycles, opportunities)
    requires Picked(opportunities, |opportunities|, chosen, deduped)
    ensures Described(venue, t, EdgesOf(cycles, chosen), deduped)
  {
    hide Qualifies;
    forall k | 0 <= k < |chosen| ensures Genuine(adj, t, cycles[chosen[k]]) {
      assert cycles[chosen[k]] in cycles;
    }
  }

  /** The same from the hubs with the shipped cap, where the starts always meet every qualifying cycle. */
  ghost predicate HubScan(view: VenueView, symbols: seq<string>, t: Terms, origins: seq<seq<Edge>>,
                          deduped: seq<Opportunity>, complete: bool) {
    && VenueScan(view, symbols, t, HUB_ASSETS, Some(2000), origins, deduped, complete)
    && (complete ==> OnePerRotation(MarketGraph(view, symbols).entries, t, origins))
  }

  /** `_scan_venue`: hub starts, capped searches. */
  method ScanVenue(view: VenueView, symbols: seq<string>, t: Terms) returns (deduped: seq<Opportunity>, complete: bool)
    requires forall s | s in symbols :: UniverseSymbol(s)
    ensures exists origins: seq<seq<Edge>> :: HubScan(view, symbols, t, origins, deduped, complete)
  {
    forall s | s in symbols && view.Usable(s) ensures '/' !in Quote(s) {
      UniverseSplits(s);
    }
    deduped, complete := ScanVenueFrom(view, symbols, t, HUB_ASSETS, Some(MAX_CYCLE_SEARCH_EXPANSIONS));
    ghost var origins: seq<seq<Edge>> :|
      VenueScan(view, symbols, t, HUB_ASSETS, Some(2000), origins, deduped, complete);
    HubScanIs(view, symbols, t, origins, deduped, complete);
  }

  lemma HubScanIs(view: VenueView, symbols: seq<string>, t: Terms, origins: seq<seq<Edge>>,
                  deduped: seq<Opportunity>, complete: bool)
    requires forall s | s in symbols :: UniverseSymbol(s)
    requires VenueScan(view, symbols, t, HUB_ASSETS, Some(2000), origins, deduped, complete)
    ensures HubScan(view, symbols, t, origins, deduped, complete)
  {
    var adj := MarketGraph(view, symbols).entries;
    forall e ensures IsEdge(adj, e) <==> view.MarketEdge(symbols, e) {
      MarketGraphEdges(view, symbols, e);
    }
    hide OnePerRotation, DistinctClasses, AllAffordable, Described, MarketGraph;
    HubsCover(adj, view, symbols, t);
  }

  /** Some opportunity of `others` has the key of `o` and its profit. */
  ghost predicate Matched(o: Opportunity, others: seq<Opportunity>) {
    exists j :: 0 <= j < |others| && KeyOf(others[j].legs) == KeyOf(o.legs) && others[j].netProfitPct == o.netProfitPct
  }

  /**
   * Searching from the hubs loses nothing against searching from every asset: when no search is cut
   * off, both scans report equally many opportunities, and each of one has its match in the other.
   */
  lemma HubsLoseNothing(view: VenueView, symbols: seq<string>, t: Terms, starts: set<string>, cap: Option<int>,
                        hubOrigins: seq<seq<Edge>>, fromHubs: seq<Opportunity>,
                        allOrigins: seq<seq<Edge>>, fromAll: seq<Opportunity>)
    requires HubScan(view, symbols, t, hubOrigins, fromHubs, true)
    requires VenueScan(view, symbols, t, starts, cap, allOrigins, fromAll, true)
    requires MarketGraph(view, symbols).entries.Keys <= starts
    ensures |fromHubs| == |fromAll|
    ensures forall i | 0 <= i < |fromHubs| :: Matched(fromHubs[i], fromAll)
    ensures forall i | 0 <= i < |fromAll| :: Matched(fromAll[i], fromHubs)
  {
    var adj := MarketGraph(view, symbols).entries;
    AssetsCover(adj, t, starts);
    hide OnePerRotation, DistinctClasses, AllAffordable, Covers, MarketGraph, Described, Matched;
    SameNumber(adj, t, hubOrigins, allOrigins);
    DescribedLength(view.venue, t, hubOrigins, fromHubs);
    DescribedLength(view.venue, t, allOrigins, fromAll);
    forall i | 0 <= i < |fromHubs| ensures Matched(fromHubs[i], fromAll) {
      ClassMatched(view.venue, adj, t, hubOrigins, fromHubs, allOrigins, fromAll, i);
    }
    forall i | 0 <= i < |fromAll| ensures Matched(fromAll[i], fromHubs) {
      ClassMatched(view.venue, adj, t, allOrigins, fromAll, hubOrigins, fromHubs, i);
    }
  }

  lemma DescribedLength(venue: string, t: Terms, origins: seq<seq<Edge>>, deduped: seq<Opportunity>)
    requires Described(venue, t, origins, deduped)
    ensures |origins| == |deduped|
  {
  }

  /** The key and the profit of an opportunity, read off the cycle behind it. */
  lemma DescribedAt(venue: string, t: Terms, origins: seq<seq<Edge>>, deduped: seq<Opportunity>, k: nat)
    requires Described(venue, t, origins, deduped) && k < |origins|
    ensures |origins| == |deduped|
    ensures KeyOf(deduped[k].legs) == EdgeKeys(origins[k])
    ensures deduped[k].netProfitPct == ProfitPct(t.exp, Total(t.negLog, origins[k]))
  {
    KeyOfLegs(origins[k]);
    hide KeyOf, EdgeKeys, ProfitPct;
  }

  lemma ClassMatched(venue: string, adj: Adjacency, t: Terms, a: seq<seq<Edge>>, listed: seq<Opportunity>,
                     b: seq<seq<Edge>>, others: seq<Opportunity>, i: nat)
    requires OnePerRotation(adj, t, a) && OnePerRotation(adj, t, b)
    requires Described(venue, t, a, listed) && Described(venue, t, b, others) && i < |listed| == |a|
    ensures Matched(listed[i], others)
  {
    SameClasses(adj, t, a, b, i);
    hide *;
    var j :| 0 <= j < |b| && IsRotation(b[j], a[i]);
    RotationKeys(b[j], a[i]);
    RotationTotals(t.negLog, b[j], a[i]);
    DescribedAt(venue, t, a, listed, i);
    DescribedAt(venue, t, b, others, j);
    MatchedBy(listed[i], others, j);
  }

  lemma MatchedBy(o: Opportunity, others: seq<Opportunity>, j: nat)
    requires j < |others| && KeyOf(others[j].legs) == KeyOf(o.legs) && others[j].netProfitPct == o.netProfitPct
    ensures Matched(o, others)
  {
  }

  lemma RotationTotals(negLog: NegLog, p: seq<Edge>, q: seq<Edge>)
    requires IsRotation(p, q)
    ensures Total(negLog, p) == Total(negLog, q)
  {
    var k :| 0 <= k <= |p| && q == Rotate(p, k);
    RotateTotal(negLog, p, k);
  }
}
