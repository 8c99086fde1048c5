/** Triangular arbitrage on one venue: search from hub assets, one opportunity per rotation class. */
module Triangular {
  import opened Collections
  import opened Sorting
  import opened Walks
  import opened Rotations
  import opened Pricing
  import opened CycleSpec
  import opened CurrencyGraphs
  import opened Books
  import DepthWalk
  import opened Symbols
  import opened Universe

  const HUB_ASSETS: set<string> := {"USDT", "USDC", "BTC", "ETH"}
  const MAX_CYCLE_SEARCH_EXPANSIONS := 2000

  /** What `build_venue_graph` reads of the market state for one venue. */
  datatype VenueView = VenueView(venue: string, books: map<(string, string), BookState>, now: real, staleness: real,
                                 fee: real) {
    /** A listed, fresh, two-sided book of a pair. */
    predicate Usable(symbol: string) {
      && (venue, symbol) in books && IsPair(symbol)
      && now - books[(venue, symbol)].timestamp <= staleness
      && books[(venue, symbol)].BestBid() > 0.0
      && books[(venue, symbol)].BestAsk().Finite? && books[(venue, symbol)].BestAsk().value > 0.0
    }

    function BuyEdge(symbol: string): Edge
      requires Usable(symbol)
    {
      Edge(Quote(symbol), Base(symbol), 1.0 / books[(venue, symbol)].BestAsk().value, fee, venue, symbol, Buy)
    }

    function SellEdge(symbol: string): Edge
      requires Usable(symbol)
    {
      Edge(Base(symbol), Quote(symbol), books[(venue, symbol)].BestBid(), fee, venue, symbol, Sell)
    }

    predicate EdgeOf(symbol: string, e: Edge) {
      Usable(symbol) && (e == BuyEdge(symbol) || e == SellEdge(symbol))
    }

    predicate MarketEdge(symbols: seq<string>, e: Edge) {
      e.symbol in symbols && EdgeOf(e.symbol, e)
    }
  }

  /** What a scan looks for, how it takes logarithms, and how much it would trade. */
  datatype Terms = Terms(negLog: NegLog, exp: real -> real, minProfitPct: real, maxLength: int, maxTradeUsd: real)

  /** The graph of one venue: the two edges of each usable market, market by market. */
  function MarketGraph(view: VenueView, symbols: seq<string>): Dict<string, seq<Edge>> {
    if symbols == [] then Dict([], map[])
    else
      var before, last := MarketGraph(view, symbols[..|symbols| - 1]), symbols[|symbols| - 1];
      if view.Usable(last) then WithEdge(WithEdge(before, view.BuyEdge(last)), view.SellEdge(last)) else before
  }

  /** An edge is listed as often as its symbol is, if it is one of the two edges of that symbol's usable market. */
  lemma {:induction false} MarketGraphLists(view: VenueView, symbols: seq<string>, e: Edge)
    ensures multiset(EdgesFrom(MarketGraph(view, symbols).entries, e.src))[e]
            == if view.EdgeOf(e.symbol, e) then multiset(symbols)[e.symbol] else 0
  {
    if symbols != [] {
      var init, last := symbols[..|symbols| - 1], symbols[|symbols| - 1];
      MarketGraphLists(view, init, e);
      assert symbols == init + [last];
      if view.Usable(last) {
        var before := MarketGraph(view, init).entries;
        OneMoreCopy(before, view.BuyEdge(last), e);
        OneMoreCopy(EdgeAdded(before, view.BuyEdge(last)), view.SellEdge(last), e);
        hide EdgeAdded, EdgesFrom;
      }
    }
  }

  lemma OneMoreCopy(adj: Adjacency, edge: Edge, e: Edge)
    ensures multiset(EdgesFrom(EdgeAdded(adj, edge), e.src))[e]
            == multiset(EdgesFrom(adj, e.src))[e] + (if e == edge then 1 else 0)
  {
  }

  /** The graph's edges are exactly the market edges. */
  lemma MarketGraphEdges(view: VenueView, symbols: seq<string>, e: Edge)
    ensures IsEdge(MarketGraph(view, symbols).entries, e) <==> view.MarketEdge(symbols, e)
  {
    MarketGraphLists(view, symbols, e);
    var listed := EdgesFrom(MarketGraph(view, symbols).entries, e.src);
    assert e in listed <==> multiset(listed)[e] > 0;
    assert e.symbol in symbols <==> multiset(symbols)[e.symbol] > 0;
  }

  lemma {:induction false} MarketGraphWellFormed(view: VenueView, symbols: seq<string>)
    ensures WellFormed(MarketGraph(view, symbols).entries)
  {
    if symbols != [] {
      var init, last := symbols[..|symbols| - 1], symbols[|symbols| - 1];
      MarketGraphWellFormed(view, init);
      if view.Usable(last) {
        var before := MarketGraph(view, init).entries;
        EdgeAddedWellFormed(before, view.BuyEdge(last));
        EdgeAddedWellFormed(EdgeAdded(before, view.BuyEdge(last)), view.SellEdge(last));
        hide WellFormed, EdgeAdded;
      }
    }
  }

  /** Distinct symbols list every edge once. */
  lemma MarketGraphOnce(view: VenueView, symbols: seq<string>)
    requires Distinct(symbols)
    ensures NoParallelCopies(MarketGraph(view, symbols).entries)
  {
    var adj := MarketGraph(view, symbols).entries;
    MarketGraphWellFormed(view, symbols);
    forall a: string, i, j | a in adj && 0 <= i < j < |adj[a]| ensures adj[a][i] != adj[a][j] {
      var e: Edge := adj[a][i];
      assert e in adj[a] && e.src == a;
      MarketGraphLists(view, symbols, e);
      if e.symbol in symbols {
        OncePresent(symbols, e.symbol);
      }
      if adj[a][j] == e {
        TwicePresent(adj[a], i, j);
      }
    }
  }

  /**
   * A market edge read off its book: a fresh two-sided book of a listed pair, converting quote to base at the
   * lowest ask or base to quote at the highest bid.
   */
  lemma MarketEdgeIff(view: VenueView, symbols: seq<string>, e: Edge)
    ensures view.MarketEdge(symbols, e) <==>
            && e.symbol in symbols && '/' in e.symbol && (view.venue, e.symbol) in view.books
            && e.venue == view.venue && e.fee == view.fee
            && var book := view.books[(view.venue, e.symbol)];
               && view.now - book.timestamp <= view.staleness
               && book.bids != [] && book.bids[0].price > 0.0 && book.asks != [] && book.asks[0].price > 0.0
               && if e.side == Buy then
                    e.src == Quote(e.symbol) && e.dst == Base(e.symbol) && e.rate * book.asks[0].price == 1.0
                  else
                    e.side == Sell && e.src == Base(e.symbol) && e.dst == Quote(e.symbol)
                    && e.rate == book.bids[0].price
  {
    if (view.venue, e.symbol) in view.books && view.books[(view.venue, e.symbol)].asks != [] {
      var ask := view.books[(view.venue, e.symbol)].asks[0].price;
      if ask > 0.0 {
        Reciprocal(e.rate, ask);
      }
    }
  }

  lemma Reciprocal(rate: real, ask: real)
    requires ask > 0.0
    ensures rate * ask == 1.0 <==> rate == 1.0 / ask
  {
  }

  /**
   * An edge's effective rate is what trading on its book gets, after the fee, for one unit of its source: at
   * any quantity that the first level holds.
   */
  lemma EdgeIsTopTrade(view: VenueView, symbols: seq<string>, e: Edge, q: real)
    requires view.MarketEdge(symbols, e)
    requires var side := view.books[(view.venue, e.symbol)].Against(e.side);
             side != [] && 0.0 < q <= side[0].size
    ensures var book := view.books[(view.venue, e.symbol)];
            && (e.side == Buy ==> Product(Books.Cost(book.asks, q), e.EffectiveRate()) == Product(q, 1.0 - e.fee))
            && (e.side == Sell ==> Product(q, e.EffectiveRate()) == Product(Books.Cost(book.bids, q), 1.0 - e.fee))
  {
    var book := view.books[(view.venue, e.symbol)];
    MarketEdgeIff(view, symbols, e);
    DepthWalk.WithinFirst(book.Against(e.side), q);
    hide VenueView.MarketEdge, Books.Cost, Filled, Vwap, Product;
    if e.side == Buy {
      BoughtTop(q, book.asks[0].price, e.rate, e.fee);
    } else {
      SoldTop(q, e.rate, e.fee);
    }
  }

  lemma BoughtTop(q: real, ask: real, rate: real, fee: real)
    requires rate * ask == 1.0
    ensures Product(Notional(q, ask), AfterFee(rate, fee)) == Product(q, 1.0 - fee)
  {
    assert q * ask * (rate * (1.0 - fee)) == q * (rate * ask) * (1.0 - fee);
  }

  lemma SoldTop(q: real, bid: real, fee: real)
    ensures Product(q, AfterFee(bid, fee)) == Product(Notional(q, bid), 1.0 - fee)
  {
    assert q * (bid * (1.0 - fee)) == q * bid * (1.0 - fee);
  }

  /** Two edges per usable market; a symbol with two slashes cannot be unpacked and is the caller's mistake. */
  method BuildVenueGraph(view: VenueView, symbols: seq<string>, negLog: NegLog) returns (graph: CurrencyGraph)
    requires forall s | s in symbols && view.Usable(s) :: '/' !in Quote(s)
    ensures fresh(graph) && graph.Valid() && graph.negLog == negLog
    ensures graph.adjacency == MarketGraph(view, symbols)
    ensures forall e :: IsEdge(graph.adjacency.entries, e) <==> view.MarketEdge(symbols, e)
  {
    hide CurrencyGraph.Valid, WithEdge;
    graph := new CurrencyGraph(negLog);
    for k := 0 to |symbols|
      invariant fresh(graph) && graph.Valid() && graph.negLog == negLog
      invariant graph.adjacency == MarketGraph(view, symbols[..k])
    {
      assert symbols[..k + 1][..k] == symbols[..k];
      var symbol := symbols[k];
      if !view.Usable(symbol) {
        continue;
      }
      graph.AddEdge(view.BuyEdge(symbol));
      graph.AddEdge(view.SellEdge(symbol));
    }
    assert symbols[..|symbols|] == symbols;
    hide MarketGraph, IsEdge;
    forall e ensures IsEdge(graph.adjacency.entries, e) <==> view.MarketEdge(symbols, e) {
      MarketGraphEdges(view, symbols, e);
    }
  }

  function Next(p: seq<Edge>, k: nat): nat
    requires k < |p|
  {
    if k + 1 < |p| then k + 1 else 0
  }

  lemma CycleEdge(adj: Adjacency, p: seq<Edge>, k: nat)
    requires SimpleCycle(adj, p) && k < |p|
    ensures IsEdge(adj, p[k]) && Next(p, k) < |p| && p[k].dst == p[Next(p, k)].src
  {
    hide IsEdge;
  }

  /** The quote of an edge's pair is one of its ends: a hub, or EUR. */
  lemma EdgeMeetsQuote(adj: Adjacency, view: VenueView, symbols: seq<string>, p: seq<Edge>, k: nat)
    requires forall e | IsEdge(adj, e) :: view.MarketEdge(symbols, e)
    requires forall s | s in symbols :: UniverseSymbol(s)
    requires SimpleCycle(adj, p) && k < |p|
    ensures p[k].src in HUB_ASSETS + {"EUR"} || p[Next(p, k)].src in HUB_ASSETS + {"EUR"}
  {
    hide *;
    var e := p[k];
    CycleEdge(adj, p, k);
    QuoteIsEnd(view, symbols, e);
    UniverseSplits(e.symbol);
    HubsAndEuro(Quote(e.symbol));
  }

  lemma QuoteIsEnd(view: VenueView, symbols: seq<string>, e: Edge)
    requires view.MarketEdge(symbols, e)
    ensures e.symbol in symbols && (Quote(e.symbol) == e.src || Quote(e.symbol) == e.dst)
  {
    hide Quote, Base, IsPair;
  }

  lemma HubsAndEuro(quote: string)
    requires quote in QUOTE_ASSETS
    ensures quote in HUB_ASSETS + {"EUR"}
  {
  }

  /** Every universe pair is quoted in a hub or in EUR, so a cycle of three or more legs meets a hub. */
  lemma CycleMeetsHub(adj: Adjacency, view: VenueView, symbols: seq<string>, p: seq<Edge>)
    requires forall e | IsEdge(adj, e) :: view.MarketEdge(symbols, e)
    requires forall s | s in symbols :: UniverseSymbol(s)
    requires SimpleCycle(adj, p) && |p| >= 3
    ensures exists k :: 0 <= k < |p| && p[k].src in HUB_ASSETS
  {
    var k := if p[0].src == "EUR" then 1 else if p[1].src == "EUR" then 2 else 0;
    EdgeMeetsQuote(adj, view, symbols, p, k);
  }

  /** The leg that trades an edge. */
  function LegOf(e: Edge): Leg
    requires e.rate != 0.0
  {
    Leg(e.venue, e.symbol, e.side, if e.side == Buy then 1.0 / e.rate else e.rate, 0.0, e.fee)
  }

  function LegsOf(p: seq<Edge>): (legs: seq<Leg>)
    requires forall e | e in p :: e.rate != 0.0
    ensures |legs| == |p| && forall k | 0 <= k < |p| :: legs[k] == LegOf(p[k])
  {
    if p == [] then [] else [LegOf(p[0])] + LegsOf(p[1..])
  }

  function Dashed(assets: seq<string>): string {
    if assets == [] then "" else if |assets| == 1 then assets[0] else assets[0] + "-" + Dashed(assets[1..])
  }

  lemma {:induction false} DashedNext(assets: seq<string>, asset: string)
    ensures Dashed([]) == "" && Dashed([asset]) == asset
    ensures assets != [] ==> Dashed(assets + [asset]) == Dashed(assets) + "-" + asset
  {
    if |assets| == 1 {
      assert (assets + [asset])[1..] == [asset];
    } else if |assets| > 1 {
      DashedNext(assets[1..], asset);
      assert (assets + [asset])[1..] == assets[1..] + [asset];
    }
  }

  function OpportunityOf(venue: string, exp: real -> real, maxTradeUsd: real, c: Cycle): Opportunity
    requires forall e | e in c.edges :: e.rate != 0.0
  {
    Opportunity("triangular", venue + ":" + Dashed(c.assets), LegsOf(c.edges),
                ProfitPct(exp, c.total), ProfitPct(exp, c.total), maxTradeUsd)
  }

  type RouteSet = set<(string, string, Side)>

  /** The de-duplication key: the set of venue, symbol and side over the legs. */
  function KeyOf(legs: seq<Leg>): RouteSet {
    set l | l in legs :: (l.venue, l.symbol, l.side)
  }

  /** What the strategy is asked for: profitable simple cycles of 3 to `t.maxLength` legs over the threshold. */
  ghost predicate Qualifies(adj: Adjacency, t: Terms, p: seq<Edge>) {
    && 3 <= |p| <= t.maxLength && SimpleCycle(adj, p)
    && Total(t.negLog, p).Negative() && ProfitPct(t.exp, Total(t.negLog, p)) >= t.minProfitPct
  }

  /** Only qualifying cycles, no two of them rotations of each other. */
  ghost predicate DistinctClasses(adj: Adjacency, t: Terms, origins: seq<seq<Edge>>) {
    && (forall k | 0 <= k < |origins| :: Qualifies(adj, t, origins[k]))
    && (forall i, j | 0 <= i < j < |origins| :: !IsRotation(origins[i], origins[j]))
  }

  /** Every qualifying cycle is a rotation of exactly one of `origins`, and nothing else is there. */
  ghost predicate OnePerRotation(adj: Adjacency, t: Terms, origins: seq<seq<Edge>>) {
    && DistinctClasses(adj, t, origins)
    && forall p | Qualifies(adj, t, p) :: exists k :: 0 <= k < |origins| && IsRotation(origins[k], p)
  }

  /** The exhaustive search from `start` traverses no more edges than the cap allows. */
  ghost predicate Affordable(adj: Adjacency, start: string, maxLength: int, cap: Option<int>) {
    cap == None || CycleSpec.Cost(adj, start, maxLength, [], start) == 0
        || CycleSpec.Cost(adj, start, maxLength, [], start) <= cap.value
  }

  ghost predicate AllAffordable(adj: Adjacency, starts: set<string>, maxLength: int, cap: Option<int>) {
    forall start | start in starts :: Affordable(adj, start, maxLength, cap)
  }

  /** Every qualifying cycle passes through a start. */
  ghost predicate Covers(adj: Adjacency, t: Terms, starts: set<string>) {
    forall p: seq<Edge> | Qualifies(adj, t, p) :: exists k :: 0 <= k < |p| && p[k].src in starts
  }

  lemma RotationQualifies(adj: Adjacency, t: Terms, p: seq<Edge>, k: nat)
    requires Qualifies(adj, t, p) && k < |p|
    ensures Qualifies(adj, t, Rotate(p, k)) && Rotate(p, k)[0] == p[k]
  {
    RotateSimple(adj, p, k);
    RotateTotal(t.negLog, p, k);
  }

  /** The cycle behind an opportunity has the key of its edges' markets. */
  ghost function EdgeKeys(p: seq<Edge>): RouteSet {
    set e | e in p :: (e.venue, e.symbol, e.side)
  }

  lemma KeyOfLegs(p: seq<Edge>)
    requires forall e | e in p :: e.rate != 0.0
    ensures KeyOf(LegsOf(p)) == EdgeKeys(p)
  {
  }

  /** On one venue a market and a side name one edge, so equal keys mean equal edges, up to rotation the same cycle. */
  lemma SameKeyIffRotation(adj: Adjacency, view: VenueView, symbols: seq<string>, p: seq<Edge>, q: seq<Edge>)
    requires forall e | IsEdge(adj, e) :: view.MarketEdge(symbols, e)
    requires SimpleCycle(adj, p) && SimpleCycle(adj, q)
    ensures EdgeKeys(p) == EdgeKeys(q) <==> IsRotation(p, q)
  {
    if EdgeKeys(p) == EdgeKeys(q) {
      assert forall e | e in p || e in q :: IsEdge(adj, e);
      hide SimpleCycle, EdgeKeys, IsEdge;
      SubsetOfKeys(view, symbols, p, q);
      SubsetOfKeys(view, symbols, q, p);
      SameEdgesRotate(adj, p, q);
    }
    if IsRotation(p, q) {
      RotationKeys(p, q);
    }
  }

  lemma RotationKeys(p: seq<Edge>, q: seq<Edge>)
    requires IsRotation(p, q)
    ensures EdgeKeys(p) == EdgeKeys(q)
  {
  }

  lemma SubsetOfKeys(view: VenueView, symbols: seq<string>, p: seq<Edge>, q: seq<Edge>)
    requires forall e | e in p || e in q :: view.MarketEdge(symbols, e)
    requires EdgeKeys(p) <= EdgeKeys(q)
    ensures EdgeSet(p) <= EdgeSet(q)
  {
    forall e | e in p ensures e in q {
      assert (e.venue, e.symbol, e.side) in EdgeKeys(p);
      var f :| f in q && (e.venue, e.symbol, e.side) == (f.venue, f.symbol, f.side);
    }
  }

  /** A collected cycle is qualifying and carries its own nodes and weight. */
  ghost predicate Genuine(adj: Adjacency, t: Terms, c: Cycle) {
    c.edges != [] && c == CycleOf(t.negLog, c.edges[0].src, c.edges) && Qualifies(adj, t, c.edges)
  }

  /** The uncapped search from a start reports the genuine cycles that begin there, before the threshold. */
  lemma FoundFrom(adj: Adjacency, t: Terms, start: string, c: Cycle)
    requires WellFormed(adj) && start in adj
    ensures c in Explore(adj, t.negLog, start, t.maxLength, [], start) && ProfitPct(t.exp, c.total) >= t.minProfitPct
            ==> Genuine(adj, t, c)
    ensures Genuine(adj, t, c) && c.edges != [] && c.edges[0].src == start
            ==> c in Explore(adj, t.negLog, start, t.maxLength, [], start)
                && ProfitPct(t.exp, c.total) >= t.minProfitPct
  {
    ReportsExactly(adj, t.negLog, start, t.maxLength, c);
  }

  /** `kept` is genuine and, when the search was complete, misses nothing that begins at `start`. */
  ghost predicate KeptFrom(adj: Adjacency, t: Terms, start: string,
                           kept: seq<Cycle>, complete: bool) {
    && (forall c | c in kept :: Genuine(adj, t, c))
    && (complete ==> forall c | Genuine(adj, t, c) && c.edges != [] && c.edges[0].src == start :: c in kept)
  }

  lemma KeptIsExact(adj: Adjacency, t: Terms, start: string, kept: seq<Cycle>, complete: bool)
    requires WellFormed(adj) && start in adj
    requires forall c | c in kept ::
             c in Explore(adj, t.negLog, start, t.maxLength, [], start) && ProfitPct(t.exp, c.total) >= t.minProfitPct
    requires complete ==> forall c | c in Explore(adj, t.negLog, start, t.maxLength, [], start)
             && ProfitPct(t.exp, c.total) >= t.minProfitPct :: c in kept
    ensures KeptFrom(adj, t, start, kept, complete)
  {
    hide Genuine, Explore, WellFormed;
    forall c | c in kept ensures Genuine(adj, t, c) {
      FoundFrom(adj, t, start, c);
    }
    forall c | complete && Genuine(adj, t, c) && c.edges != [] && c.edges[0].src == start ensures c in kept {
      FoundFrom(adj, t, start, c);
    }
  }

  /** The cycles that clear the threshold, in order. */
  function Clearing(cycles: seq<Cycle>, t: Terms): seq<Cycle> {
    if cycles == [] then []
    else
      var last := cycles[|cycles| - 1];
      Clearing(cycles[..|cycles| - 1], t) + (if ProfitPct(t.exp, last.total) < t.minProfitPct then [] else [last])
  }

  lemma {:induction false} ClearingMember(cycles: seq<Cycle>, t: Terms, c: Cycle)
    ensures c in Clearing(cycles, t) <==> c in cycles && ProfitPct(t.exp, c.total) >= t.minProfitPct
  {
    hide ProfitPct;
    if cycles != [] {
      var init, last := cycles[..|cycles| - 1], cycles[|cycles| - 1];
      assert cycles == init + [last];
      ClearingMember(init, t, c);
    }
  }

  method KeepClearing(cycles: seq<Cycle>, t: Terms) returns (kept: seq<Cycle>)
    ensures kept == Clearing(cycles, t)
  {
    hide ProfitPct;
    kept := [];
    for i := 0 to |cycles|
      invariant kept == Clearing(cycles[..i], t)
    {
      assert cycles[..i + 1][..i] == cycles[..i];
      if ProfitPct(t.exp, cycles[i].total) < t.minProfitPct {
        continue;
      }
      kept := kept + [cycles[i]];
    }
    assert cycles[..|cycles|] == cycles;
  }

  /** What a cut-off search reports is among what the whole search reports. */
  lemma PrefixFound(adj: Adjacency, t: Terms, start: string, n: nat, c: Cycle)
    requires n <= |Trace(adj, t.negLog, start, t.maxLength, [], start)|
    ensures c in Reported(Trace(adj, t.negLog, start, t.maxLength, [], start)[..n])
            ==> c in Explore(adj, t.negLog, start, t.maxLength, [], start)
  {
    var trace := Trace(adj, t.negLog, start, t.maxLength, [], start);
    TraceIsExplore(adj, t.negLog, start, t.maxLength, [], start);
    hide Trace, Explore, Reported;
    assert trace == trace[..n] + trace[n..];
    ReportedConcat(trace[..n], trace[n..]);
  }

  /** Keeps the cycles of one search that clear the threshold, lightest first. */
  method AboveThreshold(graph: CurrencyGraph, start: string, t: Terms, cap: Option<int>)
    returns (kept: seq<Cycle>, truncated: bool)
    requires graph.Valid() && start in graph.adjacency.entries && graph.negLog == t.negLog
    ensures truncated <==> !Affordable(graph.adjacency.entries, start, t.maxLength, cap)
    ensures KeptFrom(graph.adjacency.entries, t, start, kept, !truncated)
    ensures kept == Clearing(FoundBy(graph.adjacency.entries, t.negLog, start, t.maxLength, cap), t)
  {
    hide KeptFrom, Explore, Trace, Reported, CycleSpec.Cost, Ordered, SortBy, WellFormed, Dict.Valid, Clearing,
        ProfitPct;
    var cycles;
    ghost var expansions;
    cycles, truncated, expansions := graph.FindCycles(start, t.maxLength, cap);
    kept := KeepClearing(cycles, t);
    ghost var adj := graph.adjacency.entries;
    ghost var found := Explore(adj, t.negLog, start, t.maxLength, [], start);
    ghost var reported := Reported(Trace(adj, t.negLog, start, t.maxLength, [], start)[..expansions]);
    forall c ensures c in kept ==> c in found && ProfitPct(t.exp, c.total) >= t.minProfitPct
      ensures !truncated && c in found && ProfitPct(t.exp, c.total) >= t.minProfitPct ==> c in kept
    {
      ClearingMember(cycles, t, c);
      SameMember(reported, LighterFirst, c);
      SameMember(found, LighterFirst, c);
      PrefixFound(adj, t, start, expansions, c);
    }
    KeptIsExact(adj, t, start, kept, !truncated);
  }
}
