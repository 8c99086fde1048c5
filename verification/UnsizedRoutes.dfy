/** What happens to a route whose legs carry no size, as those of every triangular finding. */
module UnsizedRoutes {
  import opened Collections
  import opened Walks
  import opened Pricing
  import opened Symbols
  import opened Inventory
  import opened Routing
  import opened Risk
  import opened Execution
  import opened Triangular
  import opened TriangularScan

  ghost predicate Unsized(legs: seq<Leg>) {
    forall l | l in legs :: l.size == 0.0
  }

  /** It needs nothing, so the router always accepts it, locking nothing. */
  lemma {:induction false} UnsizedNeedsNothing(legs: seq<Leg>)
    requires Unsized(legs)
    ensures Needs(legs) == []
  {
    if legs != [] {
      assert legs[|legs| - 1] in legs && forall l | l in legs[..|legs| - 1] :: l in legs;
      UnsizedNeedsNothing(legs[..|legs| - 1]);
    }
  }

  /** And it is never traded: re-verification cannot scale a leg of size zero. */
  lemma UnsizedNeverTrades(mode: Mode, minimums: map<string, real>, s: RiskState, o: Opportunity, w: World)
    requires Unsized(o.legs)
    ensures Handled(mode, minimums, s, o, w).1 == None
  {
    hide SizeFor, RiskState.Allows, Handled;
    if Handled(mode, minimums, s, o, w).1.Some? {
      HandledTradePays(mode, minimums, s, o, w);
    }
  }

  /**
   * An opportunity that a venue scan returns quotes each leg at the top of its book, reports one profit as gross and
   * net, proposes the configured size, and carries no leg size: the router accepts it without reserving
   * anything, and no mode, book, limit or date ever makes a trade of it.
   */
  lemma ScannedNeverTrades(view: VenueView, symbols: seq<string>, t: Terms, starts: set<string>, cap: Option<int>,
                           origins: seq<seq<Edge>>, deduped: seq<Opportunity>, complete: bool, k: nat,
                           mode: Mode, minimums: map<string, real>, s: RiskState, w: World, l: Ledger)
    requires VenueScan(view, symbols, t, starts, cap, origins, deduped, complete) && k < |deduped|
    ensures var o := deduped[k];
            && o.strategy == "triangular" && o.legs != []
            && o.symbol == view.venue + ":" + Dashed(Nodes(origins[k][0].src, origins[k]))
            && o.grossProfitPct == o.netProfitPct && o.maxSizeUsd == t.maxTradeUsd
            && (forall leg | leg in o.legs :: QuotedAtTop(view, leg))
            && Needs(o.legs) == [] && Fits(l, Needs(o.legs)) && LockAll(l, Needs(o.legs)) == l
            && Handled(mode, minimums, s, o, w).1 == None
  {
    var o, p := deduped[k], origins[k];
    hide Handled, Needs, Fits;
    ScannedLegs(view, symbols, t, starts, cap, origins, deduped, complete, k);
    hide VenueScan;
    UnsizedNeedsNothing(o.legs);
    UnsizedNeverTrades(mode, minimums, s, o, w);
    NothingFits(l);
  }

  lemma NothingFits(l: Ledger)
    ensures Fits(l, [])
  {
  }

  /** A leg at the best price of its book on the venue, at the venue's fee and of no size. */
  ghost predicate QuotedAtTop(view: VenueView, leg: Leg) {
    && leg.venue == view.venue && leg.fee == view.fee && leg.size == 0.0 && (view.venue, leg.symbol) in view.books
    && var book := view.books[(view.venue, leg.symbol)];
       if leg.side == Buy then book.asks != [] && leg.price == book.asks[0].price
       else leg.side == Sell && book.bids != [] && leg.price == book.bids[0].price
  }

  lemma LegQuotedAtTop(view: VenueView, symbols: seq<string>, e: Edge)
    requires view.MarketEdge(symbols, e) && e.rate != 0.0
    ensures QuotedAtTop(view, LegOf(e))
  {
    MarketEdgeIff(view, symbols, e);
  }

  lemma ScannedLegs(view: VenueView, symbols: seq<string>, t: Terms, starts: set<string>, cap: Option<int>,
                    origins: seq<seq<Edge>>, deduped: seq<Opportunity>, complete: bool, k: nat)
    requires VenueScan(view, symbols, t, starts, cap, origins, deduped, complete) && k < |deduped|
    ensures var o := deduped[k];
            && o.strategy == "triangular" && o.legs != []
            && o.symbol == view.venue + ":" + Dashed(Nodes(origins[k][0].src, origins[k]))
            && o.grossProfitPct == o.netProfitPct && o.maxSizeUsd == t.maxTradeUsd
            && Unsized(o.legs) && forall leg | leg in o.legs :: QuotedAtTop(view, leg)
  {
    var p, o := origins[k], deduped[k];
    assert Qualifies(MarketGraph(view, symbols).entries, t, p);
    assert o == OpportunityOf(view.venue, t.exp, t.maxTradeUsd, CycleOf(t.negLog, p[0].src, p)) && o.legs == LegsOf(p);
    hide VenueScan, Qualifies, MarketGraph, ProfitPct, Dashed, Total;
    LegsQuoted(view, symbols, t, p);
    hide QuotedAtTop;
  }

  lemma LegsQuoted(view: VenueView, symbols: seq<string>, t: Terms, p: seq<Edge>)
    requires Qualifies(MarketGraph(view, symbols).entries, t, p) && forall e | e in p :: e.rate != 0.0
    ensures Unsized(LegsOf(p)) && forall leg | leg in LegsOf(p) :: QuotedAtTop(view, leg)
  {
    forall leg | leg in LegsOf(p) ensures leg.size == 0.0 && QuotedAtTop(view, leg) {
      var n :| 0 <= n < |p| && LegsOf(p)[n] == leg;
      assert p[n] in p && leg == LegOf(p[n]);
      EdgeOfCycle(MarketGraph(view, symbols).entries, t, p, n);
      MarketGraphEdges(view, symbols, p[n]);
      LegQuotedAtTop(view, symbols, p[n]);
      hide QuotedAtTop, Qualifies, MarketGraph;
    }
  }

  lemma EdgeOfCycle(adj: Adjacency, t: Terms, p: seq<Edge>, n: nat)
    requires Qualifies(adj, t, p) && n < |p|
    ensures IsEdge(adj, p[n])
  {
  }
}
