/** Re-pricing a detected route from live books, and why an unchanged book gives the detected profit back. */
module Rescan {
  import opened Collections
  import opened Walks
  import opened Rotations
  import opened Pricing
  import opened Books
  import opened Symbols
  import opened Triangular
  import opened TriangularScan

  /** One leg as a conversion: `None` when it cannot be repriced. */
  function LegRate(books: BookTable, leg: Leg): Option<real> {
    if leg.side == Transfer then Some(AfterFee(1.0, leg.fee))
    else if (leg.venue, leg.symbol) !in books then None
    else
      var state := books[(leg.venue, leg.symbol)];
      var price := if leg.side == Buy then state.BestAsk() else Finite(state.BestBid());
      if price.Infinite? || price.value <= 0.0 then None
      else Some(AfterFee(if leg.side == Buy then 1.0 / price.value else price.value, leg.fee))
  }

  function ChainRate(books: BookTable, legs: seq<Leg>): Option<real> {
    if legs == [] then Some(1.0)
    else Joined(LegRate(books, legs[0]), ChainRate(books, legs[1..]))
  }

  function Joined(a: Option<real>, b: Option<real>): Option<real> {
    if a.Some? && b.Some? then Some(Product(a.value, b.value)) else None
  }

  /**
   * A leg's rate read off its book: a transfer only pays its fee, a purchase converts at the lowest ask, a sale
   * at the highest bid, and there is no rate exactly without a book or without a positive price on that side.
   */
  lemma LegRateIff(books: BookTable, leg: Leg)
    ensures leg.side == Transfer ==> LegRate(books, leg) == Some(1.0 - leg.fee)
    ensures leg.side != Transfer ==>
              (LegRate(books, leg) == None <==>
               || (leg.venue, leg.symbol) !in books
               || var side := books[(leg.venue, leg.symbol)].Against(leg.side); side == [] || side[0].price <= 0.0)
    ensures leg.side == Buy && LegRate(books, leg).Some? ==>
              LegRate(books, leg).value * books[(leg.venue, leg.symbol)].asks[0].price == 1.0 - leg.fee
    ensures leg.side == Sell && LegRate(books, leg).Some? ==>
              LegRate(books, leg).value == books[(leg.venue, leg.symbol)].bids[0].price * (1.0 - leg.fee)
  {
    if leg.side == Buy && LegRate(books, leg).Some? {
      var ask := books[(leg.venue, leg.symbol)].asks[0].price;
      Inverted(ask, 1.0 - leg.fee);
    }
  }

  lemma Inverted(ask: real, kept: real)
    requires ask > 0.0
    ensures 1.0 / ask * kept * ask == kept
  {
  }

  /** The chain from leg `k` on is worth `total` in units of what is held. */
  ghost predicate Held(books: BookTable, legs: seq<Leg>, k: nat, holding: real) {
    && k <= |legs|
    && (ChainRate(books, legs).Some? <==> ChainRate(books, legs[k..]).Some?)
    && (ChainRate(books, legs).Some?
        ==> ChainRate(books, legs).value == Product(holding, ChainRate(books, legs[k..]).value))
  }

  lemma HeldStart(books: BookTable, legs: seq<Leg>)
    ensures Held(books, legs, 0, 1.0)
  {
  }

  lemma ChainUnfolds(books: BookTable, legs: seq<Leg>)
    requires legs != []
    ensures ChainRate(books, legs) == Joined(LegRate(books, legs[0]), ChainRate(books, legs[1..]))
  {
  }

  lemma HeldStep(books: BookTable, legs: seq<Leg>, k: nat, holding: real)
    requires Held(books, legs, k, holding) && k < |legs|
    ensures match LegRate(books, legs[k])
            case Some(rate) => Held(books, legs, k + 1, Product(holding, rate))
            case None => ChainRate(books, legs) == None
  {
    assert legs[k..][0] == legs[k] && legs[k..][1..] == legs[k + 1..];
    ChainUnfolds(books, legs[k..]);
    hide LegRate, ChainRate, Product;
    var here, rest := LegRate(books, legs[k]), ChainRate(books, legs[k + 1..]);
    if here.Some? && rest.Some? {
      ProductAssociates(holding, here.value, rest.value);
    }
  }

  lemma HeldEnd(books: BookTable, legs: seq<Leg>, holding: real)
    requires Held(books, legs, |legs|, holding)
    ensures ChainRate(books, legs) == Some(holding)
  {
  }

  /** Net profit of chaining the legs on one unit; `None` without legs or with a leg that has no price. */
  method RescanNetProfitPct(books: BookTable, legs: seq<Leg>) returns (r: Option<real>)
    ensures r.Some? <==> legs != [] && ChainRate(books, legs).Some?
    ensures r.Some? ==> r.value == (ChainRate(books, legs).value - 1.0) * 100.0
  {
    hide ChainRate, Held, AfterFee, Product;
    if legs == [] {
      return None;
    }
    var holding := 1.0;
    HeldStart(books, legs);
    for k := 0 to |legs|
      invariant Held(books, legs, k, holding)
    {
      var leg := legs[k];
      HeldStep(books, legs, k, holding);
      if leg.side == Transfer {
        holding := Product(holding, AfterFee(1.0, leg.fee));
        continue;
      }
      if (leg.venue, leg.symbol) !in books {
        return None;
      }
      var state := books[(leg.venue, leg.symbol)];
      var price := if leg.side == Buy then state.BestAsk() else Finite(state.BestBid());
      if price.Infinite? || price.value <= 0.0 {
        return None;
      }
      var rate := if leg.side == Buy then 1.0 / price.value else price.value;
      holding := Product(holding, AfterFee(rate, leg.fee));
    }
    HeldEnd(books, legs, holding);
    r := Some((holding - 1.0) * 100.0);
  }

  lemma UnchangedLeg(view: VenueView, symbols: seq<string>, e: Edge)
    requires view.MarketEdge(symbols, e) && e.rate != 0.0
    ensures LegRate(view.books, LegOf(e)) == Some(e.EffectiveRate())
  {
  }

  /** On the books an edge was built from, its leg converts at the edge's effective rate. */
  lemma {:induction false} UnchangedChain(view: VenueView, symbols: seq<string>, p: seq<Edge>)
    requires forall e | e in p :: view.MarketEdge(symbols, e) && e.rate != 0.0
    ensures ChainRate(view.books, LegsOf(p)) == Some(PathRate(p))
  {
    if p == [] {
    } else {
      assert p[0] in p && forall e | e in p[1..] :: e in p;
      UnchangedLeg(view, symbols, p[0]);
      assert LegsOf(p)[1..] == LegsOf(p[1..]) && LegsOf(p)[0] == LegOf(p[0]);
      UnchangedChain(view, symbols, p[1..]);
      ChainUnfolds(view.books, LegsOf(p));
      hide LegRate, VenueView.MarketEdge, LegOf, Edge.EffectiveRate, ChainRate, Product;
    }
  }

  /** Re-pricing a triangular opportunity on unchanged books gives exactly the profit it was reported with. */
  lemma UnchangedBookSameProfit(view: VenueView, symbols: seq<string>, negLog: NegLog, exp: real -> real,
                                maxTradeUsd: real, c: Cycle)
    requires Lawful(negLog, exp) && c.edges != [] && c.total == Total(negLog, c.edges) && c.total.Finite?
    requires forall e | e in c.edges :: view.MarketEdge(symbols, e) && e.rate != 0.0
    ensures var o := OpportunityOf(view.venue, exp, maxTradeUsd, c);
            && o.legs != [] && ChainRate(view.books, o.legs).Some?
            && (ChainRate(view.books, o.legs).value - 1.0) * 100.0 == o.netProfitPct
  {
    UnchangedChain(view, symbols, c.edges);
    ProfitIsGain(negLog, exp, c.edges);
  }

  /** So does re-pricing any opportunity that a scan of the venue returns, cut off or not. */
  lemma ScanSameProfit(view: VenueView, symbols: seq<string>, t: Terms, starts: set<string>, cap: Option<int>,
                       origins: seq<seq<Edge>>, deduped: seq<Opportunity>, complete: bool, k: nat)
    requires Lawful(t.negLog, t.exp) && VenueScan(view, symbols, t, starts, cap, origins, deduped, complete)
    requires k < |deduped|
    ensures var chain := ChainRate(view.books, deduped[k].legs);
            deduped[k].legs != [] && chain.Some? && (chain.value - 1.0) * 100.0 == deduped[k].netProfitPct
  {
    var adj, p := MarketGraph(view, symbols).entries, origins[k];
    forall e | e in p ensures view.MarketEdge(symbols, e) && e.rate != 0.0 {
      MarketGraphEdges(view, symbols, e);
      assert IsEdge(adj, e);
      MarketRate(view, symbols, e);
    }
    hide OnePerRotation, AllAffordable, Covers, MarketGraph, SimpleCycle, VenueView.MarketEdge, ChainRate, PathRate;
    var c := CycleOf(t.negLog, p[0].src, p);
    assert c.total.Finite? && deduped[k] == OpportunityOf(view.venue, t.exp, t.maxTradeUsd, c);
    UnchangedBookSameProfit(view, symbols, t.negLog, t.exp, t.maxTradeUsd, c);
  }

  /** Wherever the cycle is entered, re-pricing its legs gives that same profit. */
  lemma {:induction false} UnchangedBookAnyRotation(view: VenueView, symbols: seq<string>, negLog: NegLog,
                                                    exp: real -> real, p: seq<Edge>, k: nat)
    requires Lawful(negLog, exp) && Total(negLog, p).Finite? && k < |p|
    requires forall e | e in p :: view.MarketEdge(symbols, e) && e.rate != 0.0
    ensures (forall e | e in Rotate(p, k) :: e.rate != 0.0)
            && var chain := ChainRate(view.books, LegsOf(Rotate(p, k)));
            chain.Some? && (chain.value - 1.0) * 100.0 == ProfitPct(exp, Total(negLog, p))
  {
    var q := Rotate(p, k);
    RotateTotal(negLog, p, k);
    assert forall e | e in q :: e in p;
    UnchangedChain(view, symbols, q);
    ProfitIsGain(negLog, exp, q);
  }

  /** A positive threshold already implies a gain, so the search's own filter removes nothing that clears it. */
  lemma ThresholdImpliesGain(negLog: NegLog, exp: real -> real, p: seq<Edge>, minProfitPct: real)
    requires Lawful(negLog, exp) && minProfitPct > 0.0 && ProfitPct(exp, Total(negLog, p)) >= minProfitPct
    ensures Total(negLog, p).Negative() && (PathRate(p) - 1.0) * 100.0 >= minProfitPct
  {
    ProfitIsGain(negLog, exp, p);
  }
}
