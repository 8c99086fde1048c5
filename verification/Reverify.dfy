/** Re-pricing a sized route against current depth, immediately before committing capital. */
module Reverify {
  import opened Walks
  import opened Books
  import opened Symbols

  /** The price and quantity a leg would fill at; without a book, the leg's own price. */
  function LegFill(books: BookTable, leg: Leg, size: real): (real, real) {
    if (leg.venue, leg.symbol) !in books then (leg.price, size)
    else
      var levels := books[(leg.venue, leg.symbol)].Against(leg.side);
      if Books.Filled(levels, size) <= 0.0 then (0.0, 0.0) else (Vwap(levels, size), Books.Filled(levels, size))
  }

  predicate Fillable(books: BookTable, leg: Leg, size: real) {
    var fill := LegFill(books, leg, size);
    fill.0 > 0.0 && fill.1 > 0.0
  }

  function BuyCost(books: BookTable, leg: Leg, size: real): real {
    var fill := LegFill(books, leg, size);
    var notional := Product(fill.0, fill.1);
    if leg.side == Buy then notional + Product(notional, leg.fee) else 0.0
  }

  function SellProceeds(books: BookTable, leg: Leg, size: real): real {
    var fill := LegFill(books, leg, size);
    var notional := Product(fill.0, fill.1);
    if leg.side == Buy then 0.0 else notional - Product(notional, leg.fee)
  }

  function TotalCost(books: BookTable, legs: seq<Leg>, scale: real): real {
    if legs == [] then 0.0
    else
      TotalCost(books, legs[..|legs| - 1], scale)
      + BuyCost(books, legs[|legs| - 1], Product(legs[|legs| - 1].size, scale))
  }

  function TotalProceeds(books: BookTable, legs: seq<Leg>, scale: real): real {
    if legs == [] then 0.0
    else
      TotalProceeds(books, legs[..|legs| - 1], scale)
      + SellProceeds(books, legs[|legs| - 1], Product(legs[|legs| - 1].size, scale))
  }

  /** The first bought leg, or the first leg. */
  function BuyLeg(legs: seq<Leg>): (leg: Leg)
    requires legs != []
    ensures leg in legs
    ensures (exists k :: 0 <= k < |legs| && legs[k].side == Buy && leg == legs[k]
                         && forall j | 0 <= j < k :: legs[j].side != Buy)
            || (leg == legs[0] && forall k | 0 <= k < |legs| :: legs[k].side != Buy)
  {
    var bought := FirstBought(legs);
    if bought < |legs| then legs[bought] else legs[0]
  }

  function FirstBought(legs: seq<Leg>): (n: nat)
    ensures n <= |legs| && (n < |legs| ==> legs[n].side == Buy)
    ensures forall k | 0 <= k < n :: legs[k].side != Buy
  {
    if legs == [] || legs[0].side == Buy then 0 else 1 + FirstBought(legs[1..])
  }

  /** Every leg scales with the buy leg. */
  function ScaleOf(legs: seq<Leg>, sizeUsd: real): real
    requires legs != [] && BuyLeg(legs).price > 0.0 && BuyLeg(legs).size > 0.0
  {
    sizeUsd / BuyLeg(legs).price / BuyLeg(legs).size
  }

  /** Whether the route can be re-priced at this size at all. */
  predicate Priceable(books: BookTable, legs: seq<Leg>, sizeUsd: real) {
    && legs != [] && sizeUsd > 0.0 && BuyLeg(legs).price > 0.0 && BuyLeg(legs).size > 0.0
    && var scale := ScaleOf(legs, sizeUsd);
       && (forall k | 0 <= k < |legs| :: Fillable(books, legs[k], Product(legs[k].size, scale)))
       && TotalCost(books, legs, scale) > 0.0
  }

  /** Profit in per cent of cost. */
  function Margin(proceeds: real, cost: real): real
    requires cost > 0.0
  {
    (proceeds - cost) / cost * 100.0
  }

  /** Net profit of the whole route at this size, every leg scaled with the buy leg. */
  function NetPctNow(books: BookTable, legs: seq<Leg>, sizeUsd: real): real
    requires Priceable(books, legs, sizeUsd)
  {
    var scale := ScaleOf(legs, sizeUsd);
    Margin(TotalProceeds(books, legs, scale), TotalCost(books, legs, scale))
  }

  /** `reverify_profitability`: still profitable, and by how much. */
  method ReverifyProfitability(books: BookTable, legs: seq<Leg>, sizeUsd: real) returns (ok: bool, netPct: real)
    ensures ok <==> Priceable(books, legs, sizeUsd) && NetPctNow(books, legs, sizeUsd) > 0.0
    ensures netPct == if Priceable(books, legs, sizeUsd) then NetPctNow(books, legs, sizeUsd) else 0.0
    ensures legs == [] || sizeUsd <= 0.0 || BuyLeg(legs).price <= 0.0 || BuyLeg(legs).size <= 0.0
            ==> !ok && netPct == 0.0
  {
    if legs == [] || sizeUsd <= 0.0 {
      return false, 0.0;
    }
    var buyLeg := BuyLeg(legs);
    if buyLeg.price <= 0.0 || buyLeg.size <= 0.0 {
      return false, 0.0;
    }
    var scale := ScaleOf(legs, sizeUsd);
    var totalCost, totalProceeds := 0.0, 0.0;
    for k := 0 to |legs|
      invariant totalCost == TotalCost(books, legs[..k], scale)
                && totalProceeds == TotalProceeds(books, legs[..k], scale)
      invariant forall j | 0 <= j < k :: Fillable(books, legs[j], Product(legs[j].size, scale))
    {
      hide TotalCost, TotalProceeds, Priceable, NetPctNow, LegFill, Product, BuyLeg, ScaleOf;
      TotalsNext(books, legs, k, scale);
      var leg := legs[k];
      var price, filled := PriceLeg(books, leg, Product(leg.size, scale));
      if filled <= 0.0 || price <= 0.0 {
        NotPriceable(books, legs, k, sizeUsd);
        return false, 0.0;
      }
      var notional := Product(price, filled);
      var feeAmount := Product(notional, leg.fee);
      if leg.side == Buy {
        totalCost := totalCost + (notional + feeAmount);
      } else {
        totalProceeds := totalProceeds + (notional - feeAmount);
      }
    }
    assert legs[..|legs|] == legs;
    if totalCost <= 0.0 {
      return false, 0.0;
    }
    netPct := Margin(totalProceeds, totalCost);
    ok := netPct > 0.0;
  }

  method PriceLeg(books: BookTable, leg: Leg, size: real) returns (price: real, filled: real)
    ensures (price, filled) == LegFill(books, leg, size)
  {
    if (leg.venue, leg.symbol) !in books {
      return leg.price, size;
    }
    EmptyFill(books, leg, size);
    price, filled := books[(leg.venue, leg.symbol)].VwapFillPrice(leg.side, size);
  }

  lemma EmptyFill(books: BookTable, leg: Leg, size: real)
    requires (leg.venue, leg.symbol) in books
    ensures var levels := books[(leg.venue, leg.symbol)].Against(leg.side);
            Books.Filled(levels, size) <= 0.0 ==> Vwap(levels, size) == 0.0
  {
  }

  lemma NotPriceable(books: BookTable, legs: seq<Leg>, k: nat, sizeUsd: real)
    requires k < |legs| && legs != [] && BuyLeg(legs).price > 0.0 && BuyLeg(legs).size > 0.0
    requires !Fillable(books, legs[k], Product(legs[k].size, ScaleOf(legs, sizeUsd)))
    ensures !Priceable(books, legs, sizeUsd)
  {
  }

  lemma TotalsNext(books: BookTable, legs: seq<Leg>, k: nat, scale: real)
    requires k < |legs|
    ensures TotalCost(books, legs[..k + 1], scale)
            == TotalCost(books, legs[..k], scale) + BuyCost(books, legs[k], Product(legs[k].size, scale))
    ensures TotalProceeds(books, legs[..k + 1], scale)
            == TotalProceeds(books, legs[..k], scale) + SellProceeds(books, legs[k], Product(legs[k].size, scale))
  {
    assert legs[..k + 1][..k] == legs[..k];
  }

  /** A leg without a book is priced at its own price in full; with one, at what its side of the book fills. */
  lemma LegFillIs(books: BookTable, leg: Leg, size: real)
    ensures (leg.venue, leg.symbol) !in books ==>
              LegFill(books, leg, size) == (leg.price, size)
              && (Fillable(books, leg, size) <==> leg.price > 0.0 && size > 0.0)
    ensures (leg.venue, leg.symbol) in books ==>
              var book := books[(leg.venue, leg.symbol)];
              var levels := if leg.side == Buy then book.asks else book.bids;
              && (Fillable(books, leg, size) <==> Filled(levels, size) > 0.0 && Vwap(levels, size) > 0.0)
              && (Fillable(books, leg, size) ==>
                    LegFill(books, leg, size) == (Vwap(levels, size), Filled(levels, size)))
  {
    hide Filled, Books.Cost;
  }

  /** A bought leg costs its value and the fee on it; any other one brings in its value less the fee. */
  lemma LegMoney(books: BookTable, leg: Leg, size: real)
    ensures var value := LegFill(books, leg, size).0 * LegFill(books, leg, size).1;
            && BuyCost(books, leg, size) == (if leg.side == Buy then value * (1.0 + leg.fee) else 0.0)
            && SellProceeds(books, leg, size) == (if leg.side == Buy then 0.0 else value * (1.0 - leg.fee))
  {
    hide LegFill;
  }
}
