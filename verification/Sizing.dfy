/** Exactly when a route is sized, and at how much, in terms of its buy leg's depth walk. */
module Sizing {
  import opened Walks
  import opened Books
  import opened DepthWalk
  import opened Symbols
  import opened RiskLedger
  import opened Reverify
  import opened ReverifyLaws
  import opened Risk

  /** Every leg's venue takes an order of this size; a venue without an entry asks for ten dollars. */
  ghost predicate TakenEverywhere(minimums: map<string, real>, legs: seq<Leg>, sizeUsd: real) {
    forall k | 0 <= k < |legs| ::
      sizeUsd >= if legs[k].venue in minimums then minimums[legs[k].venue] else 10.0
  }

  lemma MinimumsMean(minimums: map<string, real>, legs: seq<Leg>, sizeUsd: real)
    ensures ClearsMinimums(minimums, legs, sizeUsd) <==> TakenEverywhere(minimums, legs, sizeUsd)
  {
    if TakenEverywhere(minimums, legs, sizeUsd) {
      forall l | l in legs ensures sizeUsd >= MinOrder(minimums, l.venue) {
        var k :| 0 <= k < |legs| && legs[k] == l;
      }
    }
  }

  /**
   * On a live book a size is given exactly when it is the proposal or what the walk for the proposal costs,
   * whichever is less, the walk costs no more than the leg's price and the slippage allow, and every venue
   * takes it.
   */
  lemma SizeIff(limits: Limits, o: Opportunity, books: BookTable, minimums: map<string, real>, maxSlippagePct: real,
                size: real)
    requires o.legs != [] && BuyLeg(o.legs).price > 0.0 && size > 0.0
    requires var leg := BuyLeg(o.legs);
             (leg.venue, leg.symbol) in books && Live(books[(leg.venue, leg.symbol)].asks)
    ensures var leg, proposed := BuyLeg(o.legs), Min(o.maxSizeUsd, limits.maxNotionalPerTradeUsd);
            var asks, q := books[(leg.venue, leg.symbol)].asks, proposed / leg.price;
            SizeFor(limits, o, books, minimums, maxSlippagePct) == size <==>
            && proposed > 0.0 && size == Min(proposed, Books.Cost(asks, q))
            && 100.0 * (Books.Cost(asks, q) - Product(leg.price, Filled(asks, q)))
               <= Product(maxSlippagePct, Product(leg.price, Filled(asks, q)))
            && TakenEverywhere(minimums, o.legs, size)
  {
    var leg, proposed := BuyLeg(o.legs), Min(o.maxSizeUsd, limits.maxNotionalPerTradeUsd);
    var asks, q := books[(leg.venue, leg.symbol)].asks, proposed / leg.price;
    SignOfQuotient(proposed, leg.price);
    SizeUnfolds(limits, o, books, minimums, maxSlippagePct);
    hide *;
    if proposed > 0.0 {
      PositiveTotals(asks, q);
      SlippageMeans(Books.Cost(asks, q), Filled(asks, q), leg.price, maxSlippagePct);
      VwapIs(asks, q);
      ProductCommutes(Filled(asks, q), Vwap(asks, q));
      AboveMeans(minimums, o.legs, Min(proposed, Books.Cost(asks, q)), size);
    } else {
      NothingFilled(asks, q);
    }
  }

  /** The size as the code computes it from the walk. */
  lemma SizeUnfolds(limits: Limits, o: Opportunity, books: BookTable, minimums: map<string, real>, maxSlippagePct: real)
    requires o.legs != [] && BuyLeg(o.legs).price > 0.0
    requires (BuyLeg(o.legs).venue, BuyLeg(o.legs).symbol) in books
    ensures var leg, proposed := BuyLeg(o.legs), Min(o.maxSizeUsd, limits.maxNotionalPerTradeUsd);
            var asks, q := books[(leg.venue, leg.symbol)].asks, proposed / leg.price;
            SizeFor(limits, o, books, minimums, maxSlippagePct)
            == if Filled(asks, q) <= 0.0 || Vwap(asks, q) <= 0.0
                || SlippagePct(Vwap(asks, q), leg.price) > maxSlippagePct
               then 0.0 else AboveMinimums(minimums, o.legs, Min(proposed, Product(Filled(asks, q), Vwap(asks, q))))
  {
    hide BuyLeg, Filled, Vwap, SlippagePct, AboveMinimums, Product, Min;
  }

  lemma VwapIs(levels: seq<Level>, q: real)
    requires Filled(levels, q) > 0.0
    ensures Vwap(levels, q) == Books.Cost(levels, q) / Filled(levels, q)
  {
  }

  lemma ProductCommutes(a: real, b: real)
    ensures Product(a, b) == Product(b, a)
  {
  }

  lemma AboveMeans(minimums: map<string, real>, legs: seq<Leg>, sizeUsd: real, size: real)
    requires size > 0.0
    ensures AboveMinimums(minimums, legs, sizeUsd) == size <==> sizeUsd == size && TakenEverywhere(minimums, legs, size)
  {
    MinimumsMean(minimums, legs, sizeUsd);
    hide ClearsMinimums, TakenEverywhere;
  }

  lemma SignOfQuotient(x: real, d: real)
    requires d > 0.0
    ensures x / d > 0.0 <==> x > 0.0
  {
  }

  lemma NothingFilled(levels: seq<Level>, q: real)
    requires Live(levels) && q <= 0.0
    ensures Filled(levels, q) <= 0.0
  {
    assert levels[0] in levels;
  }

  lemma SlippageMeans(cost: real, filled: real, price: real, maxSlippagePct: real)
    requires filled > 0.0 && price > 0.0
    ensures SlippagePct(cost / filled, price) <= maxSlippagePct
            <==> 100.0 * (cost - Product(price, filled)) <= Product(maxSlippagePct, Product(price, filled))
  {
    var v, pf := cost / filled, price * filled;
    assert v * filled == cost;
    PositiveProduct(price, filled);
    var s := (v - price) / price;
    assert s * price == v - price;
    assert s * pf == (s * price) * filled == cost - pf;
    assert (s * 100.0) * pf == 100.0 * (cost - pf);
    SameOrder(s * 100.0, maxSlippagePct, pf);
  }

  lemma SameOrder(x: real, y: real, k: real)
    requires k > 0.0
    ensures x <= y <==> x * k <= y * k
  {
  }

  /** Without a book for the buy leg the whole proposal is the size, if every venue takes it. */
  lemma SizeWithoutBook(limits: Limits, o: Opportunity, books: BookTable, minimums: map<string, real>,
                        maxSlippagePct: real, size: real)
    requires o.legs != [] && BuyLeg(o.legs).price > 0.0 && size > 0.0
    requires (BuyLeg(o.legs).venue, BuyLeg(o.legs).symbol) !in books
    ensures SizeFor(limits, o, books, minimums, maxSlippagePct) == size
            <==> size == Min(o.maxSizeUsd, limits.maxNotionalPerTradeUsd) && TakenEverywhere(minimums, o.legs, size)
  {
    MinimumsMean(minimums, o.legs, size);
    hide BuyLeg, ClearsMinimums, TakenEverywhere;
  }

  /** A proposal that the first ask fills at the leg's price is sized whole, unless a venue declines it. */
  lemma SizedWhole(limits: Limits, o: Opportunity, books: BookTable, minimums: map<string, real>, maxSlippagePct: real)
    requires o.legs != [] && BuyLeg(o.legs).price > 0.0 && maxSlippagePct >= 0.0
    requires var leg := BuyLeg(o.legs);
             (leg.venue, leg.symbol) in books && Live(books[(leg.venue, leg.symbol)].asks)
    requires var leg, proposed := BuyLeg(o.legs), Min(o.maxSizeUsd, limits.maxNotionalPerTradeUsd);
             var first := books[(leg.venue, leg.symbol)].asks[0];
             first.price == leg.price && 0.0 < proposed <= Product(first.size, leg.price)
    ensures var proposed := Min(o.maxSizeUsd, limits.maxNotionalPerTradeUsd);
            SizeFor(limits, o, books, minimums, maxSlippagePct)
            == if TakenEverywhere(minimums, o.legs, proposed) then proposed else 0.0
  {
    var leg, proposed := BuyLeg(o.legs), Min(o.maxSizeUsd, limits.maxNotionalPerTradeUsd);
    var asks, q := books[(leg.venue, leg.symbol)].asks, proposed / leg.price;
    Fraction(proposed, leg.price, asks[0].size);
    WithinFirst(asks, q);
    hide Books.Cost, Filled, Live, Vwap;
    assert SlippagePct(Vwap(asks, q), leg.price) == 0.0;
    MinimumsMean(minimums, o.legs, proposed);
  }

  lemma Fraction(x: real, price: real, size: real)
    requires price > 0.0 && 0.0 < x <= Product(size, price)
    ensures 0.0 < x / price <= size && Product(x / price, price) == x
  {
    SameOrder(x / price, size, price);
  }
}
