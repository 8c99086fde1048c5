/** How the re-verified profit of a buy/sell pair depends on size, and how it compares with the detected one. */
module ReverifyLaws {
  import opened Walks
  import opened Books
  import opened DepthWalk
  import opened Symbols
  import opened Reverify

  /** One side of a live book: something to fill, at positive prices. */
  ghost predicate Live(levels: seq<Level>) {
    levels != [] && NonNegative(levels) && Depth(levels) > 0.0 && forall l | l in levels :: l.price > 0.0
  }

  /** Net percentage of buying `q` from `asks` and selling `q` into `bids`. */
  function NetAt(asks: seq<Level>, bids: seq<Level>, buyFee: real, sellFee: real, q: real): real {
    var cost, proceeds := Books.Cost(asks, q), Books.Cost(bids, q);
    if cost + Product(cost, buyFee) <= 0.0 then 0.0
    else Margin(proceeds - Product(proceeds, sellFee), cost + Product(cost, buyFee))
  }

  ghost predicate Fees(buyFee: real, sellFee: real) {
    0.0 <= buyFee < 1.0 && 0.0 <= sellFee < 1.0
  }

  lemma PositiveTotals(levels: seq<Level>, q: real)
    requires Live(levels) && q > 0.0
    ensures Books.Filled(levels, q) > 0.0 && Books.Cost(levels, q) > 0.0 && Vwap(levels, q) > 0.0
    ensures Product(Vwap(levels, q), Books.Filled(levels, q)) == Books.Cost(levels, q)
  {
    FillsWhatItCan(levels, q);
    var p := LowestPrice(levels);
    CheapLevel(levels, p, q);
    var c, f := Books.Cost(levels, q), Books.Filled(levels, q);
    Quotient(c, f);
  }

  lemma Quotient(c: real, f: real)
    requires c > 0.0 && f > 0.0
    ensures c / f > 0.0 && Product(c / f, f) == c
  {
  }

  lemma {:induction false} LowestPrice(levels: seq<Level>) returns (p: real)
    requires levels != [] && forall l | l in levels :: l.price > 0.0
    ensures p > 0.0 && NotBelow(levels, p)
  {
    p := levels[0].price;
    assert levels[0] in levels && levels == [levels[0]] + levels[1..];
    if levels[1..] != [] {
      assert forall l | l in levels[1..] :: l in levels;
      var rest := LowestPrice(levels[1..]);
      p := Min(p, rest);
    }
  }

  lemma CheapLevel(levels: seq<Level>, p: real, q: real)
    requires NonNegative(levels) && Depth(levels) > 0.0 && p > 0.0 && NotBelow(levels, p) && q > 0.0
    ensures Books.Cost(levels, q) > 0.0
  {
    hide NonNegative, NotBelow, Books.Cost, Books.Filled;
    FillsWhatItCan(levels, q);
    CostOfFilled(levels, q);
    NothingLeft(levels);
    MarginalCost(levels, p, Books.Filled(levels, q), 0.0);
    PositiveProduct(Books.Filled(levels, q), p);
  }

  lemma PositiveProduct(a: real, b: real)
    requires a > 0.0 && b > 0.0
    ensures a * b > 0.0
  {
  }

  /** A live pair is priced by its two depth walks. */
  lemma PairIsNetAt(books: BookTable, buy: Leg, sell: Leg, sizeUsd: real)
    requires buy.side == Buy && sell.side == Sell && buy.size == sell.size > 0.0 && buy.price > 0.0 && sizeUsd > 0.0
    requires (buy.venue, buy.symbol) in books && (sell.venue, sell.symbol) in books
    requires Live(books[(buy.venue, buy.symbol)].asks) && Live(books[(sell.venue, sell.symbol)].bids) && buy.fee >= 0.0
    ensures var q := sizeUsd / buy.price;
            var asks, bids := books[(buy.venue, buy.symbol)].asks, books[(sell.venue, sell.symbol)].bids;
            && q > 0.0 && Priceable(books, [buy, sell], sizeUsd)
            && NetPctNow(books, [buy, sell], sizeUsd) == NetAt(asks, bids, buy.fee, sell.fee, q)
  {
    var legs, q := [buy, sell], sizeUsd / buy.price;
    var asks, bids := books[(buy.venue, buy.symbol)].asks, books[(sell.venue, sell.symbol)].bids;
    assert BuyLeg(legs) == buy;
    Quantity(sizeUsd, buy.price, buy.size);
    PositiveTotals(asks, q);
    PositiveTotals(bids, q);
    NonNegativeFee(Books.Cost(asks, q), buy.fee);
    hide Books.Cost, Books.Filled, Vwap, Live, Product;
    var scale := ScaleOf(legs, sizeUsd);
    assert LegFill(books, buy, q) == (Vwap(asks, q), Books.Filled(asks, q));
    assert LegFill(books, sell, q) == (Vwap(bids, q), Books.Filled(bids, q));
    assert legs[..0] == [] && legs[..2] == legs;
    TotalsNext(books, legs, 0, scale);
    TotalsNext(books, legs, 1, scale);
    assert TotalCost(books, [], scale) == 0.0 && TotalProceeds(books, [], scale) == 0.0;
    hide TotalCost, TotalProceeds;
    assert TotalCost(books, legs, scale) == Books.Cost(asks, q) + Product(Books.Cost(asks, q), buy.fee);
    assert TotalProceeds(books, legs, scale) == Books.Cost(bids, q) - Product(Books.Cost(bids, q), sell.fee);
  }

  lemma Quantity(sizeUsd: real, price: real, size: real)
    requires sizeUsd > 0.0 && price > 0.0 && size > 0.0
    ensures sizeUsd / price > 0.0 && Product(size, sizeUsd / price / size) == sizeUsd / price
  {
  }

  lemma NonNegativeFee(cost: real, fee: real)
    requires cost > 0.0 && fee >= 0.0
    ensures cost + Product(cost, fee) > 0.0
  {
  }

  /** Falling bids: proceeds per unit asked for never rise. */
  lemma ProceedsConcave(bids: seq<Level>, a: real, b: real)
    requires Live(bids) && Descending(bids) && 0.0 < a <= b
    ensures Product(Books.Cost(bids, b), a) <= Product(Books.Cost(bids, a), b)
  {
    PositiveTotals(bids, a);
    PositiveTotals(bids, b);
    SellingMoreEarnsLess(bids, a, b);
    FillsWhatItCan(bids, a);
    FillsWhatItCan(bids, b);
    FillRatio(a, b, Depth(bids));
    hide *;
    Concave(Vwap(bids, a), Vwap(bids, b), Books.Filled(bids, a), Books.Filled(bids, b), a, b);
  }

  lemma Concave(va: real, vb: real, fa: real, fb: real, a: real, b: real)
    requires 0.0 <= vb <= va && 0.0 <= Product(fb, a) <= Product(fa, b)
    ensures Product(Product(vb, fb), a) <= Product(Product(va, fa), b)
  {
  }

  lemma FillRatio(a: real, b: real, d: real)
    requires 0.0 < a <= b && d > 0.0
    ensures 0.0 <= Product(Min(b, d), a) <= Product(Min(a, d), b)
  {
  }

  /** Rising asks: while the book can fill the order, cost per unit never falls. */
  lemma CostConvex(asks: seq<Level>, a: real, b: real)
    requires Live(asks) && Ascending(asks) && 0.0 < a <= b <= Depth(asks)
    ensures Product(Books.Cost(asks, a), b) <= Product(Books.Cost(asks, b), a)
  {
    PositiveTotals(asks, a);
    PositiveTotals(asks, b);
    BuyingMoreCostsMore(asks, a, b);
    FillsWhatItCan(asks, a);
    FillsWhatItCan(asks, b);
    assert Books.Filled(asks, a) == a && Books.Filled(asks, b) == b;
    hide *;
    Convex(Vwap(asks, a), Vwap(asks, b), a, b);
  }

  lemma Convex(va: real, vb: real, a: real, b: real)
    requires 0.0 <= va <= vb && 0.0 < a && 0.0 < b
    ensures Product(Product(va, a), b) <= Product(Product(vb, b), a)
  {
  }

  /** Less income per unit of cost is a lower margin. */
  lemma MarginOrder(p1: real, c1: real, p2: real, c2: real)
    requires c1 > 0.0 && c2 > 0.0 && Product(p2, c1) <= Product(p1, c2)
    ensures Margin(p2, c2) <= Margin(p1, c1)
  {
  }

  lemma ScaledRatio(p1: real, c1: real, p2: real, c2: real, k: real, m: real)
    requires k > 0.0 && m > 0.0 && Product(p2, c1) <= Product(p1, c2)
    ensures Product(Product(p2, k), Product(c1, m)) <= Product(Product(p1, k), Product(c2, m))
  {
    var s := k * m;
    PositiveProduct(k, m);
    assert (p2 * k) * (c1 * m) == (p2 * c1) * s;
    assert (p1 * k) * (c2 * m) == (p1 * c2) * s;
    assert (p1 * c2 - p2 * c1) * s >= 0.0;
  }

  lemma FeeFactors(p: real, c: real, buyFee: real, sellFee: real)
    ensures p - Product(p, sellFee) == Product(p, 1.0 - sellFee) && c + Product(c, buyFee) == Product(c, 1.0 + buyFee)
  {
  }

  /** Fees scale both totals and so preserve the order of margins. */
  lemma NetOrder(p1: real, c1: real, p2: real, c2: real, buyFee: real, sellFee: real)
    requires Fees(buyFee, sellFee) && c1 > 0.0 && c2 > 0.0 && Product(p2, c1) <= Product(p1, c2)
    ensures c1 + Product(c1, buyFee) > 0.0 && c2 + Product(c2, buyFee) > 0.0
    ensures Margin(p2 - Product(p2, sellFee), c2 + Product(c2, buyFee))
            <= Margin(p1 - Product(p1, sellFee), c1 + Product(c1, buyFee))
  {
    NonNegativeFee(c1, buyFee);
    NonNegativeFee(c2, buyFee);
    hide Product, Margin;
    FeeFactors(p1, c1, buyFee, sellFee);
    FeeFactors(p2, c2, buyFee, sellFee);
    var k, m := 1.0 - sellFee, 1.0 + buyFee;
    ScaledRatio(p1, c1, p2, c2, k, m);
    MarginOrder(Product(p1, k), Product(c1, m), Product(p2, k), Product(c2, m));
  }

  lemma CrossRatios(pa: real, pb: real, ca: real, cb: real, a: real, b: real)
    requires 0.0 < a && 0.0 < b && pa >= 0.0 && pb >= 0.0 && ca >= 0.0 && cb >= 0.0
    requires Product(pb, a) <= Product(pa, b) && Product(ca, b) <= Product(cb, a)
    ensures Product(pb, ca) <= Product(pa, cb)
  {
  }

  /** While the ask side can fill the larger order, the larger order never nets more. */
  lemma LargerNetsLess(asks: seq<Level>, bids: seq<Level>, buyFee: real, sellFee: real, a: real, b: real)
    requires Live(asks) && Live(bids) && Ascending(asks) && Descending(bids) && Fees(buyFee, sellFee)
    requires 0.0 < a <= b <= Depth(asks)
    ensures NetAt(asks, bids, buyFee, sellFee, b) <= NetAt(asks, bids, buyFee, sellFee, a)
  {
    PositiveTotals(asks, a);
    PositiveTotals(asks, b);
    PositiveTotals(bids, a);
    PositiveTotals(bids, b);
    ProceedsConcave(bids, a, b);
    CostConvex(asks, a, b);
    hide Books.Cost, Books.Filled, Vwap, Live, Ascending, Descending, Depth, Product, Margin, NonNegative;
    CrossRatios(Books.Cost(bids, a), Books.Cost(bids, b), Books.Cost(asks, a), Books.Cost(asks, b), a, b);
    NetOrder(Books.Cost(bids, a), Books.Cost(asks, a), Books.Cost(bids, b), Books.Cost(asks, b), buyFee, sellFee);
  }

  /** An order beyond the displayed depth trades the depth. */
  lemma BeyondDepth(levels: seq<Level>, q: real)
    requires NonNegative(levels) && q >= Depth(levels) >= 0.0
    ensures Books.Cost(levels, q) == Books.Cost(levels, Depth(levels))
  {
    FillsWhatItCan(levels, q);
    CostOfFilled(levels, q);
  }

  lemma DeeperSide(asks: seq<Level>, bids: seq<Level>, buyFee: real, sellFee: real, a: real, b: real)
    requires Live(asks) && Live(bids) && Ascending(asks) && Descending(bids) && Fees(buyFee, sellFee)
    requires Depth(bids) <= Depth(asks) && 0.0 < a <= b
    ensures NetAt(asks, bids, buyFee, sellFee, b) <= NetAt(asks, bids, buyFee, sellFee, a)
  {
    var d := Depth(asks);
    if b <= d {
      LargerNetsLess(asks, bids, buyFee, sellFee, a, b);
    } else {
      BeyondDepth(asks, b);
      BeyondDepth(bids, b);
      BeyondDepth(bids, d);
      if a <= d {
        LargerNetsLess(asks, bids, buyFee, sellFee, a, d);
      } else {
        BeyondDepth(asks, a);
        BeyondDepth(bids, a);
      }
      hide Books.Cost, Live, Depth;
    }
  }

  /** With the buy side exhausted and the sell side not, a larger order nets more. */
  lemma ShallowerSide(asks: seq<Level>, bids: seq<Level>, buyFee: real, sellFee: real)
    requires Live(asks) && Live(bids) && Fees(buyFee, sellFee) && Depth(asks) < Depth(bids)
    ensures NetAt(asks, bids, buyFee, sellFee, Depth(asks)) < NetAt(asks, bids, buyFee, sellFee, Depth(bids))
  {
    var a, b := Depth(asks), Depth(bids);
    PositiveTotals(asks, a);
    BeyondDepth(asks, b);
    MoreProceeds(bids, a, b);
    NonNegativeFee(Books.Cost(asks, a), buyFee);
    hide Books.Cost, Live, Depth, Margin, Product;
    MoreIncome(Books.Cost(bids, a), Books.Cost(bids, b), Books.Cost(asks, a), buyFee, sellFee);
  }

  lemma MoreProceeds(bids: seq<Level>, a: real, b: real)
    requires Live(bids) && 0.0 <= a < b <= Depth(bids)
    ensures Books.Cost(bids, b) > Books.Cost(bids, a)
  {
    var p := LowestPrice(bids);
    hide Books.Cost, NonNegative, NotBelow, Depth, Notional;
    MarginalCost(bids, p, b, a);
    NotionalPositive(b - a, p);
  }

  lemma NotionalPositive(quantity: real, price: real)
    requires quantity > 0.0 && price > 0.0
    ensures Notional(quantity, price) > 0.0
  {
  }

  lemma MoreIncome(p1: real, p2: real, c: real, buyFee: real, sellFee: real)
    requires Fees(buyFee, sellFee) && p1 < p2 && c + Product(c, buyFee) > 0.0
    ensures Margin(p1 - Product(p1, sellFee), c + Product(c, buyFee))
            < Margin(p2 - Product(p2, sellFee), c + Product(c, buyFee))
  {
    var k, d := 1.0 - sellFee, c + Product(c, buyFee);
    PositiveProduct(p2 - p1, k);
    var x, y := p1 - Product(p1, sellFee), p2 - Product(p2, sellFee);
    assert y - x == (p2 - p1) * k;
    LargerShare(x, y, d);
  }

  lemma LargerShare(x: real, y: real, d: real)
    requires x < y && d > 0.0
    ensures Margin(x, d) < Margin(y, d)
  {
  }

  /**
   * The re-verified profit falls with size over all sizes exactly when the sell book is no deeper than the buy
   * book.
   */
  lemma SizeMonotoneIffDepth(asks: seq<Level>, bids: seq<Level>, buyFee: real, sellFee: real)
    requires Live(asks) && Live(bids) && Ascending(asks) && Descending(bids) && Fees(buyFee, sellFee)
    ensures (forall a: real, b: real | 0.0 < a <= b ::
               NetAt(asks, bids, buyFee, sellFee, b) <= NetAt(asks, bids, buyFee, sellFee, a))
            <==> Depth(bids) <= Depth(asks)
  {
    hide NetAt, Books.Cost, Ascending, Descending, NonNegative;
    if Depth(bids) <= Depth(asks) {
      forall a: real, b: real | 0.0 < a <= b
        ensures NetAt(asks, bids, buyFee, sellFee, b) <= NetAt(asks, bids, buyFee, sellFee, a) {
        DeeperSide(asks, bids, buyFee, sellFee, a, b);
      }
    } else {
      ShallowerSide(asks, bids, buyFee, sellFee);
    }
  }

  /** What the detector stamps on a pair at the top of the book. */
  function DetectedPct(ask: real, bid: real, buyFee: real, sellFee: real): real
    requires ask > 0.0
  {
    (bid - ask) / ask * 100.0 - (buyFee + sellFee) * 100.0
  }

  /** Top-of-book ratio with multiplied fees stays below the detector's subtracted fees once it shows a profit. */
  lemma FeesCompound(p: real, c: real, ask: real, bid: real, buyFee: real, sellFee: real)
    requires Fees(buyFee, sellFee) && p > 0.0 && c > 0.0 && ask > 0.0 && bid > 0.0 && Product(p, ask) <= Product(bid, c)
    ensures c + Product(c, buyFee) > 0.0
    ensures var net := Margin(p - Product(p, sellFee), c + Product(c, buyFee));
            net > 0.0 ==> net <= DetectedPct(ask, bid, buyFee, sellFee)
  {
    NonNegativeFee(c, buyFee);
    NonNegativeFee(ask, buyFee);
    NetOrder(bid, ask, p, c, buyFee, sellFee);
    TopOfBook(ask, bid, buyFee, sellFee);
  }

  lemma TopOfBook(ask: real, bid: real, buyFee: real, sellFee: real)
    requires Fees(buyFee, sellFee) && ask > 0.0 && bid > 0.0 && ask + Product(ask, buyFee) > 0.0
    ensures var net := Margin(bid - Product(bid, sellFee), ask + Product(ask, buyFee));
            net > 0.0 ==> net <= DetectedPct(ask, bid, buyFee, sellFee)
  {
    var m, k, r := 1.0 + buyFee, 1.0 - sellFee, bid / ask;
    assert r * ask == bid;
    var y := (bid - Product(bid, sellFee) - (ask + Product(ask, buyFee))) / (ask + Product(ask, buyFee));
    assert bid - Product(bid, sellFee) == bid * k && ask + Product(ask, buyFee) == ask * m;
    assert y * (ask * m) == bid * k - ask * m;
    assert (y * m) * ask == (r * k - m) * ask;
    SameFactor(y * m, r * k - m, ask);
    assert (bid - ask) / ask == r - 1.0 by { SameFactor((bid - ask) / ask, r - 1.0, ask); }
    if y > 0.0 {
      PositiveProduct(y, m);
      assert r * k == r - r * sellFee;
      Quotient(bid, ask);
      DepthWalk.Ordered(r, k, 1.0);
      assert m < r * k <= r;
      var f := buyFee + sellFee;
      Surplus(r, m, k, y, f, buyFee);
    }
  }

  lemma SameFactor(x: real, y: real, d: real)
    requires d != 0.0 && x * d == y * d
    ensures x == y
  {
  }

  lemma Surplus(r: real, m: real, k: real, y: real, f: real, buyFee: real)
    requires m == 1.0 + buyFee && k == 1.0 + buyFee - f && m > 0.0 && f >= 0.0 && r >= m && y * m == r * k - m
    ensures y <= r - 1.0 - f
  {
    var gap := r - 1.0 - f - y;
    assert gap * m == (r - 1.0 - f) * m - (r * k - m);
    assert (r - 1.0 - f) * m == r * m - m - f * m;
    assert r * m - r * k == r * f;
    assert gap * m == (r - m) * f;
    assert (r - m) * f >= 0.0;
    if gap < 0.0 {
      PositiveProduct(-gap, m);
      assert false;
    }
  }

  /**
   * On an unchanged book a positive re-verified profit never exceeds the detected one, if the buy side fills
   * as much as the sell side.
   */
  lemma NeverAboveDetected(asks: seq<Level>, bids: seq<Level>, buyFee: real, sellFee: real, q: real)
    requires Live(asks) && Live(bids) && Ascending(asks) && Descending(bids) && Fees(buyFee, sellFee)
    requires q > 0.0 && Books.Filled(bids, q) <= Books.Filled(asks, q)
    ensures asks[0].price > 0.0
    ensures NetAt(asks, bids, buyFee, sellFee, q) > 0.0
            ==> NetAt(asks, bids, buyFee, sellFee, q) <= DetectedPct(asks[0].price, bids[0].price, buyFee, sellFee)
  {
    var ask, bid := asks[0].price, bids[0].price;
    assert asks[0] in asks && bids[0] in bids;
    PositiveTotals(asks, q);
    PositiveTotals(bids, q);
    NoBetterThanTop(asks, q);
    NoBetterThanTop(bids, q);
    var va, vb, fa, fb := Vwap(asks, q), Vwap(bids, q), Books.Filled(asks, q), Books.Filled(bids, q);
    TopRatio(va, vb, fa, fb, ask, bid);
    hide Books.Cost, Books.Filled, Vwap, Live, Ascending, Descending, Margin, Product, DetectedPct;
    FeesCompound(Books.Cost(bids, q), Books.Cost(asks, q), ask, bid, buyFee, sellFee);
  }

  /** Within both first levels the net percentage is the price gap less the fees, compounded. */
  lemma NetAtTop(asks: seq<Level>, bids: seq<Level>, buyFee: real, sellFee: real, q: real, gross: real)
    requires asks != [] && bids != [] && asks[0].price > 0.0 && 0.0 < q <= asks[0].size && q <= bids[0].size
    requires Fees(buyFee, sellFee) && Product(gross, asks[0].price) == (bids[0].price - asks[0].price) * 100.0
    ensures Product(1.0 + buyFee, NetAt(asks, bids, buyFee, sellFee, q))
            == gross - (buyFee + sellFee) * 100.0 - Product(sellFee, gross)
  {
    WithinFirst(asks, q);
    WithinFirst(bids, q);
    hide Books.Cost, Filled, Vwap, NetAt, Margin, Product, Notional;
    var cost, proceeds := Books.Cost(asks, q), Books.Cost(bids, q);
    GapOf(q, asks[0].price, bids[0].price, gross);
    NetIs(asks, bids, buyFee, sellFee, q);
    MarginTimes(proceeds - Product(proceeds, sellFee), cost + Product(cost, buyFee));
    FeeFactors(proceeds, cost, buyFee, sellFee);
    Compounded(proceeds, cost, gross, NetAt(asks, bids, buyFee, sellFee, q), buyFee, sellFee);
  }

  lemma NetIs(asks: seq<Level>, bids: seq<Level>, buyFee: real, sellFee: real, q: real)
    requires Books.Cost(asks, q) > 0.0 && buyFee >= 0.0
    ensures var cost, proceeds := Books.Cost(asks, q), Books.Cost(bids, q);
            && cost + Product(cost, buyFee) > 0.0
            && NetAt(asks, bids, buyFee, sellFee, q)
               == Margin(proceeds - Product(proceeds, sellFee), cost + Product(cost, buyFee))
  {
    NonNegativeFee(Books.Cost(asks, q), buyFee);
  }

  lemma GapOf(q: real, ask: real, bid: real, gross: real)
    requires q > 0.0 && ask > 0.0 && Product(gross, ask) == (bid - ask) * 100.0
    ensures Notional(q, ask) > 0.0
    ensures Product(gross, Notional(q, ask)) == (Notional(q, bid) - Notional(q, ask)) * 100.0
  {
    assert gross * (q * ask) == q * (gross * ask);
  }

  lemma MarginTimes(proceeds: real, cost: real)
    requires cost > 0.0
    ensures Product(Margin(proceeds, cost), cost) == (proceeds - cost) * 100.0
  {
  }

  lemma Compounded(p: real, c: real, gross: real, net: real, buyFee: real, sellFee: real)
    requires c > 0.0 && Product(gross, c) == (p - c) * 100.0
    requires Product(net, Product(c, 1.0 + buyFee)) == (Product(p, 1.0 - sellFee) - Product(c, 1.0 + buyFee)) * 100.0
    ensures Product(1.0 + buyFee, net) == gross - (buyFee + sellFee) * 100.0 - Product(sellFee, gross)
  {
    var m, k := 1.0 + buyFee, 1.0 - sellFee;
    var rhs := gross - (buyFee + sellFee) * 100.0 - sellFee * gross;
    assert m * net * c == (p * k - c * m) * 100.0;
    assert p * 100.0 == c * (gross + 100.0);
    assert p * k * 100.0 == c * (gross + 100.0) * k;
    assert rhs == (gross + 100.0) * k - 100.0 * m;
    assert rhs * c == c * (gross + 100.0) * k - c * m * 100.0;
    SameFactor(m * net, rhs, c);
  }

  /** With a deeper sell side the re-verified profit can exceed the detected one: the bought part sets the cost. */
  lemma AboveDetected()
    ensures var asks, bids := [Level(1.0, 1.0)], [Level(1.5, 10.0)];
            && Live(asks) && Live(bids) && Ascending(asks) && Descending(bids)
            && Books.Filled(asks, 10.0) == 1.0 < Books.Filled(bids, 10.0) == 10.0
            && NetAt(asks, bids, 0.0, 0.0, 10.0) == 1400.0 > DetectedPct(1.0, 1.5, 0.0, 0.0) == 50.0
  {
    OneLevel(1.0, 1.0, 10.0);
    OneLevel(1.5, 10.0, 10.0);
    assert Depth([Level(1.0, 1.0)]) == 1.0 && Depth([Level(1.5, 10.0)]) == 10.0;
  }

  lemma OneLevel(price: real, size: real, q: real)
    requires q > 0.0 && size > 0.0
    ensures Depth([Level(price, size)]) == size
    ensures Books.Filled([Level(price, size)], q) == Min(q, size)
    ensures Books.Cost([Level(price, size)], q) == Notional(Min(q, size), price)
  {
  }

  lemma TopRatio(va: real, vb: real, fa: real, fb: real, ask: real, bid: real)
    requires 0.0 < ask <= va && 0.0 < vb <= bid && 0.0 < fb <= fa
    ensures Product(Product(vb, fb), ask) <= Product(bid, Product(va, fa))
  {
  }
}
