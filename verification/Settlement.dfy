/** What one settled buy/sell pair does to holdings across venues, and what its re-verified profit can be. */
module Settlement {
  import opened Collections
  import opened Walks
  import opened Symbols
  import opened Books
  import opened DepthWalk
  import opened Inventory
  import opened Routing
  import opened Reverify
  import opened ReverifyLaws
  import opened CrossVenue

  /**
   * A pair that buys and sells the same quantity keeps the base and moves the quote by the price difference;
   * nothing else moves.
   */
  lemma PairConserves(symbol: string, buyVenue: string, sellVenue: string, buyPrice: real, sellPrice: real, size: real,
                      buyFee: real, sellFee: real, asset: string)
    requires IsPair(symbol) && Base(symbol) != Quote(symbol)
    requires buyPrice > 0.0 && sellPrice > 0.0 && size > 0.0
    ensures var legs := [Leg(buyVenue, symbol, Buy, buyPrice, size, buyFee),
                         Leg(sellVenue, symbol, Sell, sellPrice, size, sellFee)];
            && Needs(legs) != []
            && CreditsOf(legs, asset) - SumOf(Needs(legs), asset)
               == if asset == Quote(symbol) then size * (sellPrice - buyPrice) else 0.0
  {
    var buy, sell := Leg(buyVenue, symbol, Buy, buyPrice, size, buyFee),
        Leg(sellVenue, symbol, Sell, sellPrice, size, sellFee);
    PositiveProduct(buyPrice, size);
    PositiveProduct(sellPrice, size);
    assert LegAmount(buy) == Product(buyPrice, size) && LegAmount(sell) == size;
    assert LegAsset(symbol, Buy) == Quote(symbol) && LegAsset(symbol, Sell) == Base(symbol);
    assert LegCredit(buy) == Some(((buyVenue, Base(symbol)), size))
           && LegCredit(sell) == Some(((sellVenue, Quote(symbol)), Product(sellPrice, size)));
    assert Product(sellPrice, size) - Product(buyPrice, size) == size * (sellPrice - buyPrice);
    hide LegAmount, LegAsset, LegCredit, Base, Quote, IsPair;
    NeedsOfTwo(buy, sell, asset);
    CreditsOfTwo(buy, sell, asset);
  }

  /**
   * A leg that is not a spot trade receives nothing; off a pair it spends its symbol, as a transfer of one its
   * base.
   */
  lemma OtherLegs(leg: Leg)
    requires '/' !in leg.symbol || leg.side == Transfer
    ensures CreditAll(Dict([], map[]), [leg]) == Dict([], map[])
    ensures Needs([leg]) == var amount := if leg.side == Buy then leg.price * leg.size else leg.size;
                            if amount <= 0.0 then [] else
                              [Reservation((leg.venue, if '/' in leg.symbol then Base(leg.symbol) else leg.symbol),
                                           amount)]
  {
    var r := Reservation((leg.venue, LegAsset(leg.symbol, leg.side)), LegAmount(leg));
    assert LegCredit(leg) == None;
    assert r.amount == if leg.side == Buy then leg.price * leg.size else leg.size;
    assert r.slot.1 == if '/' in leg.symbol then Base(leg.symbol) else leg.symbol;
    hide LegCredit, LegAmount, LegAsset, Base, Quote, IsPair;
    NeedsOfOne(leg);
    assert [leg][..0] == [] && CreditAll(Dict([], map[]), []) == Dict([], map[]);
  }

  lemma NeedsOfOne(leg: Leg)
    ensures Needs([leg]) == if LegAmount(leg) <= 0.0 then []
                            else [Reservation((leg.venue, LegAsset(leg.symbol, leg.side)), LegAmount(leg))]
  {
    hide LegAmount, LegAsset;
    assert [leg][..0] == [] && Needs([]) == [];
  }

  lemma NeedsOfTwo(a: Leg, b: Leg, asset: string)
    requires LegAmount(a) > 0.0 && LegAmount(b) > 0.0
    ensures Needs([a, b]) != []
    ensures SumOf(Needs([a, b]), asset)
            == (if LegAsset(a.symbol, a.side) == asset then LegAmount(a) else 0.0)
                + (if LegAsset(b.symbol, b.side) == asset then LegAmount(b) else 0.0)
  {
    hide LegAmount, LegAsset;
    var r, s := Reservation((a.venue, LegAsset(a.symbol, a.side)), LegAmount(a)),
        Reservation((b.venue, LegAsset(b.symbol, b.side)), LegAmount(b));
    assert [a, b][..1] == [a] && [a][..0] == [];
    assert Needs([a]) == [r] && Needs([a, b]) == [r, s];
    assert [r, s][..1] == [r] && [r][..0] == [];
    assert SumOf([r, s], asset) == SumOf([r], asset) + (if s.slot.1 == asset then s.amount else 0.0);
    assert SumOf([r], asset) == if r.slot.1 == asset then r.amount else 0.0;
  }

  lemma CreditsOfTwo(a: Leg, b: Leg, asset: string)
    requires LegCredit(a).Some? && LegCredit(b).Some? && LegCredit(a).value.1 > 0.0 && LegCredit(b).value.1 > 0.0
    ensures CreditsOf([a, b], asset)
            == (if LegCredit(a).value.0.1 == asset then LegCredit(a).value.1 else 0.0)
                + (if LegCredit(b).value.0.1 == asset then LegCredit(b).value.1 else 0.0)
  {
    hide LegCredit;
    assert [a, b][..1] == [a] && [a][..0] == [];
    assert CreditsOf([a], asset) == if LegCredit(a).value.0.1 == asset then LegCredit(a).value.1 else 0.0;
  }

  /** The books a market's top of book was read from. */
  ghost predicate ReadFrom(m: Market, books: BookTable, i: nat, j: nat)
    requires m.Valid() && i < |m.venues| && j < |m.venues|
  {
    && (m.venues[i], m.symbol) in books && (m.venues[j], m.symbol) in books
    && var asks, bids := books[(m.venues[i], m.symbol)].asks, books[(m.venues[j], m.symbol)].bids;
       && Live(asks) && Live(bids) && Ascending(asks) && Descending(bids)
       && asks[0].price == m.asks[i] && bids[0].price == m.bids[j]
  }

  /**
   * Re-verifying a cross-venue finding on the books it was found on never shows more profit than was reported,
   * at any size both books can fill.
   */
  lemma FindingNotUnderstated(m: Market, c: Config, books: BookTable, i: nat, j: nat, sizeUsd: real)
    requires m.Valid() && Hit(m, c, i, j) && ReadFrom(m, books, i, j)
    requires Fees(m.fees[i], m.fees[j]) && sizeUsd > 0.0
    requires var q := sizeUsd / m.asks[i];
             Filled(books[(m.venues[j], m.symbol)].bids, q) <= Filled(books[(m.venues[i], m.symbol)].asks, q)
    ensures var o := Found(m, c, i, j);
            && Priceable(books, o.legs, sizeUsd)
            && (NetPctNow(books, o.legs, sizeUsd) > 0.0 ==> NetPctNow(books, o.legs, sizeUsd) <= o.netProfitPct)
  {
    var o := Found(m, c, i, j);
    var buy, sell := o.legs[0], o.legs[1];
    assert o.legs == [buy, sell];
    PositiveSize(SizeUsd(m, c, i, j), m.asks[i]);
    hide Books.Cost, Filled, Live, NetPctNow, Priceable, NetAt, SizeUsd, Ascending, Descending;
    PairIsNetAt(books, buy, sell, sizeUsd);
    var asks, bids := books[(m.venues[i], m.symbol)].asks, books[(m.venues[j], m.symbol)].bids;
    NeverAboveDetected(asks, bids, m.fees[i], m.fees[j], sizeUsd / m.asks[i]);
  }

  /**
   * Within both first levels the reported edge differs from the re-verified one by exactly the compounding of
   * the fees; without fees they are equal.
   */
  lemma FindingExactAtTop(m: Market, c: Config, books: BookTable, i: nat, j: nat, sizeUsd: real)
    requires m.Valid() && Hit(m, c, i, j) && ReadFrom(m, books, i, j)
    requires Fees(m.fees[i], m.fees[j]) && sizeUsd > 0.0
    requires var q := sizeUsd / m.asks[i];
             q <= books[(m.venues[i], m.symbol)].asks[0].size && q <= books[(m.venues[j], m.symbol)].bids[0].size
    ensures var o := Found(m, c, i, j);
            && Priceable(books, o.legs, sizeUsd)
            && Product(o.grossProfitPct, m.asks[i]) == (m.bids[j] - m.asks[i]) * 100.0
            && Product(1.0 + m.fees[i], NetPctNow(books, o.legs, sizeUsd))
               == o.netProfitPct - Product(m.fees[j], o.grossProfitPct)
            && (m.fees[i] == m.fees[j] == 0.0 ==> NetPctNow(books, o.legs, sizeUsd) == o.netProfitPct)
  {
    var o := Found(m, c, i, j);
    var buy, sell := o.legs[0], o.legs[1];
    assert o.legs == [buy, sell];
    PositiveSize(SizeUsd(m, c, i, j), m.asks[i]);
    PositiveSize(sizeUsd, m.asks[i]);
    var q, asks, bids := sizeUsd / m.asks[i], books[(m.venues[i], m.symbol)].asks, books[(m.venues[j], m.symbol)].bids;
    GrossIs(m.bids[j], m.asks[i]);
    hide Books.Cost, Filled, Live, NetPctNow, Priceable, SizeUsd, Ascending, Descending, Vwap, NetAt, GrossPct, Product;
    PairIsNetAt(books, buy, sell, sizeUsd);
    NetAtTop(asks, bids, m.fees[i], m.fees[j], q, o.grossProfitPct);
    WithoutFees(NetPctNow(books, o.legs, sizeUsd), o.grossProfitPct);
  }

  lemma WithoutFees(net: real, gross: real)
    ensures Product(1.0 + 0.0, net) == net && Product(0.0, gross) == 0.0
  {
  }

  lemma GrossIs(bid: real, ask: real)
    requires ask > 0.0
    ensures Product((bid - ask) / ask * 100.0, ask) == (bid - ask) * 100.0
  {
  }

  lemma PositiveSize(size: real, price: real)
    requires size > 0.0 && price > 0.0
    ensures size / price > 0.0
  {
  }
}
