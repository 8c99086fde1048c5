/** The venue-pair comparison behind `cross_exchange` and `latency_arb`, and how their findings overlap. */
module CrossVenue {
  import opened Collections
  import opened Sorting
  import opened Walks
  import opened Books
  import opened Symbols
  import opened Routes

  /** One symbol's top of book across venues, with each venue's fee. */
  datatype Market = Market(symbol: string, venues: seq<string>, bids: seq<real>, asks: seq<real>,
                           bidSizes: seq<real>, askSizes: seq<real>, stamps: seq<real>, fees: seq<real>) {
    ghost predicate Valid() {
      && |bids| == |venues| && |asks| == |venues| && |bidSizes| == |venues| && |askSizes| == |venues|
      && |stamps| == |venues| && |fees| == |venues|
      && Distinct(venues) && forall i | 0 <= i < |asks| :: asks[i] > 0.0
    }
  }

  /** A strategy's parameters; `latency_arb` is the one with a minimum lag. */
  datatype Config = Config(strategy: string, minProfitPct: real, maxTradeUsd: real, minLagSec: Option<real>)

  function GrossPct(m: Market, i: nat, j: nat): real
    requires m.Valid() && i < |m.venues| && j < |m.venues|
  {
    (m.bids[j] - m.asks[i]) / m.asks[i] * 100.0
  }

  function NetPct(m: Market, i: nat, j: nat): real
    requires m.Valid() && i < |m.venues| && j < |m.venues|
  {
    GrossPct(m, i, j) - (m.fees[i] + m.fees[j]) * 100.0
  }

  function SizeUsd(m: Market, c: Config, i: nat, j: nat): real
    requires m.Valid() && i < |m.venues| && j < |m.venues|
  {
    Min(Min(m.askSizes[i], m.bidSizes[j]) * m.asks[i], c.maxTradeUsd)
  }

  /** Buying on venue `i` and selling on venue `j` clears the strategy's bar. */
  predicate Hit(m: Market, c: Config, i: nat, j: nat)
    requires m.Valid()
  {
    && i < |m.venues| && j < |m.venues| && i != j
    && NetPct(m, i, j) >= c.minProfitPct
    && (c.minLagSec.Some? ==> m.stamps[j] - m.stamps[i] >= c.minLagSec.value)
    && SizeUsd(m, c, i, j) > 0.0
  }

  function Found(m: Market, c: Config, i: nat, j: nat): Opportunity
    requires m.Valid() && i < |m.venues| && j < |m.venues|
  {
    var size := SizeUsd(m, c, i, j);
    Opportunity(c.strategy, m.symbol,
                [Leg(m.venues[i], m.symbol, Buy, m.asks[i], size / m.asks[i], m.fees[i]),
                 Leg(m.venues[j], m.symbol, Sell, m.bids[j], size / m.asks[i], m.fees[j])],
                GrossPct(m, i, j), NetPct(m, i, j), size)
  }

  /**
   * A hit in plain terms: different venues, a price gap in per cent of the ask that covers both fees and the
   * bar, something to trade on both sides, and the lag if one is asked for.
   */
  lemma HitIff(m: Market, c: Config, i: nat, j: nat)
    requires m.Valid() && i < |m.venues| && j < |m.venues|
    ensures Hit(m, c, i, j) <==>
            && i != j
            && (m.bids[j] - m.asks[i]) * 100.0 >= (c.minProfitPct + (m.fees[i] + m.fees[j]) * 100.0) * m.asks[i]
            && m.askSizes[i] > 0.0 && m.bidSizes[j] > 0.0 && c.maxTradeUsd > 0.0
            && (c.minLagSec == None || m.stamps[j] - m.stamps[i] >= c.minLagSec.value)
  {
    PctAtLeast(m.bids[j], m.asks[i], (m.fees[i] + m.fees[j]) * 100.0, c.minProfitPct);
    SignOfSize(Min(m.askSizes[i], m.bidSizes[j]), m.asks[i]);
  }

  lemma PctAtLeast(bid: real, ask: real, fees: real, bar: real)
    requires ask > 0.0
    ensures (bid - ask) / ask * 100.0 - fees >= bar <==> (bid - ask) * 100.0 >= (bar + fees) * ask
  {
    var g := (bid - ask) / ask;
    assert g * ask == bid - ask;
    assert (g * 100.0) * ask == (bid - ask) * 100.0;
    SameOrder(g * 100.0, bar + fees, ask);
  }

  lemma SameOrder(x: real, y: real, k: real)
    requires k > 0.0
    ensures x >= y <==> x * k >= y * k
  {
  }

  lemma SignOfSize(units: real, ask: real)
    requires ask > 0.0
    ensures units * ask > 0.0 <==> units > 0.0
  {
  }

  /**
   * A finding trades one quantity on both legs: no more than either level shows, worth no more than the cap, and as
   * much as these allow.
   */
  lemma FoundSize(m: Market, c: Config, i: nat, j: nat)
    requires m.Valid() && i < |m.venues| && j < |m.venues| && Hit(m, c, i, j)
    ensures var o := Found(m, c, i, j);
            var quantity := o.legs[0].size;
            && o.strategy == c.strategy && o.symbol == m.symbol
            && o.legs[0].price == m.asks[i] && o.legs[1].price == m.bids[j]
            && o.legs[1].size == quantity > 0.0 && quantity * m.asks[i] == o.maxSizeUsd
            && quantity <= m.askSizes[i] && quantity <= m.bidSizes[j] && o.maxSizeUsd <= c.maxTradeUsd
            && (quantity == m.askSizes[i] || quantity == m.bidSizes[j] || o.maxSizeUsd == c.maxTradeUsd)
  {
    Quantities(Min(m.askSizes[i], m.bidSizes[j]), m.asks[i], c.maxTradeUsd);
  }

  lemma Quantities(units: real, ask: real, cap: real)
    requires ask > 0.0 && Min(units * ask, cap) > 0.0
    ensures var quantity := Min(units * ask, cap) / ask;
            && 0.0 < quantity <= units && quantity * ask == Min(units * ask, cap)
            && (quantity == units || quantity * ask == cap)
  {
    var quantity := Min(units * ask, cap) / ask;
    assert quantity * ask == Min(units * ask, cap);
    SameOrder(units, quantity, ask);
    SameOrder(quantity, units, ask);
  }

  lemma PairMultiset(buy: Hop, sell: Hop, buy': Hop, sell': Hop)
    requires buy.2 == Buy && buy'.2 == Buy && sell.2 == Sell && sell'.2 == Sell
    ensures multiset([buy, sell]) == multiset([buy', sell']) <==> buy == buy' && sell == sell'
  {
  }

  /** The route of a finding names its symbol, its buy venue and its sell venue. */
  lemma RouteNamesPair(m: Market, c: Config, i: nat, j: nat, m': Market, c': Config, i': nat, j': nat)
    requires m.Valid() && i < |m.venues| && j < |m.venues| && m'.Valid() && i' < |m'.venues| && j' < |m'.venues|
    ensures RouteKey(Found(m, c, i, j)) == RouteKey(Found(m', c', i', j'))
            <==> m.symbol == m'.symbol && m.venues[i] == m'.venues[i'] && m.venues[j] == m'.venues[j']
  {
    hide *;
    FoundHops(m, c, i, j);
    FoundHops(m', c', i', j');
    KeyIgnoresLegOrder(Found(m, c, i, j), Found(m', c', i', j'));
    PairMultiset((m.venues[i], m.symbol, Buy), (m.venues[j], m.symbol, Sell), (m'.venues[i'], m'.symbol, Buy),
                 (m'.venues[j'], m'.symbol, Sell));
  }

  lemma FoundHops(m: Market, c: Config, i: nat, j: nat)
    requires m.Valid() && i < |m.venues| && j < |m.venues|
    ensures Hops(Found(m, c, i, j).legs) == [(m.venues[i], m.symbol, Buy), (m.venues[j], m.symbol, Sell)]
  {
    hide SizeUsd, NetPct, GrossPct;
  }

  /** `found` lists exactly the hits of `markets`, one entry per route. */
  ghost predicate Exact(markets: seq<Market>, c: Config, found: seq<Opportunity>) {
    && (forall k | 0 <= k < |markets| :: markets[k].Valid())
    && (forall o | o in found :: exists k: nat, i: nat, j: nat ::
        k < |markets| && Hit(markets[k], c, i, j) && o == Found(markets[k], c, i, j))
    && (forall k: nat, i: nat, j: nat | k < |markets| && Hit(markets[k], c, i, j) ::
        Found(markets[k], c, i, j) in found)
    && DistinctRoutes(found)
  }

  /** Pairs in the order of `np.where`: by row, then by column. */
  ghost predicate RowMajor(pairs: seq<(nat, nat)>) {
    forall a, b | 0 <= a < b < |pairs| ::
        pairs[a].0 < pairs[b].0 || (pairs[a].0 == pairs[b].0 && pairs[a].1 < pairs[b].1)
  }

  /** The scan has covered rows before `i`, and row `i` before column `j`. */
  ghost predicate Scanned(m: Market, c: Config, i: nat, j: nat, pairs: seq<(nat, nat)>, found: seq<Opportunity>) {
    && m.Valid() && |pairs| == |found| && RowMajor(pairs)
    && (forall k | 0 <= k < |pairs| ::
        Hit(m, c, pairs[k].0, pairs[k].1) && found[k] == Found(m, c, pairs[k].0, pairs[k].1)
                                       && (pairs[k].0 < i || (pairs[k].0 == i && pairs[k].1 < j)))
    && (forall a: nat, b: nat | Hit(m, c, a, b) && (a < i || (a == i && b < j)) :: (a, b) in pairs)
  }

  lemma ScanCell(m: Market, c: Config, i: nat, j: nat, pairs: seq<(nat, nat)>, found: seq<Opportunity>)
    requires Scanned(m, c, i, j, pairs, found)
    ensures if Hit(m, c, i, j) then Scanned(m, c, i, j + 1, pairs + [(i, j)], found + [Found(m, c, i, j)])
            else Scanned(m, c, i, j + 1, pairs, found)
  {
  }

  lemma ScanRow(m: Market, c: Config, i: nat, pairs: seq<(nat, nat)>, found: seq<Opportunity>)
    requires m.Valid() && Scanned(m, c, i, |m.venues|, pairs, found)
    ensures Scanned(m, c, i + 1, 0, pairs, found)
  {
  }

  lemma ScanExact(m: Market, c: Config, pairs: seq<(nat, nat)>, found: seq<Opportunity>)
    requires m.Valid() && Scanned(m, c, |m.venues|, 0, pairs, found)
    ensures Exact([m], c, found)
  {
    hide RouteKey, NetPct, SizeUsd, Found;
    forall o | o in found ensures exists k: nat, i: nat, j: nat ::
        k < |[m]| && Hit([m][k], c, i, j) && o == Found([m][k], c, i, j) {
      var k :| 0 <= k < |found| && found[k] == o;
      assert Hit([m][0], c, pairs[k].0, pairs[k].1);
    }
    forall k: nat, i: nat, j: nat | k < |[m]| && Hit([m][k], c, i, j) ensures Found([m][k], c, i, j) in found {
      assert (i, j) in pairs;
    }
    forall a, b | 0 <= a < b < |found| ensures RouteKey(found[a]) != RouteKey(found[b]) {
      RouteNamesPair(m, c, pairs[a].0, pairs[a].1, m, c, pairs[b].0, pairs[b].1);
    }
  }

  /** Every profitable pair of distinct venues for one symbol, row by row. */
  method ScanSymbol(m: Market, c: Config) returns (found: seq<Opportunity>, ghost pairs: seq<(nat, nat)>)
    requires m.Valid()
    ensures Exact([m], c, found)
    ensures RowMajor(pairs) && |pairs| == |found|
    ensures forall k | 0 <= k < |pairs| ::
            Hit(m, c, pairs[k].0, pairs[k].1) && found[k] == Found(m, c, pairs[k].0, pairs[k].1)
  {
    found, pairs := [], [];
    for i := 0 to |m.venues|
      invariant Scanned(m, c, i, 0, pairs, found)
    {
      for j := 0 to |m.venues|
        invariant Scanned(m, c, i, j, pairs, found)
      {
        ScanCell(m, c, i, j, pairs, found);
        hide Scanned;
        if i == j || NetPct(m, i, j) < c.minProfitPct {
          continue;
        }
        if c.minLagSec.Some? && m.stamps[j] - m.stamps[i] < c.minLagSec.value {
          continue;
        }
        var sizeUsd := SizeUsd(m, c, i, j);
        if sizeUsd <= 0.0 {
          continue;
        }
        found := found + [Found(m, c, i, j)];
        pairs := pairs + [(i, j)];
      }
      ScanRow(m, c, i, pairs, found);
    }
    ScanExact(m, c, pairs, found);
  }

  predicate BetterFirst(a: Opportunity, b: Opportunity) {
    a.netProfitPct >= b.netProfitPct
  }

  lemma ExactJoin(before: seq<Market>, m: Market, c: Config, found: seq<Opportunity>, more: seq<Opportunity>)
    requires Exact(before, c, found) && Exact([m], c, more)
    requires forall k | 0 <= k < |before| :: before[k].symbol != m.symbol
    ensures Exact(before + [m], c, found + more)
  {
    hide RouteKey, NetPct, SizeUsd, Found;
    var all, n := before + [m], |before|;
    assert [m][0] == m;
    forall o | o in found + more ensures exists k: nat, i: nat, j: nat ::
        k < |all| && Hit(all[k], c, i, j) && o == Found(all[k], c, i, j) {
      if o in found {
        var k: nat, i: nat, j: nat :| k < n && Hit(before[k], c, i, j) && o == Found(before[k], c, i, j);
        assert all[k] == before[k] && Hit(all[k], c, i, j);
      } else {
        var k: nat, i: nat, j: nat :| k < |[m]| && Hit([m][k], c, i, j) && o == Found([m][k], c, i, j);
        assert all[n] == m && Hit(all[n], c, i, j);
      }
    }
    forall k: nat, i: nat, j: nat | k < |all| && Hit(all[k], c, i, j) ensures Found(all[k], c, i, j) in found + more {
      if k < n {
        assert Hit(before[k], c, i, j);
      } else {
        assert Hit([m][0], c, i, j);
      }
    }
    forall a, b | 0 <= a < |found| && 0 <= b < |more| ensures RouteKey(found[a]) != RouteKey(more[b]) {
      assert found[a] in found && more[b] in more;
      var k: nat, i: nat, j: nat :| k < n && Hit(before[k], c, i, j) && found[a] == Found(before[k], c, i, j);
      var k': nat, i': nat, j': nat :| k' < |[m]| && Hit([m][k'], c, i', j') && more[b] == Found([m][k'], c, i', j');
      RouteNamesPair(before[k], c, i, j, m, c, i', j');
    }
  }

  lemma ExactSorted(markets: seq<Market>, c: Config, found: seq<Opportunity>)
    requires Exact(markets, c, found)
    ensures Exact(markets, c, SortBy(found, BetterFirst))
  {
    hide RouteKey, Found, Hit;
    SameElements(found, BetterFirst);
    DistinctRoutesByMultiset(found, SortBy(found, BetterFirst));
  }

  lemma DistinctRoutesByMultiset(s: seq<Opportunity>, r: seq<Opportunity>)
    requires DistinctRoutes(s) && multiset(s) == multiset(r)
    ensures DistinctRoutes(r)
  {
    hide RouteKey;
    assert Distinct(s);
    DistinctByMultiset(s, r);
    forall i, j | 0 <= i < j < |r| ensures RouteKey(r[i]) != RouteKey(r[j]) {
      assert r[i] in multiset(s) && r[j] in multiset(s) && r[i] != r[j];
    }
  }

  ghost predicate DistinctSymbols(markets: seq<Market>) {
    forall a, b | 0 <= a < b < |markets| :: markets[a].symbol != markets[b].symbol
  }

  lemma EarlierSymbols(markets: seq<Market>, k: nat)
    requires DistinctSymbols(markets) && k < |markets|
    ensures forall j | 0 <= j < k :: markets[..k][j].symbol != markets[k].symbol
  {
  }

  lemma ExactNone(c: Config)
    ensures Exact([], c, [])
  {
  }

  lemma BetterFirstOrders(found: seq<Opportunity>)
    ensures var sorted := SortBy(found, BetterFirst);
            forall i, j | 0 <= i < j < |sorted| :: sorted[i].netProfitPct >= sorted[j].netProfitPct
  {
    SortByOrdered(found, BetterFirst);
  }

  /** `scan`: all symbols, best edge first. */
  method Scan(markets: seq<Market>, c: Config) returns (found: seq<Opportunity>)
    requires forall k | 0 <= k < |markets| :: markets[k].Valid()
    requires DistinctSymbols(markets)
    ensures Exact(markets, c, found)
    ensures forall i, j | 0 <= i < j < |found| :: found[i].netProfitPct >= found[j].netProfitPct
  {
    hide *;
    found := [];
    ExactNone(c);
    assert markets[..0] == [];
    for k := 0 to |markets|
      invariant Exact(markets[..k], c, found)
    {
      var more;
      ghost var pairs;
      more, pairs := ScanSymbol(markets[k], c);
      EarlierSymbols(markets, k);
      ExactJoin(markets[..k], markets[k], c, found, more);
      assert markets[..k + 1] == markets[..k] + [markets[k]];
      found := found + more;
    }
    assert markets[..|markets|] == markets;
    ExactSorted(markets, c, found);
    BetterFirstOrders(found);
    found := SortBy(found, BetterFirst);
  }

  /**
   * Same bar or lower, no lag filter: every finding of `fine` is a finding of `coarse` on the same route with
   * the same edge.
   */
  lemma HitImpliesHit(m: Market, coarse: Config, fine: Config, i: nat, j: nat)
    requires m.Valid() && Hit(m, fine, i, j)
    requires coarse.minLagSec == None && coarse.minProfitPct <= fine.minProfitPct && coarse.maxTradeUsd > 0.0
    ensures Hit(m, coarse, i, j)
  {
  }

  /**
   * Merging the lag-filtered findings after the plain ones and de-duplicating leaves the plain ones; all
   * others count as duplicates.
   */
  lemma LatencyAddsNothing(markets: seq<Market>, cross: Config, latency: Config, crossFound: seq<Opportunity>,
                           latencyFound: seq<Opportunity>)
    requires Exact(markets, cross, crossFound) && Exact(markets, latency, latencyFound)
    requires cross.minLagSec == None && cross.minProfitPct <= latency.minProfitPct && cross.maxTradeUsd > 0.0
    ensures var merged := crossFound + latencyFound;
            BestPerRoute(merged) == crossFound && |merged| - |BestPerRoute(merged)| == |latencyFound|
  {
    hide RouteKey, BestOf, Found, NetPct, SizeUsd;
    forall k | 0 <= k < |latencyFound| ensures Dominated(crossFound, latencyFound[k]) {
      assert latencyFound[k] in latencyFound;
      var n: nat, i: nat, j: nat :| n < |markets| && Hit(markets[n], latency, i, j)
          && latencyFound[k] == Found(markets[n], latency, i, j);
      LatencyDominated(markets, cross, latency, crossFound, n, i, j);
    }
    DominatedIgnored(crossFound, latencyFound);
    DistinctKept(crossFound);
  }

  lemma LatencyDominated(markets: seq<Market>, cross: Config, latency: Config, crossFound: seq<Opportunity>, n: nat,
                         i: nat, j: nat)
    requires Exact(markets, cross, crossFound) && n < |markets| && Hit(markets[n], latency, i, j)
    requires cross.minLagSec == None && cross.minProfitPct <= latency.minProfitPct && cross.maxTradeUsd > 0.0
    ensures Dominated(crossFound, Found(markets[n], latency, i, j))
  {
    HitImpliesHit(markets[n], cross, latency, i, j);
    RouteNamesPair(markets[n], cross, i, j, markets[n], latency, i, j);
    hide RouteKey, Hit, SizeUsd;
    assert Found(markets[n], cross, i, j) in crossFound;
    var k :| 0 <= k < |crossFound| && crossFound[k] == Found(markets[n], cross, i, j);
  }

  lemma LateDistinct(markets: seq<Market>, c: Config, found: seq<Opportunity>)
    requires Exact(markets, c, found)
    ensures DistinctRoutes(found)
  {
  }

  /** Findings of two groups of symbols are on different routes. */
  lemma GroupsDistinct(top: seq<Market>, rest: seq<Market>, crossTop: Config, crossRest: Config,
                       foundTop: seq<Opportunity>, foundRest: seq<Opportunity>)
    requires Exact(top, crossTop, foundTop) && Exact(rest, crossRest, foundRest)
    requires DistinctSymbols(top + rest)
    ensures DistinctRoutes(foundTop + foundRest)
  {
    hide RouteKey, Found, NetPct, SizeUsd;
    forall a, b | 0 <= a < |foundTop| && 0 <= b < |foundRest| ensures RouteKey(foundTop[a]) != RouteKey(foundRest[b]) {
      assert foundTop[a] in foundTop && foundRest[b] in foundRest;
      var k: nat, i: nat, j: nat :| k < |top| && Hit(top[k], crossTop, i, j)
          && foundTop[a] == Found(top[k], crossTop, i, j);
      var k': nat, i': nat, j': nat :|
        k' < |rest| && Hit(rest[k'], crossRest, i', j') && foundRest[b] == Found(rest[k'], crossRest, i', j');
      assert (top + rest)[k] == top[k] && (top + rest)[|top| + k'] == rest[k'];
      RouteNamesPair(top[k], crossTop, i, j, rest[k'], crossRest, i', j');
    }
  }

  ghost predicate Trades(markets: seq<Market>, symbol: string) {
    exists k :: 0 <= k < |markets| && markets[k].symbol == symbol
  }

  /** The bar of a symbol: that of the first group if it trades there, else that of the second. */
  ghost function BarAt(top: seq<Market>, crossTop: Config, crossRest: Config, symbol: string): real {
    if Trades(top, symbol) then crossTop.minProfitPct else crossRest.minProfitPct
  }

  /** A finding of one group clears the bar of its symbol, and comes from the market of that symbol. */
  lemma GroupFinding(top: seq<Market>, rest: seq<Market>, crossTop: Config, crossRest: Config,
                     foundTop: seq<Opportunity>, foundRest: seq<Opportunity>, k: nat)
    returns (n: nat, c: Config, i: nat, j: nat)
    requires Exact(top, crossTop, foundTop) && Exact(rest, crossRest, foundRest) && DistinctSymbols(top + rest)
    requires k < |foundTop + foundRest|
    ensures n < |top + rest| && (top + rest)[n].Valid() && i < |(top + rest)[n].venues| && j < |(top + rest)[n].venues|
    ensures (foundTop + foundRest)[k] == Found((top + rest)[n], c, i, j)
    ensures NetPct((top + rest)[n], i, j) >= BarAt(top, crossTop, crossRest, (top + rest)[n].symbol)
  {
    hide RouteKey, Found, NetPct, SizeUsd, Market.Valid;
    var all := top + rest;
    if k < |foundTop| {
      assert foundTop[k] in foundTop;
      n, i, j :| n < |top| && Hit(top[n], crossTop, i, j) && foundTop[k] == Found(top[n], crossTop, i, j);
      c := crossTop;
      assert all[n] == top[n] && Trades(top, all[n].symbol);
    } else {
      var o := foundRest[k - |foundTop|];
      assert o in foundRest;
      var n': nat;
      n', i, j :| n' < |rest| && Hit(rest[n'], crossRest, i, j) && o == Found(rest[n'], crossRest, i, j);
      c, n := crossRest, |top| + n';
      assert all[n] == rest[n'];
      NotInTop(top, rest, n');
    }
  }

  lemma NotInTop(top: seq<Market>, rest: seq<Market>, n: nat)
    requires DistinctSymbols(top + rest) && n < |rest|
    ensures !Trades(top, rest[n].symbol)
  {
    forall k | 0 <= k < |top| ensures top[k].symbol != rest[n].symbol {
      assert (top + rest)[k] == top[k] && (top + rest)[|top| + n] == rest[n];
    }
  }

  /** Two pairs of one market on one route are the same pair. */
  lemma SamePair(m: Market, c: Config, i: nat, j: nat, c': Config, i': nat, j': nat)
    requires m.Valid() && i < |m.venues| && j < |m.venues| && i' < |m.venues| && j' < |m.venues|
    requires RouteKey(Found(m, c, i, j)) == RouteKey(Found(m, c', i', j'))
    ensures i == i' && j == j'
  {
    RouteNamesPair(m, c, i, j, m, c', i', j');
    hide RouteKey, Found;
  }

  /** A lag hit on the route of a plain finding clears the bar of its symbol. */
  lemma SameRouteClears(top: seq<Market>, rest: seq<Market>, crossTop: Config, crossRest: Config, latency: Config,
                        foundTop: seq<Opportunity>, foundRest: seq<Opportunity>, n: nat, i: nat, j: nat)
    requires Exact(top, crossTop, foundTop) && Exact(rest, crossRest, foundRest) && DistinctSymbols(top + rest)
    requires n < |top + rest| && (top + rest)[n].Valid() && Hit((top + rest)[n], latency, i, j)
    requires HasRoute(foundTop + foundRest, Found((top + rest)[n], latency, i, j))
    ensures NetPct((top + rest)[n], i, j) >= BarAt(top, crossTop, crossRest, (top + rest)[n].symbol)
  {
    var all, first := top + rest, foundTop + foundRest;
    var o := Found(all[n], latency, i, j);
    hide RouteKey, Found, NetPct, SizeUsd, Exact;
    var k :| 0 <= k < |first| && RouteKey(first[k]) == RouteKey(o);
    var n', c', i', j' := GroupFinding(top, rest, crossTop, crossRest, foundTop, foundRest, k);
    RouteNamesPair(all[n'], c', i', j', all[n], latency, i, j);
    assert n' == n;
    SamePair(all[n], c', i', j', latency, i, j);
  }

  /** One at or above it meets a finding of the plain scan with the same edge. */
  lemma AboveBarIsMet(top: seq<Market>, rest: seq<Market>, crossTop: Config, crossRest: Config, latency: Config,
                      foundTop: seq<Opportunity>, foundRest: seq<Opportunity>, n: nat, i: nat, j: nat)
    requires Exact(top, crossTop, foundTop) && Exact(rest, crossRest, foundRest) && DistinctSymbols(top + rest)
    requires crossTop.minLagSec == None && crossRest.minLagSec == None
    requires crossTop.maxTradeUsd > 0.0 && crossRest.maxTradeUsd > 0.0
    requires n < |top + rest| && (top + rest)[n].Valid() && Hit((top + rest)[n], latency, i, j)
    requires NetPct((top + rest)[n], i, j) >= BarAt(top, crossTop, crossRest, (top + rest)[n].symbol)
    ensures Dominated(foundTop + foundRest, Found((top + rest)[n], latency, i, j))
  {
    var m, c := (top + rest)[n], if n < |top| then crossTop else crossRest;
    if n < |top| {
      assert m == top[n] && Trades(top, m.symbol);
    } else {
      assert m == rest[n - |top|];
      NotInTop(top, rest, n - |top|);
    }
    assert Hit(m, c, i, j);
    RouteNamesPair(m, c, i, j, m, latency, i, j);
    var o := Found(m, c, i, j);
    assert o.netProfitPct == Found(m, latency, i, j).netProfitPct;
    hide RouteKey, Hit, SizeUsd, NetPct, Found;
    assert o in (if n < |top| then foundTop else foundRest);
    assert o in foundTop + foundRest;
    var k :| 0 <= k < |foundTop + foundRest| && (foundTop + foundRest)[k] == o;
  }

  /**
   * The plain scan runs over two groups of symbols at two bars, the lag scan over all of them at its own.
   * De-duplicating the merge keeps the plain findings and, after them, exactly the lag findings below the
   * bar of their symbol.
   */
  lemma MergeOfGroups(top: seq<Market>, rest: seq<Market>, crossTop: Config, crossRest: Config, latency: Config,
                      foundTop: seq<Opportunity>, foundRest: seq<Opportunity>, late: seq<Opportunity>)
    requires Exact(top, crossTop, foundTop) && Exact(rest, crossRest, foundRest) && Exact(top + rest, latency, late)
    requires crossTop.minLagSec == None && crossRest.minLagSec == None
    requires crossTop.maxTradeUsd > 0.0 && crossRest.maxTradeUsd > 0.0 && DistinctSymbols(top + rest)
    ensures var first := foundTop + foundRest;
            && BestPerRoute(first + late) == first + Unmet(first, late)
            && forall o :: o in Unmet(first, late)
                           <==> o in late && o.netProfitPct < BarAt(top, crossTop, crossRest, o.symbol)
  {
    var first := foundTop + foundRest;
    hide *;
    GroupsDistinct(top, rest, crossTop, crossRest, foundTop, foundRest);
    LateDistinct(top + rest, latency, late);
    forall o | o in late
      ensures HasRoute(first, o) ==> Dominated(first, o)
      ensures HasRoute(first, o) <==> o.netProfitPct >= BarAt(top, crossTop, crossRest, o.symbol)
    {
      LateFinding(top, rest, crossTop, crossRest, latency, foundTop, foundRest, late, o);
    }
    assert forall k | 0 <= k < |late| :: late[k] in late;
    MergeKeeps(first, late);
    forall o ensures o in Unmet(first, late)
                     <==> o in late && o.netProfitPct < BarAt(top, crossTop, crossRest, o.symbol) {
      UnmetMember(first, late, o);
    }
  }

  lemma LateFinding(top: seq<Market>, rest: seq<Market>, crossTop: Config, crossRest: Config, latency: Config,
                    foundTop: seq<Opportunity>, foundRest: seq<Opportunity>, late: seq<Opportunity>, o: Opportunity)
    requires Exact(top, crossTop, foundTop) && Exact(rest, crossRest, foundRest) && Exact(top + rest, latency, late)
    requires crossTop.minLagSec == None && crossRest.minLagSec == None
    requires crossTop.maxTradeUsd > 0.0 && crossRest.maxTradeUsd > 0.0 && DistinctSymbols(top + rest) && o in late
    ensures HasRoute(foundTop + foundRest, o) ==> Dominated(foundTop + foundRest, o)
    ensures HasRoute(foundTop + foundRest, o) <==> o.netProfitPct >= BarAt(top, crossTop, crossRest, o.symbol)
  {
    var all := top + rest;
    var n: nat, i: nat, j: nat :| n < |all| && Hit(all[n], latency, i, j) && o == Found(all[n], latency, i, j);
    assert o.symbol == all[n].symbol && o.netProfitPct == NetPct(all[n], i, j);
    assert all[n].Valid();
    hide *;
    if o.netProfitPct >= BarAt(top, crossTop, crossRest, o.symbol) {
      AboveBarIsMet(top, rest, crossTop, crossRest, latency, foundTop, foundRest, n, i, j);
      DominatedHasRoute(foundTop + foundRest, o);
    } else {
      if HasRoute(foundTop + foundRest, o) {
        SameRouteClears(top, rest, crossTop, crossRest, latency, foundTop, foundRest, n, i, j);
      }
    }
  }

  lemma DominatedHasRoute(first: seq<Opportunity>, o: Opportunity)
    requires Dominated(first, o)
    ensures HasRoute(first, o)
  {
    hide RouteKey;
  }

  /**
   * What the market state hands to a scan: books that were updated at all and no longer than `staleness`
   * before `now`, each with a positive bid below its ask.
   */
  ghost predicate Receivable(m: Market, now: real, staleness: real) {
    && m.Valid()
    && forall i | 0 <= i < |m.venues| ::
         && m.stamps[i] != 0.0 && m.stamps[i] <= now && now - m.stamps[i] <= staleness
         && 0.0 < m.bids[i] < m.asks[i]
  }

  /** Every lag finding is a plain finding, on every market a scan can receive. */
  ghost predicate Overlaps(cross: Config, latency: Config, staleness: real) {
    forall m: Market, now: real, i: nat, j: nat | Receivable(m, now, staleness) && Hit(m, latency, i, j) ::
      Hit(m, cross, i, j)
  }

  /** A lag beyond the staleness bound is never seen. */
  lemma LagTooLong(m: Market, now: real, staleness: real, c: Config, i: nat, j: nat)
    requires Receivable(m, now, staleness) && c.minLagSec.Some? && c.minLagSec.value > staleness
    ensures !Hit(m, c, i, j)
  {
  }

  /** A market whose only edge is exactly the lag strategy's bar, found with a lag within the bound. */
  lemma BarelyFound(latency: Config, staleness: real) returns (m: Market, now: real)
    requires latency.minLagSec.Some? && latency.minLagSec.value <= staleness && staleness >= 0.0
    requires latency.minProfitPct > -100.0 && latency.maxTradeUsd > 0.0
    ensures Receivable(m, now, staleness) && Hit(m, latency, 0, 1) && NetPct(m, 0, 1) == latency.minProfitPct
  {
    var p, lag := latency.minProfitPct, if latency.minLagSec.value > 0.0 then latency.minLagSec.value else 0.0;
    now := 1.0 + lag;
    m := Market("A/B", ["x", "y"], [1.0, 100.0 + p], [100.0, 101.0 + p], [1.0, 1.0], [1.0, 1.0], [1.0, now],
                [0.0, 0.0]);
  }

  /**
   * The overlap claim is exactly a claim about the parameters: it holds on every market a scan can
   * receive if and only if the plain bar is no higher, or the lag asked for is beyond the staleness bound.
   */
  lemma OverlapIffThreshold(cross: Config, latency: Config, staleness: real)
    requires cross.minLagSec == None && latency.minLagSec.Some? && cross.maxTradeUsd > 0.0 && latency.maxTradeUsd > 0.0
    requires staleness >= 0.0 && latency.minProfitPct > -100.0
    ensures Overlaps(cross, latency, staleness)
            <==> cross.minProfitPct <= latency.minProfitPct || latency.minLagSec.value > staleness
  {
    if cross.minProfitPct <= latency.minProfitPct || latency.minLagSec.value > staleness {
      forall m: Market, now: real, i: nat, j: nat | Receivable(m, now, staleness) && Hit(m, latency, i, j)
        ensures Hit(m, cross, i, j)
      {
        if latency.minLagSec.value > staleness {
          LagTooLong(m, now, staleness, latency, i, j);
        }
        HitImpliesHit(m, cross, latency, i, j);
      }
    } else {
      var m, now := BarelyFound(latency, staleness);
      assert !Hit(m, cross, 0, 1);
    }
  }
}
