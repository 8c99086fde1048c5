/** The tiered asset universe and the symbols it admits. */
module Universe {
  import opened Collections
  import opened Symbols

  const TIER_1: seq<string> := ["BTC", "ETH", "SOL", "BNB", "XRP", "ADA", "DOGE", "AVAX", "TRX", "LINK"]

  const TIER_2: seq<string> := [
    "DOT", "MATIC", "TON", "SHIB", "LTC", "BCH", "UNI", "ATOM", "XLM", "ETC",
    "NEAR", "APT", "FIL", "ARB", "OP", "INJ", "IMX", "HBAR", "VET", "SUI"]

  /** The long tail, ten at a time. */
  const TAIL_1: seq<string> := ["AAVE", "MKR", "GRT", "SAND", "MANA", "AXS", "RUNE", "FTM", "ALGO", "EGLD"]

  const TAIL_2: seq<string> := ["THETA", "FLOW", "CHZ", "CRV", "LDO", "SNX", "COMP", "ENS", "DYDX", "GMX"]

  const TAIL_3: seq<string> := ["PENDLE", "JTO", "TIA", "SEI", "STX", "RNDR", "PYTH", "JUP", "WIF", "BONK"]

  const TIER_3: seq<string> := TAIL_1 + TAIL_2 + TAIL_3

  const STABLECOINS: seq<string> := ["USDT", "USDC", "DAI", "FDUSD", "TUSD", "USDE", "EURC"]

  const WRAPPED_ASSETS: seq<string> := [
    "WBTC", "WETH", "STETH", "WSTETH", "RETH", "CBETH", "WBNB", "WSOL", "JITOSOL", "MSOL"]

  const QUOTE_ASSETS: seq<string> := ["USDT", "USDC", "BTC", "ETH", "EUR"]

  const ALL_BASE_ASSETS: seq<string> := TIER_1 + TIER_2 + TIER_3 + WRAPPED_ASSETS

  datatype Tier = Tier1 | Tier2 | Tier3 | Stable | Wrapped

  function TierOf(base: string): Tier {
    if base in STABLECOINS then Stable
    else if base in WRAPPED_ASSETS then Wrapped
    else if base in TIER_1 then Tier1
    else if base in TIER_2 then Tier2
    else Tier3
  }

  /** The lists share no asset, so each names the tier of its assets; an asset of none of them is in the lowest tier. */
  lemma TierMeans(base: string)
    ensures base in STABLECOINS ==> TierOf(base) == Stable
    ensures base in WRAPPED_ASSETS ==> TierOf(base) == Wrapped
    ensures base in TIER_1 ==> TierOf(base) == Tier1
    ensures base in TIER_2 ==> TierOf(base) == Tier2
    ensures base !in STABLECOINS + WRAPPED_ASSETS + TIER_1 + TIER_2 ==> TierOf(base) == Tier3
  {
    StablesApart(base);
    WrappedApart(base);
    TiersApart(base);
    hide STABLECOINS, WRAPPED_ASSETS, TIER_1, TIER_2;
  }

  lemma StablesApart(base: string)
    ensures base in STABLECOINS ==> base !in WRAPPED_ASSETS && base !in TIER_1 && base !in TIER_2
  {
  }

  lemma WrappedApart(base: string)
    ensures base in WRAPPED_ASSETS ==> base !in TIER_1 && base !in TIER_2
  {
  }

  lemma TiersApart(base: string)
    ensures base in TIER_1 ==> base !in TIER_2
  {
  }

  datatype TieredSymbol = TieredSymbol(symbol: string, base: string, quote: string, tier: Tier)

  /** A pair the universe admits, whichever venues list it. */
  predicate Admitted(quotes: seq<string>, bases: seq<string>, base: string, quote: string) {
    base in bases && quote in quotes && base != quote
  }

  /** The pairs of one base that a venue lists, in the order of the quotes. */
  function TradeableOfBase(venueMarkets: set<string>, quotes: seq<string>, base: string): seq<TieredSymbol> {
    if quotes == [] then []
    else
      var quote := quotes[|quotes| - 1];
      TradeableOfBase(venueMarkets, quotes[..|quotes| - 1], base)
      + (if base != quote && Pair(base, quote) in venueMarkets
         then [TieredSymbol(Pair(base, quote), base, quote, TierOf(base))] else [])
  }

  /** The pairs that a venue lists, base by base. */
  function TradeableOf(venueMarkets: set<string>, quotes: seq<string>, bases: seq<string>): seq<TieredSymbol> {
    if bases == [] then []
    else
      TradeableOf(venueMarkets, quotes, bases[..|bases| - 1])
      + TradeableOfBase(venueMarkets, quotes, bases[|bases| - 1])
  }

  lemma {:induction false} OfBaseExact(venueMarkets: set<string>, quotes: seq<string>, base: string, t: TieredSymbol)
    ensures t in TradeableOfBase(venueMarkets, quotes, base)
            <==> t.base == base && t.quote in quotes && base != t.quote && Pair(base, t.quote) in venueMarkets
                 && t.symbol == Pair(base, t.quote) && t.tier == TierOf(base)
  {
    hide TierOf, Pair;
    if quotes != [] {
      var init, last := quotes[..|quotes| - 1], quotes[|quotes| - 1];
      assert quotes == init + [last];
      OfBaseExact(venueMarkets, init, base, t);
    }
  }

  /** The list holds exactly the admitted pairs that the venue lists, each with its tier. */
  lemma {:induction false} TradeableExact(venueMarkets: set<string>, quotes: seq<string>, bases: seq<string>,
                                          t: TieredSymbol)
    ensures t in TradeableOf(venueMarkets, quotes, bases)
            <==> Admitted(quotes, bases, t.base, t.quote) && Pair(t.base, t.quote) in venueMarkets
                 && t.symbol == Pair(t.base, t.quote) && t.tier == TierOf(t.base)
  {
    hide TierOf, Pair, TradeableOfBase;
    if bases != [] {
      var init, last := bases[..|bases| - 1], bases[|bases| - 1];
      assert bases == init + [last];
      TradeableExact(venueMarkets, quotes, init, t);
      OfBaseExact(venueMarkets, quotes, last, t);
    }
  }

  lemma {:induction false} OfBaseOnce(venueMarkets: set<string>, quotes: seq<string>, base: string)
    requires Distinct(quotes)
    ensures Distinct(TradeableOfBase(venueMarkets, quotes, base))
  {
    hide TierOf, Pair;
    if quotes != [] {
      var init, last := quotes[..|quotes| - 1], quotes[|quotes| - 1];
      OfBaseOnce(venueMarkets, init, base);
      var t := TieredSymbol(Pair(base, last), base, last, TierOf(base));
      OfBaseExact(venueMarkets, init, base, t);
      if base != last && Pair(base, last) in venueMarkets {
        ListedAbsent(TradeableOfBase(venueMarkets, init, base), t);
      }
    }
  }

  /** Distinct bases and quotes list every pair once. */
  lemma {:induction false} TradeableOnce(venueMarkets: set<string>, quotes: seq<string>, bases: seq<string>)
    requires Distinct(quotes) && Distinct(bases)
    ensures Distinct(TradeableOf(venueMarkets, quotes, bases))
  {
    if bases != [] {
      var init, last := bases[..|bases| - 1], bases[|bases| - 1];
      TradeableOnce(venueMarkets, quotes, init);
      OfBaseOnce(venueMarkets, quotes, last);
      var before, more := TradeableOf(venueMarkets, quotes, init), TradeableOfBase(venueMarkets, quotes, last);
      forall i, j | 0 <= i < |before| && 0 <= j < |more| ensures before[i] != more[j] {
        TradeableExact(venueMarkets, quotes, init, before[i]);
        OfBaseExact(venueMarkets, quotes, last, more[j]);
        assert before[i] in before && more[j] in more;
      }
      hide TradeableOfBase, Pair, TierOf;
      DistinctJoin(before, more);
    }
  }

  lemma DistinctJoin<T>(a: seq<T>, b: seq<T>)
    requires Distinct(a) && Distinct(b) && forall i, j | 0 <= i < |a| && 0 <= j < |b| :: a[i] != b[j]
    ensures Distinct(a + b)
  {
  }

  /** The universe's pairs that a venue lists. */
  method BuildTradeableSymbols(venueMarkets: set<string>, quoteAssets: seq<string>, baseAssets: seq<string>)
    returns (tradeable: seq<TieredSymbol>)
    ensures tradeable == TradeableOf(venueMarkets, quoteAssets, baseAssets)
    ensures forall t :: t in tradeable
                        <==> Admitted(quoteAssets, baseAssets, t.base, t.quote) && Pair(t.base, t.quote) in venueMarkets
                             && t.symbol == Pair(t.base, t.quote) && t.tier == TierOf(t.base)
  {
    hide Pair, TierOf;
    tradeable := [];
    for b := 0 to |baseAssets|
      invariant tradeable == TradeableOf(venueMarkets, quoteAssets, baseAssets[..b])
    {
      var base := baseAssets[b];
      assert baseAssets[..b + 1][..b] == baseAssets[..b];
      ghost var before := tradeable;
      for q := 0 to |quoteAssets|
        invariant tradeable == before + TradeableOfBase(venueMarkets, quoteAssets[..q], base)
      {
        assert quoteAssets[..q + 1][..q] == quoteAssets[..q];
        if base == quoteAssets[q] {
          continue;
        }
        var symbol := Pair(base, quoteAssets[q]);
        if symbol in venueMarkets {
          tradeable := tradeable + [TieredSymbol(symbol, base, quoteAssets[q], TierOf(base))];
        }
      }
      assert quoteAssets[..|quoteAssets|] == quoteAssets;
    }
    assert baseAssets[..|baseAssets|] == baseAssets;
    forall t ensures t in tradeable
                     <==> Admitted(quoteAssets, baseAssets, t.base, t.quote) && Pair(t.base, t.quote) in venueMarkets
                          && t.symbol == Pair(t.base, t.quote) && t.tier == TierOf(t.base)
    {
      TradeableExact(venueMarkets, quoteAssets, baseAssets, t);
    }
  }

  /** A symbol of the shipped universe. */
  ghost predicate UniverseSymbol(s: string) {
    exists base, quote :: Admitted(QUOTE_ASSETS, ALL_BASE_ASSETS, base, quote) && s == Pair(base, quote)
  }

  /** No asset name contains a slash, so a universe symbol splits back into its base and its quote. */
  lemma UniverseSplits(s: string)
    requires UniverseSymbol(s)
    ensures IsPair(s) && Base(s) in ALL_BASE_ASSETS && Quote(s) in QUOTE_ASSETS && '/' !in Quote(s)
  {
    var base, quote :| Admitted(QUOTE_ASSETS, ALL_BASE_ASSETS, base, quote) && s == Pair(base, quote);
    NoSlashes();
    PairSplits(base, quote);
  }

  lemma NoSlashes()
    ensures forall a | a in ALL_BASE_ASSETS || a in QUOTE_ASSETS :: '/' !in a
  {
    PlainTiers();
    PlainTail();
    PlainWrapped();
    hide TIER_1, TIER_2, TIER_3, WRAPPED_ASSETS;
  }

  lemma PlainTiers()
    ensures forall a | a in TIER_1 || a in TIER_2 || a in QUOTE_ASSETS :: '/' !in a
  {
  }

  lemma PlainTail()
    ensures forall a | a in TIER_3 :: '/' !in a
  {
    PlainTail1();
    PlainTail2();
    PlainTail3();
    hide TAIL_1, TAIL_2, TAIL_3;
  }

  lemma PlainTail1()
    ensures forall a | a in TAIL_1 :: '/' !in a
  {
  }

  lemma PlainTail2()
    ensures forall a | a in TAIL_2 :: '/' !in a
  {
  }

  lemma PlainTail3()
    ensures forall a | a in TAIL_3 :: '/' !in a
  {
  }

  lemma PlainWrapped()
    ensures forall a | a in WRAPPED_ASSETS :: '/' !in a
  {
  }
}
