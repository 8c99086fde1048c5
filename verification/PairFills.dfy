/** Buy/sell pairs: after which trades the settled ledger is what was moved, and the inputs where it is not. */
module PairFills {
  import opened Collections
  import opened Walks
  import opened Symbols
  import opened Inventory
  import opened Routing
  import opened RiskLedger
  import opened Risk
  import opened Reverify
  import opened ReverifyLaws
  import opened Execution
  import opened Engine
  import opened Fills

  /** The same quantity bought on one venue and sold on another. */
  predicate TwoVenuePair(buy: Leg, sell: Leg) {
    && buy.side == Buy && sell.side == Sell && buy.venue != sell.venue
    && buy.symbol == sell.symbol && IsPair(buy.symbol) && Base(buy.symbol) != Quote(buy.symbol)
    && buy.price > 0.0 && sell.price > 0.0 && buy.size == sell.size > 0.0
  }

  function Resized(leg: Leg, size: real): Leg {
    leg.(size := size)
  }

  /** What one leg of a pair nets in a slot, at any quantity. */
  lemma BuyNets(leg: Leg, slot: Slot)
    requires leg.side == Buy && IsPair(leg.symbol) && leg.price > 0.0 && leg.size >= 0.0
    ensures LegCreditAt(leg, slot) == if slot == (leg.venue, Base(leg.symbol)) then leg.size else 0.0
    ensures LegNeedAt(leg, slot) == if slot == (leg.venue, Quote(leg.symbol)) then Product(leg.price, leg.size) else 0.0
  {
  }

  lemma SellNets(leg: Leg, slot: Slot)
    requires leg.side == Sell && IsPair(leg.symbol) && leg.price > 0.0 && leg.size >= 0.0
    ensures LegCreditAt(leg, slot)
            == if slot == (leg.venue, Quote(leg.symbol)) then Product(leg.price, leg.size) else 0.0
    ensures LegNeedAt(leg, slot) == if slot == (leg.venue, Base(leg.symbol)) then leg.size else 0.0
  {
  }

  lemma PairNets(buy: Leg, sell: Leg, slot: Slot)
    ensures CreditAt([buy, sell], slot) == LegCreditAt(buy, slot) + LegCreditAt(sell, slot)
    ensures SumAt(Needs([buy, sell]), slot) == LegNeedAt(buy, slot) + LegNeedAt(sell, slot)
  {
    Nothing(slot);
    OneMoreLeg([], buy, slot);
    OneMoreLeg([buy], sell, slot);
    assert [] + [buy] == [buy] && [buy] + [sell] == [buy, sell];
    hide CreditAt, SumAt, Needs, LegCreditAt, LegNeedAt;
  }

  lemma Nothing(slot: Slot)
    ensures CreditAt([], slot) == 0.0 && SumAt(Needs([]), slot) == 0.0
  {
  }

  /** The base slots of a pair, where its two quantities show by themselves. */
  lemma BaseNets(buy: Leg, sell: Leg, a: real, b: real)
    requires TwoVenuePair(buy, sell) && a >= 0.0 && b >= 0.0
    ensures var done, base := [Resized(buy, a), Resized(sell, b)], Base(buy.symbol);
            SlotNet(done, (buy.venue, base)) == a && SlotNet(done, (sell.venue, base)) == -b
  {
    var done, base := [Resized(buy, a), Resized(sell, b)], Base(buy.symbol);
    forall slot: Slot | slot == (buy.venue, base) || slot == (sell.venue, base)
      ensures SlotNet(done, slot) == if slot == (buy.venue, base) then a else -b
    {
      PairNets(done[0], done[1], slot);
      BuyNets(done[0], slot);
      SellNets(done[1], slot);
      hide CreditAt, SumAt, Needs, LegCreditAt, LegNeedAt, IsPair, Base, Quote;
    }
  }

  lemma PairNeedsSomething(buy: Leg, sell: Leg)
    requires TwoVenuePair(buy, sell)
    ensures Needs([buy, sell]) != []
  {
    var slot := (sell.venue, Base(sell.symbol));
    PairNets(buy, sell, slot);
    BuyNets(buy, slot);
    SellNets(sell, slot);
    hide Needs, CreditAt, LegCreditAt, LegNeedAt, IsPair, Base, Quote;
  }

  /** Whatever quantities were moved, the settled ledger is right exactly when both are the listed one. */
  lemma PairSettledIff(l: Ledger, o: Opportunity, buy: Leg, sell: Leg, a: real, b: real)
    requires TwoVenuePair(buy, sell) && o.legs == [buy, sell] && Outstands(l, o.legs) && a >= 0.0 && b >= 0.0
    ensures SameBalances(FilledLedger(l, o), Moved(l, o.legs, [Resized(buy, a), Resized(sell, b)]))
            <==> a == buy.size && b == buy.size
  {
    var done, base, n := [Resized(buy, a), Resized(sell, b)], Base(buy.symbol), buy.size;
    assert Resized(buy, n) == buy && Resized(sell, n) == sell;
    SettledRightIff(l, o, done);
    PairNeedsSomething(buy, sell);
    BaseNets(buy, sell, a, b);
    BaseNets(buy, sell, n, n);
    hide FilledLedger, Moved, SameBalances, Outstands, SlotNet, TwoVenuePair, Needs;
    if forall slot :: SettledNet(o.legs, slot) == SlotNet(done, slot) {
      assert SettledNet(o.legs, (buy.venue, base)) == SlotNet(done, (buy.venue, base));
      assert SettledNet(o.legs, (sell.venue, base)) == SlotNet(done, (sell.venue, base));
    }
  }

  /** What the legs that filled, or those that failed, net in a slot. */
  lemma PairChosen(buy: Leg, sell: Leg, f: bool, g: bool, filled: bool, slot: Slot)
    ensures var legs := Chosen([buy, sell], [f, g], filled);
            && CreditAt(legs, slot)
               == (if f == filled then LegCreditAt(buy, slot) else 0.0)
                  + (if g == filled then LegCreditAt(sell, slot) else 0.0)
            && SumAt(Needs(legs), slot)
               == (if f == filled then LegNeedAt(buy, slot) else 0.0)
                  + (if g == filled then LegNeedAt(sell, slot) else 0.0)
  {
    assert Chosen([], [], filled) == [];
    hide *;
    Nothing(slot);
    ChosenNext([], [], buy, f, filled, slot);
    ChosenNext([buy], [f], sell, g, filled, slot);
    assert [] + [buy] == [buy] && [buy] + [sell] == [buy, sell] && [] + [f] == [f] && [f] + [g] == [f, g];
  }

  lemma PairHarmless(buy: Leg, sell: Leg, f: bool, g: bool, slot: Slot)
    requires TwoVenuePair(buy, sell)
    ensures Harmless([buy, sell], [f, g], slot)
            <==> (if f then 0.0 else LegCreditAt(buy, slot) - LegNeedAt(buy, slot))
                 + (if g then 0.0 else LegCreditAt(sell, slot) - LegNeedAt(sell, slot)) == 0.0
  {
    PairNeedsSomething(buy, sell);
    PairChosen(buy, sell, f, g, false, slot);
    hide CreditAt, SumAt, Needs, LegCreditAt, LegNeedAt, Chosen, TwoVenuePair;
  }

  /** At its listed sizes a pair is settled right exactly when no leg failed. */
  lemma PairByFillsIff(l: Ledger, o: Opportunity, buy: Leg, sell: Leg, f: bool, g: bool)
    requires TwoVenuePair(buy, sell) && o.legs == [buy, sell] && Outstands(l, o.legs)
    ensures SameBalances(FilledLedger(l, o), ByFills(l, o.legs, [f, g])) <==> f && g
  {
    PairHarmIff(buy, sell, f, g);
    hide *;
    SettledByFillsIff(l, o, [f, g]);
  }

  lemma PairHarmIff(buy: Leg, sell: Leg, f: bool, g: bool)
    requires TwoVenuePair(buy, sell)
    ensures (forall slot :: Harmless([buy, sell], [f, g], slot)) <==> f && g
  {
    var bought, sold := (buy.venue, Base(buy.symbol)), (sell.venue, Base(buy.symbol));
    BuyNets(buy, bought);
    BuyNets(buy, sold);
    SellNets(sell, bought);
    SellNets(sell, sold);
    forall slot ensures Harmless([buy, sell], [f, g], slot)
                        <==> (if f then 0.0 else LegCreditAt(buy, slot) - LegNeedAt(buy, slot))
                             + (if g then 0.0 else LegCreditAt(sell, slot) - LegNeedAt(sell, slot)) == 0.0 {
      PairHarmless(buy, sell, f, g, slot);
    }
    hide Harmless, LegCreditAt, LegNeedAt, IsPair;
    if forall slot :: Harmless([buy, sell], [f, g], slot) {
      assert Harmless([buy, sell], [f, g], bought) && Harmless([buy, sell], [f, g], sold);
    }
  }

  /** What a paper trade of `sizeUsd` simulates: every leg scaled with the buy leg. */
  function PaperDone(legs: seq<Leg>, scale: real): (done: seq<Leg>)
    ensures |done| == |legs| && forall k | 0 <= k < |legs| :: done[k] == Resized(legs[k], Product(legs[k].size, scale))
  {
    seq(|legs|, k requires 0 <= k < |legs| => Resized(legs[k], Product(legs[k].size, scale)))
  }

  /** What the orders of a live trade move: `size_usd / leg.price` units of each leg whose order fills. */
  function LiveDone(legs: seq<Leg>, sizeUsd: real, fills: seq<bool>): (done: seq<Leg>)
    requires |fills| == |legs|
    ensures |done| == |legs|
  {
    seq(|legs|, k requires 0 <= k < |legs| =>
          Resized(legs[k], if fills[k] && legs[k].price != 0.0 then sizeUsd / legs[k].price else 0.0))
  }

  lemma QuotientIs(sizeUsd: real, price: real, n: real)
    requires price > 0.0 && sizeUsd > 0.0
    ensures sizeUsd / price > 0.0 && (sizeUsd / price == n <==> sizeUsd == Product(price, n))
  {
  }

  lemma SameFactors(p: real, q: real, n: real)
    requires n > 0.0
    ensures Product(p, n) == Product(q, n) <==> p == q
  {
  }

  lemma PaperPair(buy: Leg, sell: Leg, sizeUsd: real)
    requires TwoVenuePair(buy, sell) && sizeUsd > 0.0
    ensures BuyLeg([buy, sell]) == buy && buy.price > 0.0 && sell.price > 0.0
    ensures var q := sizeUsd / buy.price;
            && q > 0.0 && (q == buy.size <==> sizeUsd == Product(buy.price, buy.size))
            && PaperDone([buy, sell], ScaleOf([buy, sell], sizeUsd)) == [Resized(buy, q), Resized(sell, q)]
  {
    assert BuyLeg([buy, sell]) == buy;
    Quantity(sizeUsd, buy.price, buy.size);
    QuotientIs(sizeUsd, buy.price, buy.size);
    hide Product, BuyLeg;
  }

  lemma LivePair(buy: Leg, sell: Leg, sizeUsd: real, f: bool, g: bool)
    requires TwoVenuePair(buy, sell) && sizeUsd > 0.0
    ensures var q, r := if f then sizeUsd / buy.price else 0.0, if g then sizeUsd / sell.price else 0.0;
            && q >= 0.0 && r >= 0.0 && LiveDone([buy, sell], sizeUsd, [f, g]) == [Resized(buy, q), Resized(sell, r)]
            && (q == buy.size && r == buy.size
                <==> f && g && sizeUsd == Product(buy.price, buy.size) && buy.price == sell.price)
  {
    QuotientIs(sizeUsd, buy.price, buy.size);
    QuotientIs(sizeUsd, sell.price, buy.size);
    SameFactors(buy.price, sell.price, buy.size);
    hide Product;
  }

  /** A logged trade's size, as the executor computed it. */
  function TradedSize(minimums: map<string, real>, b: Desk, o: Opportunity, w: World): real {
    SizeFor(b.risk.limits, o, w.books, minimums, MAX_SLIPPAGE_PCT)
  }

  lemma LoggedSize(mode: Mode, minimums: map<string, real>, b: Desk, o: Opportunity, w: World)
    requires Handled(mode, minimums, b.risk, o, w).1.Some?
    ensures PaysNow(w.books, o, TradedSize(minimums, b, o, w)) && TradedSize(minimums, b, o, w) > 0.0
    ensures Resolved(mode, minimums, b, o, w, true).ledger == FilledLedger(b.ledger, o)
  {
    hide SizeFor, Priceable, NetPctNow, FilledLedger, RiskState.WithResult, RiskState.Allows;
  }

  /** After a logged paper trade of a pair the ledger is what was traded exactly when the size was not cut. */
  lemma PaperSettledIff(minimums: map<string, real>, b: Desk, o: Opportunity, w: World, buy: Leg, sell: Leg)
    requires TwoVenuePair(buy, sell) && o.legs == [buy, sell] && Outstands(b.ledger, o.legs)
    requires Handled(Paper, minimums, b.risk, o, w).1.Some?
    ensures var size := TradedSize(minimums, b, o, w);
            && size > 0.0 && BuyLeg(o.legs) == buy
            && (SameBalances(Resolved(Paper, minimums, b, o, w, true).ledger,
                             Moved(b.ledger, o.legs, PaperDone(o.legs, ScaleOf(o.legs, size))))
                <==> size == Product(buy.price, buy.size))
  {
    hide *;
    var size := TradedSize(minimums, b, o, w);
    LoggedSize(Paper, minimums, b, o, w);
    PaperPair(buy, sell, size);
    PairSettledIff(b.ledger, o, buy, sell, size / buy.price, size / buy.price);
  }

  /**
   * After a logged live trade of a pair it is exactly when both orders filled, the size was not cut, and
   * the two prices are equal: each leg orders its own share of the dollars. A pair that earns is never right.
   */
  lemma LiveSettledIff(minimums: map<string, real>, b: Desk, o: Opportunity, w: World, buy: Leg, sell: Leg)
    requires TwoVenuePair(buy, sell) && o.legs == [buy, sell] && Outstands(b.ledger, o.legs) && |w.fills| == 2
    requires Handled(Live, minimums, b.risk, o, w).1.Some?
    ensures var size := TradedSize(minimums, b, o, w);
            SameBalances(Resolved(Live, minimums, b, o, w, true).ledger,
                         Moved(b.ledger, o.legs, LiveDone(o.legs, size, w.fills)))
            <==> w.fills == [true, true] && size == Product(buy.price, buy.size) && buy.price == sell.price
  {
    hide *;
    var size := TradedSize(minimums, b, o, w);
    var f, g := w.fills[0], w.fills[1];
    assert w.fills == [f, g];
    LoggedSize(Live, minimums, b, o, w);
    PaperPair(buy, sell, size);
    LivePair(buy, sell, size, f, g);
    var q, r := if f then size / buy.price else 0.0, if g then size / sell.price else 0.0;
    PairSettledIff(b.ledger, o, buy, sell, q, r);
  }

  /** A pair that earns 100 per cent, listed at 100 units: bought for 1 on `x`, sold for 2 on `y`. */
  const BUY: Leg := Leg("x", "BTC/USDT", Buy, 1.0, 100.0, 0.0)
  const SELL: Leg := Leg("y", "BTC/USDT", Sell, 2.0, 100.0, 0.0)
  const PAIR: Opportunity := Opportunity("cross_exchange", "BTC/USDT", [BUY, SELL], 100.0, 100.0, 100.0)

  /** A fresh risk manager with room for the pair that trades at most `notional` at once. */
  function FreshRisk(notional: real): RiskState {
    RiskState(Limits(map[], 1000.0, map[], 1000.0, notional, 10.0, 10, 3, false), 0, 0.0, 0, 0, EMPTY)
  }

  /** A ledger whose only balances are the pair's reservations. */
  const LOCKED: Ledger :=
    Dict([("x", "USDT"), ("y", "BTC")], map[("x", "USDT") := Balance(0.0, 100.0), ("y", "BTC") := Balance(0.0, 100.0)])

  /** A world without books, in which a leg is priced at its own price. */
  function Bookless(fills: seq<bool>): World {
    World(map[], 0, 0, fills)
  }

  lemma PairIsPair()
    ensures TwoVenuePair(BUY, SELL) && Base("BTC/USDT") == "BTC" && Quote("BTC/USDT") == "USDT"
  {
    PairSplits("BTC", "USDT");
    assert Pair("BTC", "USDT") == "BTC/USDT";
  }

  lemma LockedAt(slot: Slot)
    ensures BalanceAt(LOCKED, slot) == Balance(0.0, Outstanding([Needs([BUY, SELL])], slot))
  {
    var lists := [Needs([BUY, SELL])];
    PairIsPair();
    PairNets(BUY, SELL, slot);
    BuyNets(BUY, slot);
    SellNets(SELL, slot);
    assert lists[..0] == [] && Outstanding([], slot) == 0.0;
    hide Needs, SumAt, CreditAt, LegCreditAt, LegNeedAt, Base, Quote, IsPair;
  }

  lemma LockedForPair()
    ensures Outstands(LOCKED, PAIR.legs)
  {
    var lists := [Needs([BUY, SELL])];
    NeedsPositive([BUY, SELL]);
    LockedValid();
    hide *;
    forall slot ensures BalanceAt(LOCKED, slot) == Balance(0.0, Outstanding(lists, slot)) {
      LockedAt(slot);
    }
    BackedBy(LOCKED, lists);
  }

  lemma LockedValid()
    ensures LOCKED.Valid()
  {
  }

  lemma BackedBy(l: Ledger, lists: seq<seq<Reservation>>)
    requires l.Valid() && lists == [Needs([BUY, SELL])] && Positive(lists[0])
    requires forall slot :: BalanceAt(l, slot) == Balance(0.0, Outstanding(lists, slot))
    ensures Outstands(l, PAIR.legs)
  {
    hide Needs, Outstanding, Positive, Dict.Valid, BalanceAt;
    assert Backed(l, lists) && lists[0] == Needs(PAIR.legs);
  }

  /** The pair is sized to the trade cap and still pays 100 per cent. */
  lemma PairPays(notional: real)
    requires 10.0 <= notional <= 100.0
    ensures SizeFor(FreshRisk(notional).limits, PAIR, map[], map[], MAX_SLIPPAGE_PCT) == notional
    ensures PaysNow(map[], PAIR, notional) && NetPctNow(map[], PAIR.legs, notional) == 100.0
  {
    assert BuyLeg([BUY, SELL]) == BUY;
    PairTotals(notional);
    hide TotalCost, TotalProceeds, ScaleOf, BuyLeg;
    Doubled(notional);
  }

  lemma Doubled(c: real)
    requires c > 0.0
    ensures Margin(2.0 * c, c) == 100.0
  {
  }

  lemma PairTotals(notional: real)
    requires notional > 0.0
    ensures BuyLeg([BUY, SELL]) == BUY
    ensures var legs, scale := [BUY, SELL], ScaleOf([BUY, SELL], notional);
            && Product(100.0, scale) == notional
            && TotalCost(map[], legs, scale) == notional && TotalProceeds(map[], legs, scale) == 2.0 * notional
  {
    var legs := [BUY, SELL];
    assert BuyLeg(legs) == BUY;
    Quantity(notional, 1.0, 100.0);
    assert legs[..0] == [] && legs[..2] == legs;
    TotalsNext(map[], legs, 0, ScaleOf(legs, notional));
    TotalsNext(map[], legs, 1, ScaleOf(legs, notional));
  }

  lemma PairLogged(mode: Mode, notional: real, ledger: Ledger, fills: seq<bool>)
    requires mode != Monitor && 10.0 <= notional <= 100.0
    ensures var b := Desk(FreshRisk(notional), [], ledger);
            && TradedSize(map[], b, PAIR, Bookless(fills)) == notional
            && Handled(mode, map[], b.risk, PAIR, Bookless(fills)).1
               == Some(TradeLogEntry(PAIR, mode, if Succeeds(mode, fills) then Some(notional) else None))
  {
    PairPays(notional);
    hide SizeFor, PaysNow, NetPctNow, RiskState.WithResult;
  }

  /** The input of the size half: a 10 dollar paper trade is logged, and 100 dollars are settled. */
  lemma SizedDownInput(fills: seq<bool>)
    ensures var b, w := Desk(FreshRisk(10.0), [], LOCKED), Bookless(fills);
            && Handled(Paper, map[], b.risk, PAIR, w).1 == Some(TradeLogEntry(PAIR, Paper, Some(10.0)))
            && Outstands(LOCKED, PAIR.legs)
            && !SameBalances(Resolved(Paper, map[], b, PAIR, w, true).ledger,
                             Moved(LOCKED, PAIR.legs, PaperDone(PAIR.legs, ScaleOf(PAIR.legs, 10.0))))
  {
    PairIsPair();
    LockedForPair();
    PairLogged(Paper, 10.0, LOCKED, fills);
    hide Handled, Resolved, TradedSize, Moved, SameBalances, Outstands, TwoVenuePair, PaperDone;
    PaperSettledIff(map[], Desk(FreshRisk(10.0), [], LOCKED), PAIR, Bookless(fills), BUY, SELL);
  }

  lemma OneFailed()
    ensures !Succeeds(Live, [true, false])
  {
    assert [true, false][1] in [true, false];
  }

  /**
   * The input of the fills half: the sell order fails, and its base is spent and its proceeds credited all the
   * same.
   */
  lemma FailedLegInput()
    ensures var b, w := Desk(FreshRisk(100.0), [], LOCKED), Bookless([true, false]);
            && Handled(Live, map[], b.risk, PAIR, w).1 == Some(TradeLogEntry(PAIR, Live, None))
            && Outstands(LOCKED, PAIR.legs)
            && !SameBalances(Resolved(Live, map[], b, PAIR, w, true).ledger, ByFills(LOCKED, PAIR.legs, w.fills))
  {
    PairIsPair();
    LockedForPair();
    var b, w := Desk(FreshRisk(100.0), [], LOCKED), Bookless([true, false]);
    PairLogged(Live, 100.0, LOCKED, [true, false]);
    OneFailed();
    hide *;
    LoggedSize(Live, map[], b, PAIR, w);
    PairByFillsIff(LOCKED, PAIR, BUY, SELL, true, false);
  }
}
