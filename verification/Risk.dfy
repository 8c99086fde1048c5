/** The single gate before execution: circuit breakers, caps, sizing, and the state behind them. */
module Risk {
  import opened Collections
  import opened Walks
  import opened Books
  import opened Symbols
  import opened RiskLedger
  import opened Reverify

  const EMPTY: Exposure := Exposure(map[], map[])

  /** Minimum order notional of a venue. */
  function MinOrder(minimums: map<string, real>, venue: string): real {
    if venue in minimums then minimums[venue] else 10.0
  }

  predicate ClearsMinimums(minimums: map<string, real>, legs: seq<Leg>, sizeUsd: real) {
    forall l | l in legs :: sizeUsd >= MinOrder(minimums, l.venue)
  }

  /** Everything the risk manager decides from. */
  datatype RiskState = RiskState(limits: Limits, day: int, pnlUsd: real, tradeCount: int, failures: int,
                                 exposure: Exposure) {
    /** A new day clears the day's counters and the deployed totals, but neither the failures nor the limits. */
    function Rolled(today: int): RiskState {
      if today == day then this else RiskState(limits, today, 0.0, 0, failures, EMPTY)
    }

    /** No circuit breaker is open. */
    predicate BreakersClosed() {
      && !limits.emergencyStop
      && pnlUsd > -(if limits.dailyLossLimitUsd < 0.0 then -limits.dailyLossLimitUsd else limits.dailyLossLimitUsd)
      && tradeCount < limits.maxTradesPerDay
      && failures < limits.maxConsecutiveFailures
    }

    predicate Allows(opportunity: Option<Opportunity>) {
      BreakersClosed() && (opportunity.Some? ==> Admits(limits, exposure, opportunity.value))
    }

    function WithCommitted(o: Opportunity): RiskState {
      this.(exposure := Committed(exposure, o))
    }

    function WithFreed(o: Opportunity): RiskState {
      this.(exposure := Freed(exposure, o))
    }

    /** A finished trade enters the day it is recorded on. */
    function WithResult(today: int, o: Opportunity, pnl: real, success: bool): RiskState {
      var s := Rolled(today);
      RiskState(s.limits, s.day, s.pnlUsd + pnl, s.tradeCount + 1,
                if success then 0 else s.failures + 1, Freed(s.exposure, o))
    }
  }

  /** The gate protects the venue caps in every state exactly for routes that visit no venue twice. */
  lemma VenueCapSafeIffNoRepeat(o: Opportunity)
    requires o.maxSizeUsd > 0.0
    ensures (forall s: RiskState | s.Allows(Some(o)) && VenuesCapped(s.limits, s.exposure) ::
               VenuesCapped(s.limits, s.WithCommitted(o).exposure))
            <==> NoRepeatedVenue(o.legs)
  {
    if NoRepeatedVenue(o.legs) {
      forall s: RiskState | s.Allows(Some(o)) && VenuesCapped(s.limits, s.exposure)
        ensures VenuesCapped(s.limits, s.WithCommitted(o).exposure)
      {
        BeginCapped(s.limits, s.exposure, o);
      }
    } else {
      var s := RiskState(TightLimits(o.maxSizeUsd), 0, 0.0, 0, 0, EMPTY);
      var v := OverCap(o);
      assert s.Allows(Some(o)) && VenuesCapped(s.limits, s.exposure);
      assert At(s.WithCommitted(o).exposure.venue, v) > s.limits.VenueCap(v) && o.maxSizeUsd > 0.0;
      assert !VenuesCapped(s.limits, s.WithCommitted(o).exposure);
    }
  }

  /** Ordinary limits whose caps fit one trade of this size. */
  function TightLimits(size: real): Limits {
    Limits(map[], size, map[], size, size, 1.0, 1, 1, false)
  }

  /** A fresh manager that commits a route with a repeated venue goes over that venue's cap. */
  lemma OverCap(o: Opportunity) returns (v: string)
    requires o.maxSizeUsd > 0.0 && !NoRepeatedVenue(o.legs)
    ensures At(Committed(EMPTY, o).venue, v) > TightLimits(o.maxSizeUsd).VenueCap(v)
  {
    var i, j :| 0 <= i < j < |o.legs| && o.legs[i].venue == o.legs[j].venue;
    v := o.legs[i].venue;
    VisitsTwice(o.legs, i, j);
    AddLegsAt(EMPTY.venue, o.legs, o.maxSizeUsd, v);
    TimesAtLeastTwo(Visits(o.legs, v), o.maxSizeUsd);
    hide Times, Visits;
  }

  function SlippagePct(vwap: real, price: real): real
    requires price > 0.0
  {
    (vwap - price) / price * 100.0
  }

  /**
   * The proposal, cut to the depth the buy leg's book fills within the slippage bound; zero when any check
   * declines.
   */
  function SizeFor(limits: Limits, o: Opportunity, books: BookTable, minimums: map<string, real>,
                   maxSlippagePct: real): real {
    if o.legs == [] || BuyLeg(o.legs).price <= 0.0 then 0.0
    else
      var leg, proposed := BuyLeg(o.legs), Min(o.maxSizeUsd, limits.maxNotionalPerTradeUsd);
      if (leg.venue, leg.symbol) !in books then AboveMinimums(minimums, o.legs, proposed)
      else
        var asks := books[(leg.venue, leg.symbol)].asks;
        var vwap, filled := Vwap(asks, proposed / leg.price), Books.Filled(asks, proposed / leg.price);
        if filled <= 0.0 || vwap <= 0.0 || SlippagePct(vwap, leg.price) > maxSlippagePct then 0.0
        else AboveMinimums(minimums, o.legs, Min(proposed, Product(filled, vwap)))
  }

  function AboveMinimums(minimums: map<string, real>, legs: seq<Leg>, sizeUsd: real): real {
    if ClearsMinimums(minimums, legs, sizeUsd) then sizeUsd else 0.0
  }

  /**
   * A positive size is within the proposal and the trade cap, clears every venue's minimum, and stays within
   * live depth and slippage.
   */
  lemma SizeIsSafe(limits: Limits, o: Opportunity, books: BookTable, minimums: map<string, real>, maxSlippagePct: real)
    requires SizeFor(limits, o, books, minimums, maxSlippagePct) > 0.0
    ensures var size := SizeFor(limits, o, books, minimums, maxSlippagePct);
            && o.legs != [] && BuyLeg(o.legs).price > 0.0
            && size <= o.maxSizeUsd && size <= limits.maxNotionalPerTradeUsd && ClearsMinimums(minimums, o.legs, size)
            && var leg, proposed := BuyLeg(o.legs), Min(o.maxSizeUsd, limits.maxNotionalPerTradeUsd);
               (leg.venue, leg.symbol) in books ==>
                 var asks := books[(leg.venue, leg.symbol)].asks;
                 && SlippagePct(Vwap(asks, proposed / leg.price), leg.price) <= maxSlippagePct
                 && size <= Product(Books.Filled(asks, proposed / leg.price), Vwap(asks, proposed / leg.price))
  {
  }

  class RiskManager {
    var limits: Limits
    var currentDay: int
    var dailyPnlUsd: real
    var dailyTradeCount: int
    var consecutiveFailures: int
    var exposure: Exposure

    function State(): RiskState
      reads this
    {
      RiskState(limits, currentDay, dailyPnlUsd, dailyTradeCount, consecutiveFailures, exposure)
    }

    constructor (limits: Limits, today: int)
      ensures State() == RiskState(limits, today, 0.0, 0, 0, EMPTY)
    {
      this.limits, currentDay, dailyPnlUsd, dailyTradeCount := limits, today, 0.0, 0;
      consecutiveFailures, exposure := 0, EMPTY;
    }

    method RollDayIfNeeded(today: int)
      modifies this
      ensures State() == old(State()).Rolled(today)
    {
      if today != currentDay {
        currentDay, dailyPnlUsd, dailyTradeCount := today, 0.0, 0;
        exposure := EMPTY;
      }
    }

    /** Whether trading, and trading this opportunity if one is given, is allowed right now. */
    method CanTrade(today: int, opportunity: Option<Opportunity>) returns (ok: bool)
      modifies this
      ensures State() == old(State()).Rolled(today)
      ensures ok <==> State().Allows(opportunity)
    {
      RollDayIfNeeded(today);
      if limits.emergencyStop {
        return false;
      }
      var lossLimit := if limits.dailyLossLimitUsd < 0.0 then -limits.dailyLossLimitUsd else limits.dailyLossLimitUsd;
      if dailyPnlUsd <= -lossLimit {
        return false;
      }
      if dailyTradeCount >= limits.maxTradesPerDay {
        return false;
      }
      if consecutiveFailures >= limits.maxConsecutiveFailures {
        return false;
      }
      if opportunity.Some? {
        var o := opportunity.value;
        if At(exposure.strategy, o.strategy) + o.maxSizeUsd > limits.StrategyCap(o.strategy) {
          return false;
        }
        for k := 0 to |o.legs|
          invariant forall j | 0 <= j < k ::
                    At(exposure.venue, o.legs[j].venue) + o.maxSizeUsd <= limits.VenueCap(o.legs[j].venue)
        {
          var leg := o.legs[k];
          if At(exposure.venue, leg.venue) + o.maxSizeUsd > limits.VenueCap(leg.venue) {
            assert leg in o.legs;
            return false;
          }
        }
      }
      ok := true;
    }

    /** Marks the notional as deployed while it is in flight. */
    method Commit(o: Opportunity)
      modifies this
      ensures State() == old(State()).WithCommitted(o)
    {
      var strategy := exposure.strategy[o.strategy := At(exposure.strategy, o.strategy) + o.maxSizeUsd];
      var venue := exposure.venue;
      for k := 0 to |o.legs|
        invariant venue == AddLegs(exposure.venue, o.legs[..k], o.maxSizeUsd)
      {
        assert o.legs[..k + 1][..k] == o.legs[..k];
        venue := venue[o.legs[k].venue := At(venue, o.legs[k].venue) + o.maxSizeUsd];
      }
      assert o.legs[..|o.legs|] == o.legs;
      exposure := Exposure(strategy, venue);
    }

    /** Hands the notional back, never below zero. */
    method Release(o: Opportunity)
      modifies this
      ensures State() == old(State()).WithFreed(o)
    {
      var strategy := exposure.strategy[o.strategy := AtLeastZero(At(exposure.strategy, o.strategy) - o.maxSizeUsd)];
      var venue := exposure.venue;
      for k := 0 to |o.legs|
        invariant venue == SubtractLegs(exposure.venue, o.legs[..k], o.maxSizeUsd)
      {
        assert o.legs[..k + 1][..k] == o.legs[..k];
        venue := venue[o.legs[k].venue := AtLeastZero(At(venue, o.legs[k].venue) - o.maxSizeUsd)];
      }
      assert o.legs[..|o.legs|] == o.legs;
      exposure := Exposure(strategy, venue);
    }

    /** Books a finished trade into the day, counts consecutive failures, and frees its capital. */
    method RecordResult(today: int, o: Opportunity, pnlUsd: real, success: bool)
      modifies this
      ensures State() == old(State()).WithResult(today, o, pnlUsd, success)
    {
      RollDayIfNeeded(today);
      dailyPnlUsd := dailyPnlUsd + pnlUsd;
      dailyTradeCount := dailyTradeCount + 1;
      consecutiveFailures := if success then 0 else consecutiveFailures + 1;
      Release(o);
    }

    method TriggerEmergencyStop()
      modifies this
      ensures State() == old(State()).(limits := old(limits).(emergencyStop := true))
    {
      limits := limits.(emergencyStop := true);
    }

    method ClearEmergencyStop()
      modifies this
      ensures State() == old(State()).(limits := old(limits).(emergencyStop := false))
    {
      limits := limits.(emergencyStop := false);
    }

    /** The size to trade in USD; zero declines. */
    method SizeWithDepthCheck(o: Opportunity, books: BookTable, minimums: map<string, real>, maxSlippagePct: real)
      returns (size: real)
      ensures size == SizeFor(limits, o, books, minimums, maxSlippagePct)
    {
      if o.legs == [] {
        return 0.0;
      }
      var buyLeg := BuyLeg(o.legs);
      var proposedUsd := Min(o.maxSizeUsd, limits.maxNotionalPerTradeUsd);
      if buyLeg.price <= 0.0 {
        return 0.0;
      }
      var proposedSize := proposedUsd / buyLeg.price;
      if (buyLeg.venue, buyLeg.symbol) !in books {
        return if ClearsMinimums(minimums, o.legs, proposedUsd) then proposedUsd else 0.0;
      }
      var asks := books[(buyLeg.venue, buyLeg.symbol)].asks;
      VwapOfNothing(asks, proposedSize);
      hide Vwap, Books.Filled, BuyLeg, ClearsMinimums, SlippagePct, Product;
      var vwap, filled := books[(buyLeg.venue, buyLeg.symbol)].VwapFillPrice(Buy, proposedSize);
      if filled <= 0.0 || vwap <= 0.0 {
        return 0.0;
      }
      if SlippagePct(vwap, buyLeg.price) > maxSlippagePct {
        return 0.0;
      }
      var sizedUsd := Min(proposedUsd, Product(filled, vwap));
      return if ClearsMinimums(minimums, o.legs, sizedUsd) then sizedUsd else 0.0;
    }
  }

  lemma VwapOfNothing(levels: seq<Level>, size: real)
    ensures Books.Filled(levels, size) <= 0.0 ==> Vwap(levels, size) == 0.0
  {
  }
}
