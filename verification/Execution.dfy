/** Turning an accepted opportunity into a recorded trade, with capital committed only while it is in flight. */
module Execution {
  import opened Collections
  import opened Walks
  import opened Books
  import opened Symbols
  import opened RiskLedger
  import opened Reverify
  import opened Risk
  import opened RiskHistory

  datatype Mode = Monitor | Paper | Live

  datatype TradeLogEntry = TradeLogEntry(opportunity: Opportunity, mode: Mode, pnlUsd: Option<real>)

  /**
   * What one handling sees of the world: live books, the date at the gate and at recording, and each leg
   * order's outcome.
   */
  datatype World = World(books: BookTable, dayAtGate: int, dayAtRecord: int, fills: seq<bool>)

  const MAX_SLIPPAGE_PCT: real := 0.1

  /** No capital is deployed anywhere. */
  ghost predicate Idle(x: Exposure) {
    forall key :: At(x.strategy, key) == 0.0 && At(x.venue, key) == 0.0
  }

  ghost predicate NonNegativeExposure(x: Exposure) {
    forall key :: At(x.strategy, key) >= 0.0 && At(x.venue, key) >= 0.0
  }

  ghost predicate SameExposure(x: Exposure, y: Exposure) {
    forall key :: At(x.strategy, key) == At(y.strategy, key) && At(x.venue, key) == At(y.venue, key)
  }

  /** Committing and handing back the same opportunity is neutral, also for routes that repeat a venue. */
  lemma CommitFreeNeutral(x: Exposure, o: Opportunity)
    requires NonNegativeExposure(x) && o.maxSizeUsd >= 0.0
    ensures SameExposure(Freed(Committed(x, o), o), x)
  {
    hide Times, Visits;
    forall key ensures At(Freed(Committed(x, o), o).strategy, key) == At(x.strategy, key)
        && At(Freed(Committed(x, o), o).venue, key) == At(x.venue, key) {
      AddLegsAt(x.venue, o.legs, o.maxSizeUsd, key);
      TimesNext(Visits(o.legs, key), o.maxSizeUsd);
      SubtractLegsAt(Committed(x, o).venue, o.legs, o.maxSizeUsd, key);
    }
  }

  /** Handing back after a roll took the totals away leaves nothing deployed. */
  lemma FreeEmpty(o: Opportunity)
    requires o.maxSizeUsd >= 0.0
    ensures Idle(Freed(EMPTY, o))
  {
    hide Times, Visits;
    forall key ensures At(Freed(EMPTY, o).strategy, key) == 0.0 && At(Freed(EMPTY, o).venue, key) == 0.0 {
      TimesNext(Visits(o.legs, key), o.maxSizeUsd);
      SubtractLegsAt(EMPTY.venue, o.legs, o.maxSizeUsd, key);
    }
  }

  /** The route can be re-priced at this size on the current books and still pays. */
  predicate PaysNow(books: BookTable, o: Opportunity, size: real) {
    size > 0.0 && Priceable(books, o.legs, size) && NetPctNow(books, o.legs, size) > 0.0
  }

  /** Estimated profit of `size` at a net percentage. */
  function EstimatedPnl(size: real, netPct: real): real {
    size * (netPct / 100.0)
  }

  /** A paper fill always succeeds; a live trade succeeds when every leg order does. */
  function Succeeds(mode: Mode, fills: seq<bool>): bool {
    mode == Paper || forall b | b in fills :: b
  }

  /** The risk state and the log entry that handling one opportunity leaves. */
  function Handled(mode: Mode, minimums: map<string, real>, s: RiskState, o: Opportunity, w: World): (RiskState,
      Option<TradeLogEntry>) {
    var gated := s.Rolled(w.dayAtGate);
    if !gated.Allows(Some(o)) || mode == Monitor then (gated, None)
    else
      var committed, size := gated.WithCommitted(o), SizeFor(gated.limits, o, w.books, minimums, MAX_SLIPPAGE_PCT);
      if !PaysNow(w.books, o, size) then (committed.WithFreed(o), None)
      else
        var ok := Succeeds(mode, w.fills);
        var pnl := if ok then EstimatedPnl(size, NetPctNow(w.books, o.legs, size)) else 0.0;
        (committed.WithResult(w.dayAtRecord, o, pnl, ok), Some(TradeLogEntry(o, mode, if ok then Some(pnl) else None)))
  }

  class Executor {
    const risk: RiskManager
    const minimums: map<string, real>
    var mode: Mode
    var tradeLog: seq<TradeLogEntry>

    constructor (risk: RiskManager, minimums: map<string, real>, mode: Mode)
      ensures this.risk == risk && this.minimums == minimums && this.mode == mode && tradeLog == []
    {
      this.risk, this.minimums, this.mode, tradeLog := risk, minimums, mode, [];
    }

    /** Simulates or fires the trade on committed capital; returns whether a result was recorded. */
    method Attempt(o: Opportunity, w: World) returns (traded: bool)
      modifies this`tradeLog, risk
      ensures var s, size := old(risk.State()), SizeFor(old(risk.limits), o, w.books, minimums, MAX_SLIPPAGE_PCT);
              && (traded <==> PaysNow(w.books, o, size))
              && (!traded ==> tradeLog == old(tradeLog) && risk.State() == s)
              && (traded ==>
                    var ok := Succeeds(mode, w.fills);
                    var pnl := if ok then EstimatedPnl(size, NetPctNow(w.books, o.legs, size)) else 0.0;
                    && tradeLog == old(tradeLog) + [TradeLogEntry(o, mode, if ok then Some(pnl) else None)]
                    && risk.State() == s.WithResult(w.dayAtRecord, o, pnl, ok))
    {
      hide SizeFor, Priceable, NetPctNow, RiskState.WithResult, EstimatedPnl;
      var sizeUsd := risk.SizeWithDepthCheck(o, w.books, minimums, MAX_SLIPPAGE_PCT);
      if sizeUsd <= 0.0 {
        return false;
      }
      var still, netPct := ReverifyProfitability(w.books, o.legs, sizeUsd);
      if !still {
        return false;
      }
      var ok := Succeeds(mode, w.fills);
      var pnl := if ok then EstimatedPnl(sizeUsd, netPct) else 0.0;
      risk.RecordResult(w.dayAtRecord, o, pnl, ok);
      var entry := TradeLogEntry(o, mode, if ok then Some(pnl) else None);
      tradeLog := tradeLog + [entry];
      traded := true;
    }

    /** Gate, commit, attempt, and hand back whatever did not trade. */
    method Handle(o: Opportunity, w: World)
      modifies this`tradeLog, risk
      ensures var (s, entry) := Handled(mode, minimums, old(risk.State()), o, w);
              risk.State() == s && tradeLog == old(tradeLog) + (if entry.Some? then [entry.value] else [])
    {
      hide SizeFor, PaysNow, RiskState.WithResult, RiskState.WithCommitted, RiskState.WithFreed, RiskState.Allows,
          EstimatedPnl;
      var allowed := risk.CanTrade(w.dayAtGate, Some(o));
      if !allowed {
        return;
      }
      if mode == Monitor {
        return;
      }
      SameLimits(risk.State(), o);
      risk.Commit(o);
      var traded := Attempt(o, w);
      if !traded {
        risk.Release(o);
      }
    }
  }

  lemma SameLimits(s: RiskState, o: Opportunity)
    ensures s.WithCommitted(o).limits == s.limits
  {
  }

  /**
   * Whichever path a trade takes, the capital deployed before is the capital deployed after, unless a day roll
   * clears it.
   */
  lemma HandledNeutral(mode: Mode, minimums: map<string, real>, s: RiskState, o: Opportunity, w: World)
    requires NonNegativeExposure(s.exposure) && o.maxSizeUsd >= 0.0
    ensures var after := Handled(mode, minimums, s, o, w).0;
            if s.day == after.day == w.dayAtGate then SameExposure(after.exposure, s.exposure) else Idle(after.exposure)
    ensures Idle(s.exposure) ==> Idle(Handled(mode, minimums, s, o, w).0.exposure)
  {
    hide SizeFor, PaysNow, Committed, Freed, RiskState.Allows, NetPctNow;
    var gated := s.Rolled(w.dayAtGate);
    EmptyIdle();
    CommitFreeNeutral(gated.exposure, o);
    FreeEmpty(o);
    SameIdle(gated.WithCommitted(o).WithFreed(o).exposure, gated.exposure);
    hide Idle, NonNegativeExposure;
  }

  /**
   * A logged trade passed the gate and still paid at its size on the books of the moment. It succeeded on paper, or
   * when every leg order did, and then a hundred times its profit is the size times the re-verified percentage.
   */
  lemma HandledTradePays(mode: Mode, minimums: map<string, real>, s: RiskState, o: Opportunity, w: World)
    requires Handled(mode, minimums, s, o, w).1.Some?
    ensures s.Rolled(w.dayAtGate).Allows(Some(o)) && mode != Monitor
    ensures var size, entry := SizeFor(s.limits, o, w.books, minimums, 0.1), Handled(mode, minimums, s, o, w).1.value;
            && 0.0 < size <= o.maxSizeUsd && PaysNow(w.books, o, size)
            && entry.opportunity == o && entry.mode == mode
            && (entry.pnlUsd.Some? <==> mode == Paper || forall filled | filled in w.fills :: filled)
            && (entry.pnlUsd.Some? ==>
                  entry.pnlUsd.value > 0.0 && 100.0 * entry.pnlUsd.value
                      == Product(size, NetPctNow(w.books, o.legs, size)))
  {
    var size := SizeFor(s.limits, o, w.books, minimums, 0.1);
    SizeIsSafe(s.limits, o, w.books, minimums, 0.1);
    hide SizeFor, RiskState.Allows, Priceable, NetPctNow;
    assert PaysNow(w.books, o, size);
    hide PaysNow;
    Percentage(size, NetPctNow(w.books, o.legs, size));
    hide EstimatedPnl, Product, RiskState.WithResult, RiskState.WithCommitted, RiskState.WithFreed;
  }

  lemma Percentage(size: real, netPct: real)
    requires size > 0.0 && netPct > 0.0
    ensures EstimatedPnl(size, netPct) > 0.0 && 100.0 * EstimatedPnl(size, netPct) == Product(size, netPct)
  {
  }

  /**
   * What handling leaves in the counters is one check of the gate and, exactly for a logged trade, one recorded
   * result: the logged profit, or a failure at zero.
   */
  lemma HandledHistory(mode: Mode, minimums: map<string, real>, s: RiskState, o: Opportunity, w: World)
    ensures var (after, entry) := Handled(mode, minimums, s, o, w);
            after.(exposure := EMPTY) == After(s, EventsOf(o, w, entry)).(exposure := EMPTY)
  {
    var (after, entry) := Handled(mode, minimums, s, o, w);
    hide SizeFor, PaysNow, RiskState.Allows, NetPctNow, EstimatedPnl, Committed, Freed;
    AfterOne(s, [], Checked(w.dayAtGate));
    assert [] + [Checked(w.dayAtGate)] == [Checked(w.dayAtGate)];
    if entry.Some? {
      AfterOne(s, [Checked(w.dayAtGate)], ResultOf(o, w, entry.value));
    }
  }

  function ResultOf(o: Opportunity, w: World, entry: TradeLogEntry): Event {
    match entry.pnlUsd
    case Some(pnl) => Recorded(w.dayAtRecord, o, pnl, true)
    case None => Recorded(w.dayAtRecord, o, 0.0, false)
  }

  function EventsOf(o: Opportunity, w: World, entry: Option<TradeLogEntry>): seq<Event> {
    [Checked(w.dayAtGate)] + (if entry.Some? then [ResultOf(o, w, entry.value)] else [])
  }

  /** With the failure breaker open nothing is recorded and the breaker stays open, on this day or any later one. */
  lemma HandledTripped(mode: Mode, minimums: map<string, real>, s: RiskState, o: Opportunity, w: World)
    requires s.failures >= s.limits.maxConsecutiveFailures
    ensures var (after, entry) := Handled(mode, minimums, s, o, w);
            entry == None && after.failures == s.failures && after.limits == s.limits
  {
  }

  lemma EmptyIdle()
    ensures Idle(EMPTY) && NonNegativeExposure(EMPTY)
  {
  }

  lemma IdleNonNegative(x: Exposure)
    ensures Idle(x) ==> NonNegativeExposure(x)
  {
  }

  lemma SameIdle(x: Exposure, y: Exposure)
    ensures SameExposure(x, y) && Idle(y) ==> Idle(x)
  {
  }
}
