/** The per-tick loop: select, execute, then settle or release each accepted opportunity. */
module Engine {
  import opened Collections
  import opened Sorting
  import opened Symbols
  import opened Inventory
  import opened Routing
  import opened RiskLedger
  import opened Risk
  import opened RiskHistory
  import opened Execution

  /** Free and locked together are the same in every slot. */
  ghost predicate SameHoldings(l: Ledger, m: Ledger) {
    forall slot :: BalanceAt(l, slot).Total() == BalanceAt(m, slot).Total()
  }

  lemma LockKeepsHoldings(l: Ledger, rs: seq<Reservation>)
    ensures SameHoldings(LockAll(l, rs), l)
  {
    hide LockAll, SumAt, BalanceAt;
    forall slot ensures BalanceAt(LockAll(l, rs), slot).Total() == BalanceAt(l, slot).Total() {
      LockAllAt(l, rs, slot);
    }
  }

  lemma {:induction false} SelectKeepsHoldings(l: Ledger, ranked: seq<Candidate>)
    ensures SameHoldings(Considered(l, ranked), l)
  {
    if ranked == [] {
    } else {
      var n := |ranked| - 1;
      assert ranked[..n + 1] == ranked;
      ConsideredNext(l, ranked, n);
      SelectKeepsHoldings(l, ranked[..n]);
      LockKeepsHoldings(Considered(l, ranked[..n]), Needs(ranked[n].opportunity.legs));
      HoldingsChain(Considered(l, ranked), Considered(l, ranked[..n]), l);
      hide *;
    }
  }

  lemma HoldingsChain(a: Ledger, b: Ledger, c: Ledger)
    ensures SameHoldings(a, b) && SameHoldings(b, c) ==> SameHoldings(a, c)
  {
  }

  lemma {:induction false} AcceptedCount(l: Ledger, ranked: seq<Candidate>)
    ensures |AcceptedOf(l, ranked)| <= |ranked|
  {
    if ranked != [] {
      AcceptedCount(l, ranked[..|ranked| - 1]);
    }
  }

  lemma HoldingsRefl(l: Ledger)
    ensures SameHoldings(l, l)
  {
  }

  lemma HeadRemoved<T>(s: seq<T>, x: T)
    requires s != [] && s[0] == x
    ensures Without(s, x) == s[1..] && Without([], x) == []
  {
  }

  /** Selected candidates are among those offered, each once. */
  lemma {:induction false} AcceptedAmong(l: Ledger, ranked: seq<Candidate>)
    requires Distinct(ranked)
    ensures Distinct(AcceptedOf(l, ranked)) && forall k | 0 <= k < |AcceptedOf(l, ranked)| ::
            AcceptedOf(l, ranked)[k] in ranked
  {
    if ranked != [] {
      var n := |ranked| - 1;
      AcceptedAmong(l, ranked[..n]);
      ConsideredNext(l, ranked, n);
      assert ranked[..n + 1] == ranked;
      var before := AcceptedOf(l, ranked[..n]);
      hide Considered, AcceptedOf, Fits, Needs;
      forall k | 0 <= k < |before| ensures before[k] != ranked[n] && before[k] in ranked {
        var j :| 0 <= j < n && ranked[..n][j] == before[k];
        assert ranked[j] == before[k];
      }
    }
  }

  function AllOf(ticks: seq<seq<Candidate>>): set<Candidate> {
    if ticks == [] then {} else (set c | c in ticks[0]) + AllOf(ticks[1..])
  }

  lemma {:induction false} AllOfIncludes(ticks: seq<seq<Candidate>>, t: nat)
    requires t < |ticks|
    ensures forall c | c in ticks[t] :: c in AllOf(ticks)
  {
    if t > 0 {
      AllOfIncludes(ticks[1..], t - 1);
    }
  }

  lemma HandledIdle(mode: Mode, minimums: map<string, real>, s: RiskState, o: Opportunity, w: World)
    requires o.maxSizeUsd >= 0.0
    ensures Idle(s.exposure) ==> Idle(Handled(mode, minimums, s, o, w).0.exposure)
  {
    hide Handled;
    if Idle(s.exposure) {
      IdleNonNegative(s.exposure);
      HandledNeutral(mode, minimums, s, o, w);
    }
  }

  lemma HandledStaysTripped(mode: Mode, minimums: map<string, real>, s: RiskState, o: Opportunity, w: World)
    ensures Tripped(s) ==> Handled(mode, minimums, s, o, w).1 == None && Tripped(Handled(mode, minimums, s, o, w).0)
  {
  }

  /** What a tick works on: the risk state, the trade log and the ledger. */
  datatype Desk = Desk(risk: RiskState, log: seq<TradeLogEntry>, ledger: Ledger)

  /** The ledger once a reserved route is filled: its reservations spent and its receipts credited. */
  function FilledLedger(l: Ledger, o: Opportunity): Ledger {
    if Needs(o.legs) == [] then l else CreditAll(SettleAll(l, Needs(o.legs)), o.legs)
  }

  /** One opportunity handled and, if it holds reservations, settled or released. */
  function Resolved(mode: Mode, minimums: map<string, real>, b: Desk, o: Opportunity, w: World, reserved: bool): Desk {
    var (risk, entry) := Handled(mode, minimums, b.risk, o, w);
    Desk(risk, b.log + (if entry.Some? then [entry.value] else []),
          if !reserved then b.ledger else if entry.Some? then FilledLedger(b.ledger, o)
              else ReleaseAll(b.ledger, Needs(o.legs)))
  }

  /**
   * Any two logged trades of one opportunity settle alike, in whatever mode, at whatever size and whichever
   * of their legs filled; a live one has a profit in the log exactly when all legs filled.
   */
  lemma SettledAlike(mode: Mode, minimums: map<string, real>, b: Desk, w: World,
                     mode': Mode, minimums': map<string, real>, b': Desk, w': World, o: Opportunity)
    requires b.ledger == b'.ledger
    requires Handled(mode, minimums, b.risk, o, w).1.Some? && Handled(mode', minimums', b'.risk, o, w').1.Some?
    ensures Resolved(mode, minimums, b, o, w, true).ledger == FilledLedger(b.ledger, o)
    ensures Resolved(mode, minimums, b, o, w, true).ledger == Resolved(mode', minimums', b', o, w', true).ledger
    ensures mode == Live ==>
              (Handled(mode, minimums, b.risk, o, w).1.value.pnlUsd.Some? <==> forall filled | filled in w.fills ::
               filled)
  {
    hide SizeFor, PaysNow, FilledLedger, RiskState.WithResult, RiskState.Allows;
  }

  function ResolvedAll(mode: Mode, minimums: map<string, real>, b: Desk, cs: seq<Candidate>, worlds: seq<World>,
                       reserved: bool): Desk
    requires |cs| <= |worlds|
  {
    if cs == [] then b
    else
      var n := |cs| - 1;
      Resolved(mode, minimums, ResolvedAll(mode, minimums, b, cs[..n], worlds, reserved), cs[n].opportunity, worlds[n],
               reserved)
  }

  lemma ResolvedNext(mode: Mode, minimums: map<string, real>, b: Desk, cs: seq<Candidate>, worlds: seq<World>,
                     reserved: bool, k: nat)
    requires k < |cs| <= |worlds|
    ensures ResolvedAll(mode, minimums, b, cs[..k + 1], worlds, reserved)
            == Resolved(mode, minimums, ResolvedAll(mode, minimums, b, cs[..k], worlds, reserved), cs[k].opportunity,
                        worlds[k], reserved)
  {
    assert cs[..k + 1][..k] == cs[..k];
  }

  lemma ResolvedNone(mode: Mode, minimums: map<string, real>, b: Desk, worlds: seq<World>, reserved: bool)
    ensures ResolvedAll(mode, minimums, b, [], worlds, reserved) == b
  {
  }

  /** The candidates a tick executes: all of them when monitoring, else those that can be reserved, best first. */
  ghost function Executed(mode: Mode, l: Ledger, candidates: seq<Candidate>): (cs: seq<Candidate>)
    ensures |cs| <= |candidates|
  {
    if mode == Monitor then candidates
    else
      AcceptedCount(l, SortBy(candidates, HigherValueFirst));
      AcceptedOf(l, SortBy(candidates, HigherValueFirst))
  }

  ghost function Selected(mode: Mode, b: Desk, candidates: seq<Candidate>): Desk {
    if mode == Monitor then b else b.(ledger := Considered(b.ledger, SortBy(candidates, HigherValueFirst)))
  }

  /** The failure breaker is open. */
  predicate Tripped(s: RiskState) {
    s.failures >= s.limits.maxConsecutiveFailures
  }

  /** The desk after one tick, and after a run of ticks. */
  ghost function Ticked(mode: Mode, minimums: map<string, real>, b: Desk, candidates: seq<Candidate>,
                        worlds: seq<World>): Desk
    requires |candidates| <= |worlds|
  {
    ResolvedAll(mode, minimums, Selected(mode, b, candidates), Executed(mode, b.ledger, candidates), worlds,
                mode != Monitor)
  }

  ghost predicate WorldsGiven(ticks: seq<seq<Candidate>>, worlds: seq<seq<World>>) {
    |worlds| == |ticks| && forall t | 0 <= t < |ticks| :: |worlds[t]| == |ticks[t]|
  }

  ghost function Ran(minimums: map<string, real>, b: Desk, ticks: seq<seq<Candidate>>, worlds: seq<seq<World>>,
                     modes: seq<Mode>): Desk
    requires WorldsGiven(ticks, worlds) && |modes| == |ticks|
  {
    if ticks == [] then b
    else
      var n := |ticks| - 1;
      Ticked(modes[n], minimums, Ran(minimums, b, ticks[..n], worlds[..n], modes[..n]), ticks[n], worlds[n])
  }

  lemma RanNext(minimums: map<string, real>, b: Desk, ticks: seq<seq<Candidate>>, worlds: seq<seq<World>>,
                modes: seq<Mode>, t: nat)
    requires WorldsGiven(ticks, worlds) && |modes| == |ticks| && t < |ticks|
    ensures WorldsGiven(ticks[..t], worlds[..t]) && WorldsGiven(ticks[..t + 1], worlds[..t + 1])
    ensures Ran(minimums, b, ticks[..t + 1], worlds[..t + 1], modes[..t + 1])
            == Ticked(modes[t], minimums, Ran(minimums, b, ticks[..t], worlds[..t], modes[..t]), ticks[t], worlds[t])
  {
    hide Ticked;
    assert ticks[..t + 1][..t] == ticks[..t] && worlds[..t + 1][..t] == worlds[..t];
    assert modes[..t + 1][..t] == modes[..t];
  }

  lemma RanNone(minimums: map<string, real>, b: Desk)
    ensures Ran(minimums, b, [], [], []) == b
  {
  }

  function ChecksOf(worlds: seq<World>): (events: seq<Event>)
    ensures |events| == |worlds| && forall k | 0 <= k < |events| :: events[k] == Checked(worlds[k].dayAtGate)
  {
    seq(|worlds|, k requires 0 <= k < |worlds| => Checked(worlds[k].dayAtGate))
  }

  /**
   * Monitoring checks the gate once for every candidate and does nothing else: no trade, no reservation, no
   * release.
   */
  lemma MonitorOnlyChecks(minimums: map<string, real>, b: Desk, candidates: seq<Candidate>, worlds: seq<World>)
    requires |candidates| == |worlds|
    ensures Ticked(Monitor, minimums, b, candidates, worlds) == b.(risk := After(b.risk, ChecksOf(worlds)))
  {
    AllChecked(minimums, b, candidates, worlds);
    assert worlds[..|candidates|] == worlds;
  }

  lemma {:induction false} AllChecked(minimums: map<string, real>, b: Desk, cs: seq<Candidate>, worlds: seq<World>)
    requires |cs| <= |worlds|
    ensures ResolvedAll(Monitor, minimums, b, cs, worlds, false)
            == b.(risk := After(b.risk, ChecksOf(worlds[..|cs|])))
  {
    if cs != [] {
      var n := |cs| - 1;
      AllChecked(minimums, b, cs[..n], worlds);
      assert ChecksOf(worlds[..n + 1]) == ChecksOf(worlds[..n]) + [Checked(worlds[n].dayAtGate)];
      AfterOne(b.risk, ChecksOf(worlds[..n]), Checked(worlds[n].dayAtGate));
      MonitorResolved(minimums, ResolvedAll(Monitor, minimums, b, cs[..n], worlds, false), cs[n].opportunity,
                      worlds[n]);
      hide Resolved, After;
    } else {
      assert ChecksOf(worlds[..0]) == [];
    }
  }

  lemma MonitorResolved(minimums: map<string, real>, b: Desk, o: Opportunity, w: World)
    ensures Resolved(Monitor, minimums, b, o, w, false) == b.(risk := b.risk.Rolled(w.dayAtGate))
  {
  }

  /** How many trades in a row, at the end of the log, had a failed leg. */
  function FailedRun(log: seq<TradeLogEntry>): nat {
    if log == [] || log[|log| - 1].pnlUsd.Some? then 0 else FailedRun(log[..|log| - 1]) + 1
  }

  /**
   * The failure count is the number of failed trades at the end of the log, and no trade was logged when that
   * many in a row had failed.
   */
  ghost predicate Disciplined(b: Desk) {
    && b.risk.failures == FailedRun(b.log)
    && forall k | 0 <= k < |b.log| :: FailedRun(b.log[..k]) < b.risk.limits.maxConsecutiveFailures
  }

  lemma HandledCounts(mode: Mode, minimums: map<string, real>, s: RiskState, o: Opportunity, w: World)
    ensures var (after, entry) := Handled(mode, minimums, s, o, w);
            && after.limits == s.limits
            && match entry
               case None => after.failures == s.failures
               case Some(e) => s.failures < s.limits.maxConsecutiveFailures
                               && after.failures == if e.pnlUsd.Some? then 0 else s.failures + 1
  {
    hide SizeFor, PaysNow, Committed, Freed, EstimatedPnl, Admits;
  }

  lemma ResolvedDisciplined(mode: Mode, minimums: map<string, real>, b: Desk, o: Opportunity, w: World, reserved: bool)
    requires Disciplined(b)
    ensures Disciplined(Resolved(mode, minimums, b, o, w, reserved))
  {
    HandledCounts(mode, minimums, b.risk, o, w);
    var (after, entry) := Handled(mode, minimums, b.risk, o, w);
    hide Handled, FilledLedger, ReleaseAll;
    match entry
    case None => assert b.log + [] == b.log;
    case Some(e) =>
      assert (b.log + [e])[..|b.log|] == b.log;
      assert forall k | 0 <= k < |b.log| :: (b.log + [e])[..k] == b.log[..k];
  }

  lemma {:induction false} AllDisciplined(mode: Mode, minimums: map<string, real>, b: Desk, cs: seq<Candidate>,
                                          worlds: seq<World>, reserved: bool)
    requires |cs| <= |worlds| && Disciplined(b)
    ensures Disciplined(ResolvedAll(mode, minimums, b, cs, worlds, reserved))
  {
    hide Disciplined, Resolved;
    if cs != [] {
      var n := |cs| - 1;
      AllDisciplined(mode, minimums, b, cs[..n], worlds, reserved);
      ResolvedDisciplined(mode, minimums, ResolvedAll(mode, minimums, b, cs[..n], worlds, reserved),
                          cs[n].opportunity, worlds[n], reserved);
    }
  }

  lemma {:induction false} RanDisciplined(minimums: map<string, real>, b: Desk, ticks: seq<seq<Candidate>>,
                                          worlds: seq<seq<World>>, modes: seq<Mode>)
    requires WorldsGiven(ticks, worlds) && |modes| == |ticks| && Disciplined(b)
    ensures Disciplined(Ran(minimums, b, ticks, worlds, modes))
  {
    if ticks != [] {
      var n := |ticks| - 1;
      RanDisciplined(minimums, b, ticks[..n], worlds[..n], modes[..n]);
      var before := Ran(minimums, b, ticks[..n], worlds[..n], modes[..n]);
      assert Disciplined(Selected(modes[n], before, ticks[n]));
      hide Disciplined, Executed, Selected;
      AllDisciplined(modes[n], minimums, Selected(modes[n], before, ticks[n]),
                     Executed(modes[n], before.ledger, ticks[n]), worlds[n], modes[n] != Monitor);
    }
  }

  lemma {:induction false} FailedAtEnd(log: seq<TradeLogEntry>, n: nat)
    requires n <= |log| && forall k | |log| - n <= k < |log| :: log[k].pnlUsd == None
    ensures FailedRun(log) >= n
  {
    if n > 0 {
      FailedAtEnd(log[..|log| - 1], n - 1);
    }
  }

  /** As many failed trades in a row as the limit allows are the last ones ever logged. */
  lemma NothingAfterFailures(b: Desk, i: nat, n: nat)
    requires Disciplined(b) && i + n <= |b.log| && n >= b.risk.limits.maxConsecutiveFailures
    requires forall k | i <= k < i + n :: b.log[k].pnlUsd == None
    ensures i + n == |b.log| && Tripped(b.risk)
  {
    FailedAtEnd(b.log[..i + n], n);
    assert b.log[..|b.log|] == b.log;
  }

  class TradingEngine {
    const router: Router
    const executor: Executor

    constructor (router: Router, executor: Executor)
      ensures this.router == router && this.executor == executor
      ensures executor.tradeLog == [] && executor.risk.consecutiveFailures == 0 ==> Disciplined(State())
    {
      this.router, this.executor := router, executor;
    }

    function State(): Desk
      reads executor, executor.risk, router.inventory
    {
      Desk(executor.risk.State(), executor.tradeLog, router.inventory.balances)
    }

    /** What holds between ticks: no reservation outstanding, nothing locked, no capital deployed. */
    ghost predicate AtRest()
      reads router, router.inventory, router.open, executor, executor.risk
    {
      router.Valid() && router.open == [] && Idle(executor.risk.exposure)
    }

    lemma AtRestMeans()
      requires AtRest()
      ensures router.open == [] && router.lists == []
      ensures forall slot ::
                BalanceAt(router.inventory.balances, slot).locked == 0.0
                    && BalanceAt(router.inventory.balances, slot).free >= 0.0
      ensures forall key ::
                At(executor.risk.exposure.strategy, key) == 0.0 && At(executor.risk.exposure.venue, key) == 0.0
    {
    }

    /** Executes one accepted candidate and resolves its reservations one way or the other. */
    method ExecuteOne(c: Candidate, w: World) returns (traded: bool)
      requires router.Valid() && (c in router.open || c.reservations == None) && c.opportunity.maxSizeUsd >= 0.0
      modifies router, router.inventory, c, executor`tradeLog, executor.risk
      ensures router.Valid() && c.reservations == None && router.open == Without(old(router.open), c)
      ensures State() == Resolved(executor.mode, executor.minimums, old(State()), c.opportunity, w,
                                  c in old(router.open))
      ensures old(executor.tradeLog) <= executor.tradeLog && (traded <==> executor.tradeLog != old(executor.tradeLog))
      ensures Idle(old(executor.risk.exposure)) ==> Idle(executor.risk.exposure)
      ensures old(Tripped(executor.risk.State())) ==> !traded && Tripped(executor.risk.State())
      ensures !traded ==> SameHoldings(router.inventory.balances, old(router.inventory.balances))
    {
      hide Router.Valid, Handled, Idle, Tripped, SameHoldings, FilledLedger, ReleaseAll, Needs, Without;
      ghost var state := executor.risk.State();
      var tradesBefore := |executor.tradeLog|;
      HandledIdle(executor.mode, executor.minimums, state, c.opportunity, w);
      HandledStaysTripped(executor.mode, executor.minimums, state, c.opportunity, w);
      executor.Handle(c.opportunity, w);
      traded := |executor.tradeLog| > tradesBefore;
      Resolve(c, traded);
    }

    /** Settles a filled candidate, releases one that did not trade. */
    method Resolve(c: Candidate, filled: bool)
      requires router.Valid() && (c in router.open || c.reservations == None)
      modifies router, router.inventory, c
      ensures router.Valid() && c.reservations == None && router.open == Without(old(router.open), c)
      ensures router.inventory.balances
              == if c !in old(router.open) then old(router.inventory.balances)
                 else if filled then FilledLedger(old(router.inventory.balances), c.opportunity)
                 else ReleaseAll(old(router.inventory.balances), Needs(c.opportunity.legs))
      ensures !filled ==> SameHoldings(router.inventory.balances, old(router.inventory.balances))
    {
      hide Router.Valid, ReleaseAll, SettleAll, CreditAll, Needs, Without, TotalOf, SumOf, CreditsOf, BalanceAt, SumAt;
      if filled {
        router.SettleFill(c);
      } else {
        router.ReleaseUnfilled(c);
      }
    }

    /** Candidates fresh from detection: distinct, unreserved, of non-negative size. */
    ghost predicate Fresh(candidates: seq<Candidate>)
      reads candidates
    {
      Distinct(candidates) && forall c | c in candidates :: c.reservations == None && c.opportunity.maxSizeUsd >= 0.0
    }

    /**
     * One tick. It ends as it began, at rest, whichever path each trade took; with the failure breaker
     * open it records no trade and leaves every balance as it was.
     */
    method Tick(candidates: seq<Candidate>, worlds: seq<World>)
      requires AtRest() && Fresh(candidates) && |worlds| == |candidates|
      modifies router, router.inventory, candidates, executor`tradeLog, executor.risk
      ensures AtRest() && Fresh(candidates)
      ensures State() == Ticked(executor.mode, executor.minimums, old(State()), candidates, worlds)
      ensures old(executor.tradeLog) <= executor.tradeLog
      ensures executor.tradeLog == old(executor.tradeLog)
              ==> SameHoldings(router.inventory.balances, old(router.inventory.balances))
      ensures old(Tripped(executor.risk.State()))
              ==> executor.tradeLog == old(executor.tradeLog) && Tripped(executor.risk.State())
    {
      hide Router.Valid, Considered, AcceptedOf, SameHoldings, SortBy, ResolvedAll, Idle, Distinct, Tripped;
      ghost var before := router.inventory.balances;
      HoldingsRefl(before);
      var toExecute := candidates;
      if executor.mode != Monitor {
        toExecute := SelectForTick(candidates);
      }
      ghost var selected := router.inventory.balances;
      assert forall k | 0 <= k < |toExecute| :: toExecute[k] in candidates;
      ExecuteAll(toExecute, worlds, executor.mode != Monitor);
      HoldingsChain(router.inventory.balances, selected, before);
    }

    /** Executes and resolves in order; `reserved` tells whether the candidates hold reservations. */
    method ExecuteAll(toExecute: seq<Candidate>, worlds: seq<World>, ghost reserved: bool)
      requires router.Valid() && Distinct(toExecute) && |toExecute| <= |worlds| && Idle(executor.risk.exposure)
      requires router.open == (if reserved then toExecute else [])
      requires forall j | 0 <= j < |toExecute| ::
               toExecute[j].opportunity.maxSizeUsd >= 0.0 && (reserved || toExecute[j].reservations == None)
      modifies router, router.inventory, toExecute, executor`tradeLog, executor.risk
      ensures router.Valid() && router.open == [] && Idle(executor.risk.exposure)
      ensures State() == ResolvedAll(executor.mode, executor.minimums, old(State()), toExecute, worlds, reserved)
      ensures forall j | 0 <= j < |toExecute| :: toExecute[j].reservations == None
      ensures old(executor.tradeLog) <= executor.tradeLog
      ensures executor.tradeLog == old(executor.tradeLog)
              ==> SameHoldings(router.inventory.balances, old(router.inventory.balances))
      ensures old(Tripped(executor.risk.State()))
              ==> executor.tradeLog == old(executor.tradeLog) && Tripped(executor.risk.State())
    {
      hide *;
      ghost var balances, log := router.inventory.balances, executor.tradeLog;
      HoldingsRefl(balances);
      ResolvedNone(executor.mode, executor.minimums, State(), worlds, reserved);
      assert toExecute[..0] == [];
      for k := 0 to |toExecute|
        invariant router.Valid() && Idle(executor.risk.exposure)
        invariant State() == ResolvedAll(executor.mode, executor.minimums, old(State()), toExecute[..k], worlds,
                                         reserved)
        invariant router.open == (if reserved then toExecute[k..] else [])
        invariant forall j | 0 <= j < |toExecute| :: (j < k || !reserved) ==> toExecute[j].reservations == None
        invariant log <= executor.tradeLog
        invariant executor.tradeLog == log ==> SameHoldings(router.inventory.balances, balances)
        invariant old(Tripped(executor.risk.State())) ==> executor.tradeLog == log && Tripped(executor.risk.State())
      {
        var c := toExecute[k];
        OnlyHere(toExecute, k);
        ResolvedNext(executor.mode, executor.minimums, old(State()), toExecute, worlds, reserved, k);
        HeadRemoved(toExecute[k..], c);
        ghost var before := router.inventory.balances;
        var traded := ExecuteOne(c, worlds[k]);
        HoldingsChain(router.inventory.balances, before, balances);
      }
      assert toExecute[..|toExecute|] == toExecute;
    }

    /** `router.select`, and what the rest of the tick needs to know of it. */
    method SelectForTick(candidates: seq<Candidate>) returns (toExecute: seq<Candidate>)
      requires router.Valid() && router.open == [] && Fresh(candidates)
      modifies router, router.inventory, candidates
      ensures router.Valid() && router.open == toExecute && Distinct(toExecute) && |toExecute| <= |candidates|
      ensures toExecute == AcceptedOf(old(router.inventory.balances), SortBy(candidates, HigherValueFirst))
      ensures router.inventory.balances
              == Considered(old(router.inventory.balances), SortBy(candidates, HigherValueFirst))
      ensures forall c | c in toExecute :: c in candidates
      ensures forall c | c in candidates :: c in toExecute || c.reservations == None
      ensures SameHoldings(router.inventory.balances, old(router.inventory.balances))
    {
      hide Router.Valid, Considered, AcceptedOf, SameHoldings;
      ghost var before := router.inventory.balances;
      toExecute := router.Select(candidates);
      ghost var ranked := SortBy(candidates, HigherValueFirst);
      DistinctByMultiset(candidates, ranked);
      AcceptedAmong(before, ranked);
      SelectKeepsHoldings(before, ranked);
      AcceptedCount(before, ranked);
      forall c | c in toExecute ensures c in candidates {
        SameMember(candidates, HigherValueFirst, c);
      }
    }

    /**
     * Any number of ticks, each in its own mode, over any days. The engine is at rest after them all,
     * and once the failure breaker is open no later tick of the run records a trade.
     */
    method RunTicks(ticks: seq<seq<Candidate>>, worlds: seq<seq<World>>, modes: seq<Mode>)
      requires AtRest() && |worlds| == |ticks| == |modes|
      requires forall t | 0 <= t < |ticks| :: Fresh(ticks[t]) && |worlds[t]| == |ticks[t]|
      modifies router, router.inventory, AllOf(ticks)
      modifies executor`tradeLog, executor`mode, executor.risk
      ensures AtRest() && forall t | 0 <= t < |ticks| :: Fresh(ticks[t])
      ensures WorldsGiven(ticks, worlds) && State() == Ran(executor.minimums, old(State()), ticks, worlds, modes)
      ensures old(executor.tradeLog) <= executor.tradeLog
      ensures old(Disciplined(State())) ==> Disciplined(State())
      ensures old(Tripped(executor.risk.State())) ==>
                executor.tradeLog == old(executor.tradeLog)
                    && SameHoldings(router.inventory.balances, old(router.inventory.balances))
    {
      assert WorldsGiven(ticks, worlds);
      ghost var start := State();
      hide TradingEngine.AtRest, SameHoldings, Ran, Ticked, Disciplined, WorldsGiven;
      ghost var balances, log := router.inventory.balances, executor.tradeLog;
      HoldingsRefl(balances);
      RanNone(executor.minimums, start);
      assert ticks[..0] == [] && worlds[..0] == [] && modes[..0] == [];
      for t := 0 to |ticks|
        invariant WorldsGiven(ticks[..t], worlds[..t])
        invariant State() == Ran(executor.minimums, start, ticks[..t], worlds[..t], modes[..t])
        invariant AtRest() && forall u | 0 <= u < |ticks| :: Fresh(ticks[u])
        invariant log <= executor.tradeLog
        invariant old(Tripped(executor.risk.State())) ==>
                    executor.tradeLog == log && Tripped(executor.risk.State())
                        && SameHoldings(router.inventory.balances, balances)
      {
        AllOfIncludes(ticks, t);
        RanNext(executor.minimums, start, ticks, worlds, modes, t);
        RunOne(ticks, t, worlds[t], modes[t], balances);
      }
      assert ticks[..|ticks|] == ticks && worlds[..|ticks|] == worlds && modes[..|ticks|] == modes;
      if Disciplined(start) {
        RanDisciplined(executor.minimums, start, ticks, worlds, modes);
      }
    }

    /** One tick of a run: the candidates of the other ticks stay fresh. */
    method RunOne(ticks: seq<seq<Candidate>>, t: nat, worlds: seq<World>, mode: Mode, ghost balances: Ledger)
      requires AtRest() && t < |ticks| && |worlds| == |ticks[t]| && forall u | 0 <= u < |ticks| :: Fresh(ticks[u])
      modifies router, router.inventory, ticks[t]
      modifies executor`tradeLog, executor`mode, executor.risk
      ensures AtRest() && forall u | 0 <= u < |ticks| :: Fresh(ticks[u])
      ensures State() == Ticked(mode, executor.minimums, old(State()), ticks[t], worlds)
      ensures old(executor.tradeLog) <= executor.tradeLog
      ensures old(Tripped(executor.risk.State()))
              ==> executor.tradeLog == old(executor.tradeLog) && Tripped(executor.risk.State())
      ensures executor.tradeLog == old(executor.tradeLog) && SameHoldings(old(router.inventory.balances), balances)
              ==> SameHoldings(router.inventory.balances, balances)
    {
      hide SameHoldings, Distinct, Ticked;
      ghost var before := router.inventory.balances;
      executor.mode := mode;
      Tick(ticks[t], worlds);
      HoldingsChain(router.inventory.balances, before, balances);
      forall u | 0 <= u < |ticks| ensures Fresh(ticks[u]) {
        forall c | c in ticks[u] ensures c.reservations == None && c.opportunity.maxSizeUsd >= 0.0 {
          assert c in ticks[t] || c.reservations == old(c.reservations);
        }
      }
    }
  }
}
