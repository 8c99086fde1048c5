/** What the circuit breakers have seen: the counters are sums over the history of checks and results. */
module RiskHistory {
  import opened Collections
  import opened Symbols
  import opened RiskLedger
  import opened Risk

  /** A check of the gate, or a result recorded, each on its date. */
  datatype Event = Checked(day: int) | Recorded(day: int, opportunity: Opportunity, pnlUsd: real, success: bool)

  function Next(s: RiskState, e: Event): RiskState {
    match e
    case Checked(day) => s.Rolled(day)
    case Recorded(day, o, pnlUsd, success) => s.WithResult(day, o, pnlUsd, success)
  }

  function After(s: RiskState, events: seq<Event>): RiskState {
    if events == [] then s else Next(After(s, events[..|events| - 1]), events[|events| - 1])
  }

  /** How many results a history holds, and what they add up to. */
  function Results(events: seq<Event>): nat {
    if events == [] then 0
    else Results(events[..|events| - 1]) + (if events[|events| - 1].Recorded? then 1 else 0)
  }

  function ProfitOf(events: seq<Event>): real {
    if events == [] then 0.0
    else
      var last := events[|events| - 1];
      ProfitOf(events[..|events| - 1]) + (if last.Recorded? then last.pnlUsd else 0.0)
  }

  ghost predicate NoSuccess(events: seq<Event>) {
    forall e | e in events && e.Recorded? :: !e.success
  }

  ghost predicate AllOn(events: seq<Event>, day: int) {
    forall e | e in events :: e.day == day
  }

  lemma AfterOne(s: RiskState, events: seq<Event>, e: Event)
    ensures After(s, events + [e]) == Next(After(s, events), e)
  {
    hide Next;
    assert (events + [e])[..|events|] == events;
  }

  lemma AfterNext(s: RiskState, before: seq<Event>, more: seq<Event>)
    requires more != []
    ensures var init, last := more[..|more| - 1], more[|more| - 1];
            && After(s, before + more) == Next(After(s, before + init), last)
            && more == init + [last] && last in more && forall e | e in init :: e in more
  {
    var init, last := more[..|more| - 1], more[|more| - 1];
    assert more == init + [last] && before + more == before + init + [last];
    AfterOne(s, before + init, last);
    hide After, Next;
  }

  /** Without a success in between, every recorded result is one more failure. */
  lemma {:induction false} FailuresAdd(s: RiskState, before: seq<Event>, since: seq<Event>)
    requires NoSuccess(since)
    ensures After(s, before + since).failures == After(s, before).failures + Results(since)
    decreases |since|
  {
    if since == [] {
      assert before + since == before;
    } else {
      AfterNext(s, before, since);
      FailuresAdd(s, before, since[..|since| - 1]);
    }
  }

  /** The failure count is the number of results since the last success. */
  lemma FailuresSinceSuccess(s: RiskState, events: seq<Event>, i: nat)
    requires i <= |events| && NoSuccess(events[i..])
    requires i == 0 || (events[i - 1].Recorded? && events[i - 1].success)
    ensures After(s, events).failures == Results(events[i..]) + (if i == 0 then s.failures else 0)
  {
    assert events == events[..i] + events[i..];
    FailuresAdd(s, events[..i], events[i..]);
    if i > 0 {
      assert events[..i][..i - 1] == events[..i - 1];
    }
  }

  /** One event of a date, counted from what the state before it holds of that date. */
  lemma EventAdds(s: RiskState, e: Event)
    ensures var start, end := s.Rolled(e.day), Next(s, e);
            && end.day == e.day && end.Rolled(e.day) == end && end.limits == start.limits
            && end.pnlUsd == start.pnlUsd + (if e.Recorded? then e.pnlUsd else 0.0)
            && end.tradeCount == start.tradeCount + (if e.Recorded? then 1 else 0)
  {
    hide Freed;
  }

  /** Events of one date add up, from whatever the state before them holds of that date. */
  lemma {:induction false} DayAdds(s: RiskState, before: seq<Event>, today: seq<Event>, day: int)
    requires today != [] && AllOn(today, day)
    ensures var start, end := After(s, before).Rolled(day), After(s, before + today);
            && end.day == day && end.Rolled(day) == end && end.limits == start.limits
            && end.pnlUsd == start.pnlUsd + ProfitOf(today) && end.tradeCount == start.tradeCount + Results(today)
    decreases |today|
  {
    hide *;
    AfterNext(s, before, today);
    var init, last := today[..|today| - 1], today[|today| - 1];
    OneMoreOf(init, last, day);
    EventAdds(After(s, before + init), last);
    if init == [] {
      assert before + init == before;
      NothingAdds();
    } else {
      DayAdds(s, before, init, day);
    }
  }

  lemma OneMoreOf(init: seq<Event>, last: Event, day: int)
    requires AllOn(init + [last], day)
    ensures AllOn(init, day) && last.day == day
    ensures ProfitOf(init + [last]) == ProfitOf(init) + (if last.Recorded? then last.pnlUsd else 0.0)
    ensures Results(init + [last]) == Results(init) + (if last.Recorded? then 1 else 0)
  {
    var all := init + [last];
    assert all[..|init|] == init && last in all && forall e | e in init :: e in all;
  }

  lemma NothingAdds()
    ensures ProfitOf([]) == 0.0 && Results([]) == 0
  {
  }

  /** The day's profit and trade count are those of the results recorded since the date last changed. */
  lemma DayTotals(s: RiskState, events: seq<Event>, j: nat, day: int)
    requires j < |events| && AllOn(events[j..], day) && (j == 0 || events[j - 1].day != day)
    ensures var newDay, end := j > 0 || s.day != day, After(s, events);
            && end.day == day
            && end.pnlUsd == ProfitOf(events[j..]) + (if newDay then 0.0 else s.pnlUsd)
            && end.tradeCount == Results(events[j..]) + (if newDay then 0 else s.tradeCount)
  {
    assert events == events[..j] + events[j..];
    DayAdds(s, events[..j], events[j..], day);
    if j > 0 {
      OnItsDay(s, events[..j]);
    }
  }

  lemma OnItsDay(s: RiskState, events: seq<Event>)
    requires events != []
    ensures After(s, events).day == events[|events| - 1].day
  {
  }

  lemma {:induction false} LimitsStay(s: RiskState, events: seq<Event>)
    ensures After(s, events).limits == s.limits
  {
    if events != [] {
      LimitsStay(s, events[..|events| - 1]);
    }
  }

  /**
   * From a fresh manager, after any history whose last check is on `day`: trading is allowed exactly when it is
   * not stopped, the results of that date lose less than the loss limit and number fewer than the trade limit,
   * and fewer results than the failure limit came since the last success.
   */
  lemma OpenIff(s: RiskState, events: seq<Event>, i: nat, j: nat, day: int)
    requires s.pnlUsd == 0.0 && s.tradeCount == 0 && s.failures == 0
    requires i <= |events| && NoSuccess(events[i..])
    requires i == 0 || (events[i - 1].Recorded? && events[i - 1].success)
    requires j < |events| && AllOn(events[j..], day) && (j == 0 || events[j - 1].day != day)
    ensures After(s, events).Allows(None) <==>
            && !s.limits.emergencyStop
            && ProfitOf(events[j..]) > -Magnitude(s.limits.dailyLossLimitUsd)
            && Results(events[j..]) < s.limits.maxTradesPerDay
            && Results(events[i..]) < s.limits.maxConsecutiveFailures
  {
    FailuresSinceSuccess(s, events, i);
    DayTotals(s, events, j, day);
    LimitsStay(s, events);
  }

  function Magnitude(x: real): (m: real)
    ensures m >= 0.0 && (m == x || m == -x)
  {
    if x < 0.0 then -x else x
  }

  lemma {:induction false} FailuresNatural(s: RiskState, events: seq<Event>)
    requires s.failures >= 0
    ensures After(s, events).failures >= 0
  {
    if events != [] {
      FailuresNatural(s, events[..|events| - 1]);
    }
  }

  /** After as many failed results in a row as the limit allows, nothing may trade, on that date or any other. */
  lemma FailuresHalt(s: RiskState, before: seq<Event>, since: seq<Event>, day: int, x: Option<Opportunity>)
    requires s.failures >= 0 && NoSuccess(since) && Results(since) >= s.limits.maxConsecutiveFailures
    ensures !After(s, before + since).Rolled(day).Allows(x)
  {
    FailuresNatural(s, before);
    FailuresAdd(s, before, since);
    LimitsStay(s, before + since);
  }
}
