/** Deployed capital per strategy and per venue, as a value: what commits and releases add up to. */
module RiskLedger {
  import opened Collections
  import opened Symbols

  /** Configured caps; a missing entry falls back to the default. */
  datatype Limits = Limits(strategyCapitalUsd: map<string, real>, defaultStrategyCapitalUsd: real,
                           venueExposureUsd: map<string, real>, defaultVenueExposureUsd: real,
                           maxNotionalPerTradeUsd: real, dailyLossLimitUsd: real,
                           maxTradesPerDay: int, maxConsecutiveFailures: int, emergencyStop: bool) {
    function StrategyCap(strategy: string): real {
      if strategy in strategyCapitalUsd then strategyCapitalUsd[strategy] else defaultStrategyCapitalUsd
    }

    function VenueCap(venue: string): real {
      if venue in venueExposureUsd then venueExposureUsd[venue] else defaultVenueExposureUsd
    }
  }

  datatype Exposure = Exposure(strategy: map<string, real>, venue: map<string, real>)

  /** `dict.get(key, 0.0)` */
  function At(m: map<string, real>, key: string): real {
    if key in m then m[key] else 0.0
  }

  function AddLegs(m: map<string, real>, legs: seq<Leg>, size: real): map<string, real> {
    if legs == [] then m
    else
      var before, v := AddLegs(m, legs[..|legs| - 1], size), legs[|legs| - 1].venue;
      before[v := At(before, v) + size]
  }

  function AtLeastZero(x: real): real {
    if x > 0.0 then x else 0.0
  }

  function SubtractLegs(m: map<string, real>, legs: seq<Leg>, size: real): map<string, real> {
    if legs == [] then m
    else
      var before, v := SubtractLegs(m, legs[..|legs| - 1], size), legs[|legs| - 1].venue;
      before[v := AtLeastZero(At(before, v) - size)]
  }

  /** The exposure once an opportunity's notional is deployed: once for its strategy, once per leg for a venue. */
  function Committed(x: Exposure, o: Opportunity): Exposure {
    Exposure(x.strategy[o.strategy := At(x.strategy, o.strategy) + o.maxSizeUsd],
             AddLegs(x.venue, o.legs, o.maxSizeUsd))
  }

  /** The exposure once it is handed back, never below zero. */
  function Freed(x: Exposure, o: Opportunity): Exposure {
    Exposure(x.strategy[o.strategy := AtLeastZero(At(x.strategy, o.strategy) - o.maxSizeUsd)],
             SubtractLegs(x.venue, o.legs, o.maxSizeUsd))
  }

  /** The cap checks of `can_trade`: each leg's venue is checked on its own. */
  predicate Admits(limits: Limits, x: Exposure, o: Opportunity) {
    && At(x.strategy, o.strategy) + o.maxSizeUsd <= limits.StrategyCap(o.strategy)
    && forall l | l in o.legs :: At(x.venue, l.venue) + o.maxSizeUsd <= limits.VenueCap(l.venue)
  }

  /** How often a route visits a venue. */
  function Visits(legs: seq<Leg>, venue: string): nat {
    if legs == [] then 0 else Visits(legs[..|legs| - 1], venue) + (if legs[|legs| - 1].venue == venue then 1 else 0)
  }

  function Times(n: nat, size: real): real {
    n as real * size
  }

  lemma TimesNext(n: nat, size: real)
    ensures Times(n + 1, size) == Times(n, size) + size && Times(0, size) == 0.0 && Times(1, size) == size
    ensures size >= 0.0 ==> Times(n, size) >= 0.0
  {
  }

  lemma {:induction false} AddLegsAt(m: map<string, real>, legs: seq<Leg>, size: real, venue: string)
    ensures At(AddLegs(m, legs, size), venue) == At(m, venue) + Times(Visits(legs, venue), size)
  {
    TimesNext(0, size);
    if legs != [] {
      AddLegsAt(m, legs[..|legs| - 1], size, venue);
      TimesNext(Visits(legs[..|legs| - 1], venue), size);
      hide Times;
    }
  }

  /** Releasing a route takes its visits off each venue, stopping at zero. */
  lemma {:induction false} SubtractLegsAt(m: map<string, real>, legs: seq<Leg>, size: real, venue: string)
    requires size >= 0.0 && At(m, venue) >= 0.0
    ensures At(SubtractLegs(m, legs, size), venue) == AtLeastZero(At(m, venue) - Times(Visits(legs, venue), size))
  {
    TimesNext(0, size);
    if legs != [] {
      SubtractLegsAt(m, legs[..|legs| - 1], size, venue);
      TimesNext(Visits(legs[..|legs| - 1], venue), size);
      hide Times;
    }
  }

  /** Notional in flight for one strategy, and for one venue. */
  function StrategyInFlight(flight: seq<Opportunity>, strategy: string): real {
    if flight == [] then 0.0
    else
      var last := flight[|flight| - 1];
      StrategyInFlight(flight[..|flight| - 1], strategy) + (if last.strategy == strategy then last.maxSizeUsd else 0.0)
  }

  function VenueInFlight(flight: seq<Opportunity>, venue: string): real {
    if flight == [] then 0.0
    else
      var last := flight[|flight| - 1];
      VenueInFlight(flight[..|flight| - 1], venue) + Times(Visits(last.legs, venue), last.maxSizeUsd)
  }

  ghost predicate Sized(flight: seq<Opportunity>) {
    forall o | o in flight :: o.maxSizeUsd >= 0.0
  }

  lemma {:induction false} InFlightNonNegative(flight: seq<Opportunity>, key: string)
    requires Sized(flight)
    ensures StrategyInFlight(flight, key) >= 0.0 && VenueInFlight(flight, key) >= 0.0
  {
    if flight != [] {
      var last := flight[|flight| - 1];
      assert last in flight && forall o | o in flight[..|flight| - 1] :: o in flight;
      InFlightNonNegative(flight[..|flight| - 1], key);
      TimesNext(Visits(last.legs, key), last.maxSizeUsd);
    }
  }

  lemma {:induction false} InFlightLanded(flight: seq<Opportunity>, k: nat, key: string)
    requires k < |flight|
    ensures StrategyInFlight(flight, key)
            == StrategyInFlight(AllBut(flight, k), key)
                + (if flight[k].strategy == key then flight[k].maxSizeUsd else 0.0)
    ensures VenueInFlight(flight, key)
            == VenueInFlight(AllBut(flight, k), key) + Times(Visits(flight[k].legs, key), flight[k].maxSizeUsd)
    decreases |flight|
  {
    hide *;
    var n := |flight| - 1;
    assert flight == flight[..n] + [flight[n]];
    InFlightBegun(flight[..n], flight[n], key);
    if k == n {
      AllButLast(flight);
    } else {
      AllButSnoc(flight, k);
      InFlightLanded(flight[..n], k, key);
      InFlightBegun(AllBut(flight[..n], k), flight[n], key);
    }
  }

  /** Deployed capital is exactly what is in flight. */
  ghost predicate Exact(x: Exposure, flight: seq<Opportunity>) {
    && Sized(flight)
    && forall key ::
         At(x.strategy, key) == StrategyInFlight(flight, key) && At(x.venue, key) == VenueInFlight(flight, key)
  }

  ghost predicate StrategiesCapped(limits: Limits, x: Exposure) {
    forall s :: At(x.strategy, s) == 0.0 || At(x.strategy, s) <= limits.StrategyCap(s)
  }

  ghost predicate VenuesCapped(limits: Limits, x: Exposure) {
    forall v :: At(x.venue, v) == 0.0 || At(x.venue, v) <= limits.VenueCap(v)
  }

  ghost predicate NoRepeatedVenue(legs: seq<Leg>) {
    forall i, j | 0 <= i < j < |legs| :: legs[i].venue != legs[j].venue
  }

  lemma {:induction false} VisitsOnce(legs: seq<Leg>, venue: string)
    ensures NoRepeatedVenue(legs) ==> Visits(legs, venue) <= 1
    ensures Visits(legs, venue) > 0 ==> exists l :: l in legs && l.venue == venue
  {
    if legs != [] {
      var init, last := legs[..|legs| - 1], legs[|legs| - 1];
      assert last in legs && forall l | l in init :: l in legs;
      VisitsOnce(init, venue);
    }
  }

  /** Nothing is recorded that is not in flight. */
  ghost predicate Under(x: Exposure, flight: seq<Opportunity>) {
    && Sized(flight)
    && forall key ::
         && 0.0 <= At(x.strategy, key) <= StrategyInFlight(flight, key)
         && 0.0 <= At(x.venue, key) <= VenueInFlight(flight, key)
  }

  /** What happens to deployed capital: a guarded begin, one end of a trade in flight, or the day roll. */
  datatype Step = Begin(opportunity: Opportunity) | End(index: nat) | Roll

  ghost predicate Allowed(limits: Limits, x: Exposure, flight: seq<Opportunity>, step: Step) {
    match step
    case Begin(o) => o.maxSizeUsd >= 0.0 && Admits(limits, x, o)
    case End(k) => k < |flight|
    case Roll => true
  }

  function ExposureAfter(x: Exposure, flight: seq<Opportunity>, step: Step): Exposure {
    match step
    case Begin(o) => Committed(x, o)
    case End(k) => if k < |flight| then Freed(x, flight[k]) else x
    case Roll => Exposure(map[], map[])
  }

  function FlightAfter(flight: seq<Opportunity>, step: Step): seq<Opportunity> {
    match step
    case Begin(o) => flight + [o]
    case End(k) => if k < |flight| then AllBut(flight, k) else flight
    case Roll => flight
  }

  lemma BeginExact(x: Exposure, flight: seq<Opportunity>, o: Opportunity)
    requires Exact(x, flight) && o.maxSizeUsd >= 0.0
    ensures Exact(Committed(x, o), flight + [o])
  {
    hide Times, Visits;
    var more := flight + [o];
    assert more[..|more| - 1] == flight;
    forall key ensures At(Committed(x, o).strategy, key) == StrategyInFlight(more, key)
        && At(Committed(x, o).venue, key) == VenueInFlight(more, key) {
      AddLegsAt(x.venue, o.legs, o.maxSizeUsd, key);
    }
  }

  /** Handing back takes the size off the strategy and, once per visit, off a venue, stopping at zero. */
  lemma FreedAt(x: Exposure, o: Opportunity, key: string)
    requires o.maxSizeUsd >= 0.0 && At(x.venue, key) >= 0.0
    ensures At(Freed(x, o).strategy, key)
            == if o.strategy == key then AtLeastZero(At(x.strategy, key) - o.maxSizeUsd) else At(x.strategy, key)
    ensures At(Freed(x, o).venue, key) == AtLeastZero(At(x.venue, key) - Times(Visits(o.legs, key), o.maxSizeUsd))
  {
    SubtractLegsAt(x.venue, o.legs, o.maxSizeUsd, key);
    hide Times, Visits, SubtractLegs;
  }

  /** Ending a trade takes off exactly what it added: the zero clamp never bites. */
  lemma EndExact(x: Exposure, flight: seq<Opportunity>, k: nat)
    requires Exact(x, flight) && k < |flight|
    ensures Exact(Freed(x, flight[k]), AllBut(flight, k))
  {
    var o, rest := flight[k], AllBut(flight, k);
    assert o in flight && forall p | p in rest :: p in flight;
    hide Times, Visits, Freed, StrategyInFlight, VenueInFlight, AllBut, At;
    forall key ensures At(Freed(x, o).strategy, key) == StrategyInFlight(rest, key)
        && At(Freed(x, o).venue, key) == VenueInFlight(rest, key) {
      InFlightNonNegative(flight, key);
      InFlightNonNegative(rest, key);
      InFlightLanded(flight, k, key);
      FreedAt(x, o, key);
    }
  }

  lemma BeginUnder(x: Exposure, flight: seq<Opportunity>, o: Opportunity)
    requires Under(x, flight) && o.maxSizeUsd >= 0.0
    ensures Under(Committed(x, o), flight + [o])
  {
    var more, y := flight + [o], Committed(x, o);
    hide Times, Visits, StrategyInFlight, VenueInFlight;
    forall key
      ensures 0.0 <= At(y.strategy, key) <= StrategyInFlight(more, key)
      ensures 0.0 <= At(y.venue, key) <= VenueInFlight(more, key)
    {
      InFlightBegun(flight, o, key);
      AddLegsAt(x.venue, o.legs, o.maxSizeUsd, key);
      TimesNext(Visits(o.legs, key), o.maxSizeUsd);
    }
  }

  lemma InFlightBegun(flight: seq<Opportunity>, o: Opportunity, key: string)
    ensures StrategyInFlight(flight + [o], key)
            == StrategyInFlight(flight, key) + (if o.strategy == key then o.maxSizeUsd else 0.0)
    ensures VenueInFlight(flight + [o], key) == VenueInFlight(flight, key) + Times(Visits(o.legs, key), o.maxSizeUsd)
  {
    assert (flight + [o])[..|flight|] == flight;
  }

  lemma EndUnder(x: Exposure, flight: seq<Opportunity>, k: nat)
    requires Under(x, flight) && k < |flight|
    ensures Under(Freed(x, flight[k]), AllBut(flight, k))
  {
    var o, rest := flight[k], AllBut(flight, k);
    var y := Freed(x, o);
    assert o in flight && forall p | p in rest :: p in flight;
    hide Times, Visits, Freed, StrategyInFlight, VenueInFlight, AllBut, At;
    forall key
      ensures 0.0 <= At(y.strategy, key) <= StrategyInFlight(rest, key)
      ensures 0.0 <= At(y.venue, key) <= VenueInFlight(rest, key)
    {
      InFlightNonNegative(rest, key);
      InFlightLanded(flight, k, key);
      FreedAt(x, o, key);
    }
  }

  lemma RollUnder(flight: seq<Opportunity>)
    requires Sized(flight)
    ensures Under(Exposure(map[], map[]), flight)
  {
    forall key ensures StrategyInFlight(flight, key) >= 0.0 && VenueInFlight(flight, key) >= 0.0 {
      InFlightNonNegative(flight, key);
    }
  }

  /** An admitted route that visits no venue twice keeps every venue within its cap. */
  lemma BeginCapped(limits: Limits, x: Exposure, o: Opportunity)
    requires o.maxSizeUsd >= 0.0 && Admits(limits, x, o)
    ensures StrategiesCapped(limits, x) ==> StrategiesCapped(limits, Committed(x, o))
    ensures VenuesCapped(limits, x) && NoRepeatedVenue(o.legs) ==> VenuesCapped(limits, Committed(x, o))
  {
    hide Times, Visits;
    if VenuesCapped(limits, x) && NoRepeatedVenue(o.legs) {
      forall v ensures At(Committed(x, o).venue, v) == 0.0 || At(Committed(x, o).venue, v) <= limits.VenueCap(v) {
        AddLegsAt(x.venue, o.legs, o.maxSizeUsd, v);
        VisitsOnce(o.legs, v);
        TimesNext(0, o.maxSizeUsd);
      }
    }
  }

  /**
   * For a route that visits no venue twice, the gate admits it exactly when committing it keeps every total it
   * touches within its cap, the configured one or else the default.
   */
  lemma AdmitsIffCapped(limits: Limits, x: Exposure, o: Opportunity)
    requires NoRepeatedVenue(o.legs)
    ensures Admits(limits, x, o) <==>
            && At(Committed(x, o).strategy, o.strategy)
               <= (if o.strategy in limits.strategyCapitalUsd then limits.strategyCapitalUsd[o.strategy]
                   else limits.defaultStrategyCapitalUsd)
            && forall k | 0 <= k < |o.legs| ::
                 At(Committed(x, o).venue, o.legs[k].venue)
                 <= if o.legs[k].venue in limits.venueExposureUsd then limits.venueExposureUsd[o.legs[k].venue]
                    else limits.defaultVenueExposureUsd
  {
    hide Times, Visits, NoRepeatedVenue;
    forall k | 0 <= k < |o.legs|
      ensures At(Committed(x, o).venue, o.legs[k].venue) == At(x.venue, o.legs[k].venue) + o.maxSizeUsd
    {
      var v := o.legs[k].venue;
      AddLegsAt(x.venue, o.legs, o.maxSizeUsd, v);
      VisitsOnce(o.legs, v);
      VisitsSome(o.legs, k);
      TimesNext(0, o.maxSizeUsd);
    }
    hide Committed, At;
    assert Admits(limits, x, o) ==> forall k | 0 <= k < |o.legs| :: o.legs[k] in o.legs;
  }

  lemma EndCapped(limits: Limits, x: Exposure, flight: seq<Opportunity>, k: nat)
    requires Under(x, flight) && k < |flight|
    ensures StrategiesCapped(limits, x) ==> StrategiesCapped(limits, Freed(x, flight[k]))
    ensures VenuesCapped(limits, x) ==> VenuesCapped(limits, Freed(x, flight[k]))
  {
    hide Times, Visits;
    var o := flight[k];
    assert o in flight;
    forall key ensures 0.0 <= At(Freed(x, o).strategy, key) <= At(x.strategy, key)
        && 0.0 <= At(Freed(x, o).venue, key) <= At(x.venue, key) {
      SubtractLegsAt(x.venue, o.legs, o.maxSizeUsd, key);
      TimesNext(Visits(o.legs, key), o.maxSizeUsd);
    }
  }

  function FlightOf(steps: seq<Step>): seq<Opportunity> {
    if steps == [] then [] else FlightAfter(FlightOf(steps[..|steps| - 1]), steps[|steps| - 1])
  }

  function ExposureOf(steps: seq<Step>): Exposure {
    if steps == [] then Exposure(map[], map[])
    else ExposureAfter(ExposureOf(steps[..|steps| - 1]), FlightOf(steps[..|steps| - 1]), steps[|steps| - 1])
  }

  /** Every step is allowed where it is taken. */
  ghost predicate Run(limits: Limits, steps: seq<Step>) {
    steps == [] || (Run(limits, steps[..|steps| - 1])
                    && Allowed(limits, ExposureOf(steps[..|steps| - 1]), FlightOf(steps[..|steps| - 1]),
                               steps[|steps| - 1]))
  }

  /**
   * For any interleaving of guarded begins, ends and day rolls: nothing is recorded that is not in
   * flight, no strategy's record is over its cap, and no venue's is when no route visits a venue twice. The record
   * is exact if every roll was quiet, and again whenever nothing is in flight.
   */
  lemma {:induction false} RunKeepsCaps(limits: Limits, steps: seq<Step>)
    requires Run(limits, steps)
    ensures Under(ExposureOf(steps), FlightOf(steps)) && StrategiesCapped(limits, ExposureOf(steps))
    ensures (forall s | s in steps && s.Begin? :: NoRepeatedVenue(s.opportunity.legs))
            ==> VenuesCapped(limits, ExposureOf(steps))
    ensures QuietRolls(steps) || FlightOf(steps) == [] ==> Exact(ExposureOf(steps), FlightOf(steps))
  {
    UnderNothing(ExposureOf(steps));
    if QuietRolls(steps) {
      QuietRunExact(limits, steps);
    }
    if steps != [] {
      var n := |steps| - 1;
      var before, step := steps[..n], steps[n];
      assert step in steps && forall s | s in before :: s in steps;
      RunKeepsCaps(limits, before);
      var x, flight := ExposureOf(before), FlightOf(before);
      RollUnder(flight);
      hide Under, Exact, QuietRolls, StrategiesCapped, VenuesCapped, Admits, NoRepeatedVenue;
      match step {
        case Begin(o) =>
          BeginUnder(x, flight, o);
          BeginCapped(limits, x, o);
        case End(k) =>
          EndUnder(x, flight, k);
          EndCapped(limits, x, flight, k);
        case Roll =>
          EmptyCapped(limits);
      }
    }
  }

  /** Whenever nothing is in flight, nothing is recorded. */
  lemma UnderNothing(x: Exposure)
    ensures Under(x, []) ==> Exact(x, [])
  {
  }

  lemma EmptyCapped(limits: Limits)
    ensures StrategiesCapped(limits, Exposure(map[], map[])) && VenuesCapped(limits, Exposure(map[], map[]))
  {
  }

  ghost predicate NothingInFlight(flight: seq<Opportunity>) {
    forall o | o in flight :: o.maxSizeUsd == 0.0
  }

  /** Each day roll of the run finds nothing of positive size in flight. */
  ghost predicate QuietRolls(steps: seq<Step>) {
    forall k | 0 <= k < |steps| && steps[k].Roll? :: NothingInFlight(FlightOf(steps[..k]))
  }

  /** With quiet rolls deployed capital is exactly the sum in flight, so the caps bound what is in flight. */
  lemma {:induction false} QuietRunExact(limits: Limits, steps: seq<Step>)
    requires Run(limits, steps) && QuietRolls(steps)
    ensures Exact(ExposureOf(steps), FlightOf(steps))
  {
    if steps != [] {
      var n := |steps| - 1;
      var before, step := steps[..n], steps[n];
      assert forall k | 0 <= k < n :: steps[..k] == before[..k] && steps[k] == before[k];
      QuietRunExact(limits, before);
      var x, flight := ExposureOf(before), FlightOf(before);
      assert Sized(flight);
      hide Exact, Admits, Sized;
      match step {
        case Begin(o) => BeginExact(x, flight, o);
        case End(k) => EndExact(x, flight, k);
        case Roll => RollExactIffNothingInFlight(flight);
      }
    }
  }

  lemma {:induction false} PrefixRuns(limits: Limits, steps: seq<Step>, k: nat)
    requires Run(limits, steps) && k <= |steps|
    ensures Run(limits, steps[..k])
  {
    if k == |steps| {
      assert steps[..k] == steps;
    } else {
      assert steps[..|steps| - 1][..k] == steps[..k];
      PrefixRuns(limits, steps[..|steps| - 1], k);
    }
  }

  /** Over a whole run deployed capital equals the sum in flight at every moment exactly when every roll is quiet. */
  lemma ExactIffQuietRolls(limits: Limits, steps: seq<Step>)
    requires Run(limits, steps)
    ensures (forall k | 0 <= k <= |steps| :: Exact(ExposureOf(steps[..k]), FlightOf(steps[..k]))) <==> QuietRolls(steps)
  {
    if QuietRolls(steps) {
      forall k | 0 <= k <= |steps| ensures Exact(ExposureOf(steps[..k]), FlightOf(steps[..k])) {
        hide Exact, Run;
        PrefixRuns(limits, steps, k);
        QuietPrefix(steps, k);
        hide QuietRolls;
        QuietRunExact(limits, steps[..k]);
      }
    }
    if forall k | 0 <= k <= |steps| :: Exact(ExposureOf(steps[..k]), FlightOf(steps[..k])) {
      forall k | 0 <= k < |steps| && steps[k].Roll? ensures NothingInFlight(FlightOf(steps[..k])) {
        RollBreaks(steps, k);
      }
    }
  }

  lemma QuietPrefix(steps: seq<Step>, k: nat)
    requires QuietRolls(steps) && k <= |steps|
    ensures QuietRolls(steps[..k])
  {
    assert forall j | 0 <= j < k :: steps[..k][..j] == steps[..j] && steps[..k][j] == steps[j];
  }

  lemma RollBreaks(steps: seq<Step>, k: nat)
    requires k < |steps| && steps[k].Roll?
    requires Exact(ExposureOf(steps[..k + 1]), FlightOf(steps[..k + 1]))
    ensures NothingInFlight(FlightOf(steps[..k]))
  {
    assert steps[..k + 1][..k] == steps[..k];
    RollExactIffNothingInFlight(FlightOf(steps[..k]));
  }

  lemma {:induction false} VisitsTwice(legs: seq<Leg>, i: nat, j: nat)
    requires i < j < |legs| && legs[i].venue == legs[j].venue
    ensures Visits(legs, legs[i].venue) >= 2
  {
    var n := |legs| - 1;
    if j < n {
      VisitsTwice(legs[..n], i, j);
    } else {
      VisitsSome(legs[..n], i);
    }
  }

  lemma {:induction false} VisitsSome(legs: seq<Leg>, i: nat)
    requires i < |legs|
    ensures Visits(legs, legs[i].venue) >= 1
  {
    if i < |legs| - 1 {
      VisitsSome(legs[..|legs| - 1], i);
    }
  }

  lemma TimesAtLeastTwo(n: nat, size: real)
    requires n >= 2 && size > 0.0
    ensures Times(n, size) > size
  {
  }

  /**
   * A run whose roll is not quiet: the roll empties the totals under a trade in flight, and ending that
   * trade afterwards takes off the capital of another one, which is still in flight and unrecorded.
   */
  lemma RollUndercounts(limits: Limits, o: Opportunity)
    requires o.maxSizeUsd > 0.0 && Admits(limits, Exposure(map[], map[]), o)
    ensures var steps := [Begin(o), Roll, Begin(o), End(0)];
            && Run(limits, steps) && FlightOf(steps) == [o]
            && At(ExposureOf(steps).strategy, o.strategy) == 0.0 < StrategyInFlight([o], o.strategy)
  {
    hide AddLegs, SubtractLegs, Visits, Times, Admits, Committed, Freed, Run, ExposureOf, FlightOf,
        StrategyInFlight, At;
    var steps := [Begin(o)];
    NothingRun(limits);
    RunNext(limits, [], Begin(o));
    RunNext(limits, steps, Roll);
    RunNext(limits, steps + [Roll], Begin(o));
    RunNext(limits, steps + [Roll] + [Begin(o)], End(0));
    assert [] + [o] == [o] && AllBut([o] + [o], 0) == [o];
    assert [] + [Begin(o)] == steps && steps + [Roll] + [Begin(o)] + [End(0)] == [Begin(o), Roll, Begin(o), End(0)];
    BackToZero(o);
  }

  lemma NothingRun(limits: Limits)
    ensures Run(limits, []) && ExposureOf([]) == Exposure(map[], map[]) && FlightOf([]) == []
  {
  }

  lemma BackToZero(o: Opportunity)
    requires o.maxSizeUsd > 0.0
    ensures At(Freed(Committed(Exposure(map[], map[]), o), o).strategy, o.strategy) == 0.0
    ensures StrategyInFlight([o], o.strategy) == o.maxSizeUsd
  {
    hide AddLegs, SubtractLegs;
    assert [o][..0] == [];
  }

  lemma RunNext(limits: Limits, steps: seq<Step>, step: Step)
    ensures var x, flight, more := ExposureOf(steps), FlightOf(steps), steps + [step];
            && ExposureOf(more) == ExposureAfter(x, flight, step) && FlightOf(more) == FlightAfter(flight, step)
            && (Run(limits, more) <==> Run(limits, steps) && Allowed(limits, x, flight, step))
  {
    assert (steps + [step])[..|steps|] == steps;
  }

  lemma {:induction false} NothingSized(flight: seq<Opportunity>, key: string)
    requires forall o | o in flight :: o.maxSizeUsd == 0.0
    ensures StrategyInFlight(flight, key) == 0.0 && VenueInFlight(flight, key) == 0.0
  {
    if flight != [] {
      assert flight[|flight| - 1] in flight && forall o | o in flight[..|flight| - 1] :: o in flight;
      NothingSized(flight[..|flight| - 1], key);
    }
  }

  lemma {:induction false} AtLeastOne(flight: seq<Opportunity>, o: Opportunity)
    requires Sized(flight) && o in flight
    ensures StrategyInFlight(flight, o.strategy) >= o.maxSizeUsd
  {
    var init, last := flight[..|flight| - 1], flight[|flight| - 1];
    assert flight == init + [last];
    assert last in flight && forall p | p in init :: p in flight;
    InFlightNonNegative(init, o.strategy);
    if o in init {
      AtLeastOne(init, o);
    }
  }

  /** A roll keeps deployed capital equal to what is in flight exactly when nothing sized is in flight. */
  lemma RollExactIffNothingInFlight(flight: seq<Opportunity>)
    requires Sized(flight)
    ensures Exact(Exposure(map[], map[]), flight) <==> NothingInFlight(flight)
  {
    var rolled := Exposure(map[], map[]);
    if Exact(rolled, flight) {
      forall o | o in flight ensures o.maxSizeUsd == 0.0 {
        AtLeastOne(flight, o);
        assert At(rolled.strategy, o.strategy) == StrategyInFlight(flight, o.strategy);
      }
    }
    if NothingInFlight(flight) {
      forall key ensures At(rolled.strategy, key) == StrategyInFlight(flight, key)
          && At(rolled.venue, key) == VenueInFlight(flight, key) {
        NothingSized(flight, key);
      }
    }
  }
}
