/** Selecting opportunities whose inventory can be reserved, and resolving each reservation once. */
module Routing {
  import opened Collections
  import opened Sorting
  import opened Walks
  import opened Symbols
  import opened Inventory

  /** The asset a leg spends: the quote of a bought pair, the base of a sold one, else the symbol itself. */
  function LegAsset(symbol: string, side: Side): string {
    if IsPair(symbol) then (if side == Buy then Quote(symbol) else Base(symbol)) else symbol
  }

  function LegAmount(leg: Leg): real {
    if leg.side == Buy then Product(leg.price, leg.size) else leg.size
  }

  /** The reservations a route needs; legs that spend nothing are skipped. */
  function Needs(legs: seq<Leg>): seq<Reservation> {
    if legs == [] then []
    else
      var last := legs[|legs| - 1];
      Needs(legs[..|legs| - 1])
      + (if LegAmount(last) <= 0.0 then []
         else [Reservation((last.venue, LegAsset(last.symbol, last.side)), LegAmount(last))])
  }

  /** Every slot the route touches has enough free balance for all it asks of it. */
  ghost predicate Fits(l: Ledger, rs: seq<Reservation>) {
    forall r | r in rs :: SumAt(rs, r.slot) <= BalanceAt(l, r.slot).free
  }

  lemma {:induction false} NeedsPositive(legs: seq<Leg>)
    ensures Positive(Needs(legs))
  {
    if legs != [] {
      NeedsPositive(legs[..|legs| - 1]);
    }
  }

  /** A route that fits still fits without its last reservation, and leaves room for it. */
  lemma FitsPrefix(l: Ledger, rs: seq<Reservation>, last: Reservation)
    requires Positive(rs) && last.amount > 0.0
    ensures Fits(l, rs + [last]) <==> Fits(l, rs) && BalanceAt(LockAll(l, rs), last.slot).free >= last.amount
  {
    var all := rs + [last];
    LockAllAt(l, rs, last.slot);
    assert all[..|all| - 1] == rs;
    forall slot ensures SumAt(all, slot) == SumAt(rs, slot) + (if slot == last.slot then last.amount else 0.0) {
    }
    if Fits(l, all) {
      assert last in all;
      forall r | r in rs ensures SumAt(rs, r.slot) <= BalanceAt(l, r.slot).free {
        assert r in all;
      }
    }
  }

  /** What fits is drawn from existing balances. */
  lemma FitsExists(l: Ledger, rs: seq<Reservation>)
    requires Positive(rs) && Fits(l, rs)
    ensures forall r | r in rs :: r.slot in l.entries
  {
    forall r | r in rs ensures r.slot in l.entries {
      SumNonNegative(rs, r.slot);
    }
  }

  /** Expected value, the ranking key. */
  function ExpectedValue(o: Opportunity): real {
    o.netProfitPct * o.maxSizeUsd
  }

  /** An opportunity in flight through the router; `reservations` is its `_reservations` detail. */
  class Candidate {
    const opportunity: Opportunity
    var reservations: Option<seq<Reservation>>

    constructor (opportunity: Opportunity)
      ensures this.opportunity == opportunity && reservations == None
    {
      this.opportunity, reservations := opportunity, None;
    }
  }

  predicate HigherValueFirst(a: Candidate, b: Candidate) {
    ExpectedValue(a.opportunity) >= ExpectedValue(b.opportunity)
  }

  /** The ledger after considering candidates in order: each is locked in full or skipped. */
  ghost function Considered(l: Ledger, ranked: seq<Candidate>): Ledger {
    if ranked == [] then l
    else
      var before, needs := Considered(l, ranked[..|ranked| - 1]), Needs(ranked[|ranked| - 1].opportunity.legs);
      if Fits(before, needs) then LockAll(before, needs) else before
  }

  /** The candidates that fit when their turn comes. */
  ghost function AcceptedOf(l: Ledger, ranked: seq<Candidate>): seq<Candidate> {
    if ranked == [] then []
    else
      var init, last := ranked[..|ranked| - 1], ranked[|ranked| - 1];
      AcceptedOf(l, init) + (if Fits(Considered(l, init), Needs(last.opportunity.legs)) then [last] else [])
  }

  /** The ledger once these candidates, and no others, are locked. */
  ghost function LockThose(l: Ledger, cs: seq<Candidate>): Ledger {
    if cs == [] then l else LockAll(LockThose(l, cs[..|cs| - 1]), Needs(cs[|cs| - 1].opportunity.legs))
  }

  /** The candidate fits once the first `n` of `accepted` are locked. */
  ghost predicate FitsAfter(l: Ledger, accepted: seq<Candidate>, n: nat, c: Candidate)
  {
    n <= |accepted| && Fits(LockThose(l, accepted[..n]), Needs(c.opportunity.legs))
  }

  /** The first `n` accepted candidates are each worth at least as much as `c`: percentage times size. */
  ghost predicate WorthNoLess(accepted: seq<Candidate>, n: nat, c: Candidate) {
    n <= |accepted| && forall j | 0 <= j < n ::
      accepted[j].opportunity.netProfitPct * accepted[j].opportunity.maxSizeUsd
      >= c.opportunity.netProfitPct * c.opportunity.maxSizeUsd
  }

  /** Some of the accepted candidates, none worth less than this one, leave it no room. */
  ghost predicate CrowdedOut(l: Ledger, accepted: seq<Candidate>, c: Candidate) {
    exists n: nat :: WorthNoLess(accepted, n, c) && !FitsAfter(l, accepted, n, c)
  }

  lemma LockNext(l: Ledger, cs: seq<Candidate>, c: Candidate)
    ensures LockThose(l, cs + [c]) == LockAll(LockThose(l, cs), Needs(c.opportunity.legs)) && LockThose(l, []) == l
  {
    assert (cs + [c])[..|cs|] == cs;
  }

  lemma {:induction false} ConsideredLocks(l: Ledger, ranked: seq<Candidate>)
    ensures Considered(l, ranked) == LockThose(l, AcceptedOf(l, ranked))
  {
    hide *;
    ConsideredNone(l);
    if ranked == [] {
      LockNothing(l);
    } else {
      var n := |ranked| - 1;
      assert ranked[..n + 1] == ranked;
      ConsideredLocks(l, ranked[..n]);
      ConsideredNext(l, ranked, n);
      LockNext(l, AcceptedOf(l, ranked[..n]), ranked[n]);
      assert AcceptedOf(l, ranked[..n]) + [] == AcceptedOf(l, ranked[..n]);
    }
  }

  lemma LockNothing(l: Ledger)
    ensures LockThose(l, []) == l
  {
  }

  lemma {:induction false} AcceptedInOrder(l: Ledger, ranked: seq<Candidate>)
    requires Ordered(ranked, HigherValueFirst)
    ensures forall c | c in AcceptedOf(l, ranked) :: c in ranked
    ensures Ordered(AcceptedOf(l, ranked), HigherValueFirst)
  {
    hide Fits, Needs, Considered, HigherValueFirst, AcceptedOf;
    ConsideredNone(l);
    if ranked != [] {
      var n := |ranked| - 1;
      assert ranked[..n + 1] == ranked;
      AcceptedInOrder(l, ranked[..n]);
      ConsideredNext(l, ranked, n);
      forall c | c in AcceptedOf(l, ranked[..n]) ensures HigherValueFirst(c, ranked[n]) {
        var k :| 0 <= k < n && ranked[k] == c;
      }
    }
  }

  /** What was accepted before candidate `k` is a prefix of what is accepted in the end. */
  lemma {:induction false} AcceptedPrefix(l: Ledger, ranked: seq<Candidate>, k: nat)
    requires k <= |ranked|
    ensures AcceptedOf(l, ranked[..k]) <= AcceptedOf(l, ranked)
    decreases |ranked|
  {
    hide *;
    if k == |ranked| {
      assert ranked[..k] == ranked;
    } else {
      var n := |ranked| - 1;
      assert ranked[..k] == ranked[..n][..k] && ranked[..n + 1] == ranked;
      AcceptedPrefix(l, ranked[..n], k);
      ConsideredNext(l, ranked, n);
    }
  }

  lemma FittingAccepted(l: Ledger, ranked: seq<Candidate>, k: nat)
    requires k < |ranked| && Fits(Considered(l, ranked[..k]), Needs(ranked[k].opportunity.legs))
    ensures ranked[k] in AcceptedOf(l, ranked)
  {
    hide *;
    AcceptedPrefix(l, ranked, k + 1);
    ConsideredNext(l, ranked, k);
    assert ranked[k] in AcceptedOf(l, ranked[..k]) + [ranked[k]];
  }

  lemma RejectedCrowdedOut(l: Ledger, ranked: seq<Candidate>, k: nat)
    requires Ordered(ranked, HigherValueFirst) && k < |ranked| && ranked[k] !in AcceptedOf(l, ranked)
    ensures CrowdedOut(l, AcceptedOf(l, ranked), ranked[k])
  {
    var before, accepted := AcceptedOf(l, ranked[..k]), AcceptedOf(l, ranked);
    hide AcceptedOf, Considered, LockThose, Fits, Needs, Ordered;
    AcceptedPrefix(l, ranked, k);
    ConsideredLocks(l, ranked[..k]);
    assert accepted[..|before|] == before;
    RankedAbove(l, ranked, k);
    hide WorthNoLess;
    if FitsAfter(l, accepted, |before|, ranked[k]) {
      FittingAccepted(l, ranked, k);
    }
  }

  lemma RankedAbove(l: Ledger, ranked: seq<Candidate>, k: nat)
    requires Ordered(ranked, HigherValueFirst) && k < |ranked|
    ensures WorthNoLess(AcceptedOf(l, ranked), |AcceptedOf(l, ranked[..k])|, ranked[k])
  {
    var before, accepted := AcceptedOf(l, ranked[..k]), AcceptedOf(l, ranked);
    AcceptedInOrder(l, ranked[..k]);
    AcceptedPrefix(l, ranked, k);
    hide AcceptedOf, WorthNoLess, HigherValueFirst;
    forall j | 0 <= j < |before| ensures HigherValueFirst(accepted[j], ranked[k]) {
      assert accepted[j] == before[j] && before[j] in ranked[..k];
    }
    ValuesWritten(accepted, |before|, ranked[k]);
  }

  lemma ValuesWritten(accepted: seq<Candidate>, n: nat, c: Candidate)
    requires n <= |accepted| && forall j | 0 <= j < n :: HigherValueFirst(accepted[j], c)
    ensures WorthNoLess(accepted, n, c)
  {
  }

  /** The accepted candidates come by falling value: percentage times size. */
  ghost predicate ByValue(accepted: seq<Candidate>) {
    forall i, j | 0 <= i < j < |accepted| ::
      accepted[i].opportunity.netProfitPct * accepted[i].opportunity.maxSizeUsd
      >= accepted[j].opportunity.netProfitPct * accepted[j].opportunity.maxSizeUsd
  }

  /**
   * The greedy choice, said of its result: by falling value, each accepted candidate fits what those before it
   * leave, and each rejected one is crowded out by accepted ones worth no less.
   */
  ghost predicate Greedy(l: Ledger, candidates: seq<Candidate>, accepted: seq<Candidate>) {
    && (forall c | c in accepted :: c in candidates)
    && ByValue(accepted)
    && (forall k | 0 <= k < |accepted| :: FitsAfter(l, accepted, k, accepted[k]))
    && (forall c | c in candidates && c !in accepted :: CrowdedOut(l, accepted, c))
  }

  lemma OrderIsByValue(accepted: seq<Candidate>)
    requires Ordered(accepted, HigherValueFirst)
    ensures ByValue(accepted)
  {
  }

  lemma {:induction false} AcceptedFits(l: Ledger, ranked: seq<Candidate>, k: nat)
    requires k < |AcceptedOf(l, ranked)|
    ensures FitsAfter(l, AcceptedOf(l, ranked), k, AcceptedOf(l, ranked)[k])
  {
    hide AcceptedOf, Fits, Needs, LockThose, Considered;
    ConsideredNone(l);
    if ranked != [] {
      var n := |ranked| - 1;
      assert ranked[..n + 1] == ranked;
      ConsideredNext(l, ranked, n);
      ConsideredLocks(l, ranked[..n]);
      var before, accepted := AcceptedOf(l, ranked[..n]), AcceptedOf(l, ranked);
      if k < |before| {
        AcceptedFits(l, ranked[..n], k);
        assert accepted[..k] == before[..k];
      } else {
        assert accepted[..k] == before;
      }
    }
  }

  lemma SelectionIsGreedy(l: Ledger, candidates: seq<Candidate>)
    ensures var ranked := SortBy(candidates, HigherValueFirst);
            Greedy(l, candidates, AcceptedOf(l, ranked)) && Considered(l, ranked) == LockThose(l, AcceptedOf(l, ranked))
  {
    var ranked := SortBy(candidates, HigherValueFirst);
    var accepted := AcceptedOf(l, ranked);
    SortByOrdered(candidates, HigherValueFirst);
    SameElements(candidates, HigherValueFirst);
    hide *;
    ConsideredLocks(l, ranked);
    AcceptedInOrder(l, ranked);
    OrderIsByValue(accepted);
    forall k | 0 <= k < |accepted| ensures FitsAfter(l, accepted, k, accepted[k]) {
      AcceptedFits(l, ranked, k);
    }
    forall c | c in candidates && c !in accepted ensures CrowdedOut(l, accepted, c) {
      var k :| 0 <= k < |ranked| && ranked[k] == c;
      RejectedCrowdedOut(l, ranked, k);
    }
    AllGreedy(l, candidates, accepted);
  }

  lemma AllGreedy(l: Ledger, candidates: seq<Candidate>, accepted: seq<Candidate>)
    requires (forall c | c in accepted :: c in candidates) && ByValue(accepted)
    requires forall k | 0 <= k < |accepted| :: FitsAfter(l, accepted, k, accepted[k])
    requires forall c | c in candidates && c !in accepted :: CrowdedOut(l, accepted, c)
    ensures Greedy(l, candidates, accepted)
  {
  }

  /** `a` is worth more than `b`: percentage times size. */
  predicate WorthMore(a: Candidate, b: Candidate) {
    a.opportunity.netProfitPct * a.opportunity.maxSizeUsd > b.opportunity.netProfitPct * b.opportunity.maxSizeUsd
  }

  /** The one candidate of highest value is accepted whenever it fits alone. */
  lemma BestFitsAccepted(l: Ledger, candidates: seq<Candidate>, accepted: seq<Candidate>, best: Candidate)
    requires Greedy(l, candidates, accepted) && best in candidates && Fits(l, Needs(best.opportunity.legs))
    requires forall c | c in candidates && c != best :: WorthMore(best, c)
    ensures best in accepted
  {
    hide *;
    if best !in accepted {
      GreedyRejects(l, candidates, accepted, best);
      CrowdedByWorth(l, accepted, best);
    }
  }

  lemma GreedyRejects(l: Ledger, candidates: seq<Candidate>, accepted: seq<Candidate>, c: Candidate)
    requires Greedy(l, candidates, accepted) && c in candidates && c !in accepted
    ensures CrowdedOut(l, accepted, c) && forall a | a in accepted :: a in candidates
  {
    hide CrowdedOut;
  }

  /** What fits alone is crowded out only by something accepted that is worth no less. */
  lemma CrowdedByWorth(l: Ledger, accepted: seq<Candidate>, c: Candidate)
    requires CrowdedOut(l, accepted, c) && Fits(l, Needs(c.opportunity.legs))
    ensures accepted != [] && accepted[0] in accepted && !WorthMore(c, accepted[0])
  {
    hide Fits, Needs;
    LockNothing(l);
    assert accepted[..0] == [];
  }

  lemma OnlyHere<T>(s: seq<T>, k: nat)
    requires Distinct(s) && k < |s|
    ensures forall j | 0 <= j < |s| && j != k :: s[j] != s[k]
  {
  }

  lemma ConsideredNone(l: Ledger)
    ensures Considered(l, []) == l && AcceptedOf(l, []) == []
  {
  }

  lemma ConsideredNext(l: Ledger, ranked: seq<Candidate>, k: nat)
    requires k < |ranked|
    ensures var before, needs := Considered(l, ranked[..k]), Needs(ranked[k].opportunity.legs);
            && Considered(l, ranked[..k + 1]) == (if Fits(before, needs) then LockAll(before, needs) else before)
            && AcceptedOf(l, ranked[..k + 1])
               == AcceptedOf(l, ranked[..k]) + (if Fits(before, needs) then [ranked[k]] else [])
  {
    assert ranked[..k + 1][..k] == ranked[..k];
  }

  /** What lists of reservations hold together in one slot. */
  ghost function Outstanding(lists: seq<seq<Reservation>>, slot: Slot): real {
    if lists == [] then 0.0 else Outstanding(lists[..|lists| - 1], slot) + SumAt(lists[|lists| - 1], slot)
  }

  lemma {:induction false} OutstandingWithout(lists: seq<seq<Reservation>>, k: nat, slot: Slot)
    requires k < |lists|
    ensures Outstanding(lists, slot) == Outstanding(AllBut(lists, k), slot) + SumAt(lists[k], slot)
    decreases |lists|
  {
    var n := |lists| - 1;
    if k == n {
      assert AllBut(lists, k) == lists[..n];
    } else {
      var rest := AllBut(lists, k);
      assert rest[..|rest| - 1] == AllBut(lists[..n], k);
      OutstandingWithout(lists[..n], k, slot);
    }
  }

  lemma {:induction false} OutstandingNonNegative(lists: seq<seq<Reservation>>, slot: Slot)
    requires forall rs | rs in lists :: Positive(rs)
    ensures Outstanding(lists, slot) >= 0.0
  {
    if lists != [] {
      SumNonNegative(lists[|lists| - 1], slot);
      OutstandingNonNegative(lists[..|lists| - 1], slot);
    }
  }

  /** Locked balances are exactly what is outstanding, and no free balance is negative. */
  ghost predicate Backed(l: Ledger, lists: seq<seq<Reservation>>) {
    && l.Valid()
    && (forall rs | rs in lists :: Positive(rs))
    && forall slot :: BalanceAt(l, slot).locked == Outstanding(lists, slot) && BalanceAt(l, slot).free >= 0.0
  }

  lemma BackedLock(l: Ledger, lists: seq<seq<Reservation>>, rs: seq<Reservation>)
    requires Backed(l, lists) && Positive(rs) && Fits(l, rs)
    ensures Backed(LockAll(l, rs), lists + [rs])
  {
    hide Dict.Valid;
    var after, more := LockAll(l, rs), lists + [rs];
    LockAllValid(l, rs);
    assert more[..|more| - 1] == lists;
    forall slot ensures BalanceAt(after, slot).locked == Outstanding(more, slot) && BalanceAt(after, slot).free >= 0.0 {
      LockAllAt(l, rs, slot);
      if !exists r :: r in rs && r.slot == slot {
        NothingReserved(rs, slot);
      }
    }
  }

  lemma {:induction false} NothingReserved(rs: seq<Reservation>, slot: Slot)
    requires forall r | r in rs :: r.slot != slot
    ensures SumAt(rs, slot) == 0.0
  {
    if rs != [] {
      assert rs[|rs| - 1] in rs;
      NothingReserved(rs[..|rs| - 1], slot);
    }
  }

  lemma {:induction false} LockAllValid(l: Ledger, rs: seq<Reservation>)
    requires l.Valid()
    ensures LockAll(l, rs).Valid()
  {
    hide Dict.Valid;
    if rs != [] {
      LockAllValid(l, rs[..|rs| - 1]);
    }
  }

  lemma {:induction false} ReleaseAllValid(l: Ledger, rs: seq<Reservation>)
    requires l.Valid()
    ensures ReleaseAll(l, rs).Valid()
  {
    hide Dict.Valid;
    if rs != [] {
      ReleaseAllValid(l, rs[..|rs| - 1]);
    }
  }

  lemma {:induction false} SettleAllValid(l: Ledger, rs: seq<Reservation>)
    requires l.Valid()
    ensures SettleAll(l, rs).Valid()
  {
    hide Dict.Valid;
    if rs != [] {
      SettleAllValid(l, rs[..|rs| - 1]);
    }
  }

  /** An outstanding list is locked in full in every slot. */
  lemma ListIsLocked(l: Ledger, lists: seq<seq<Reservation>>, k: nat, slot: Slot)
    requires Backed(l, lists) && k < |lists|
    ensures SumAt(lists[k], slot) <= BalanceAt(l, slot).locked
  {
    var rest := AllBut(lists, k);
    OutstandingWithout(lists, k, slot);
    assert forall rs | rs in rest :: rs in lists;
    OutstandingNonNegative(rest, slot);
  }

  lemma BackedRelease(l: Ledger, lists: seq<seq<Reservation>>, k: nat)
    requires Backed(l, lists) && k < |lists|
    ensures Backed(ReleaseAll(l, lists[k]), AllBut(lists, k))
    ensures forall slot :: BalanceAt(ReleaseAll(l, lists[k]), slot)
                           == Balance(BalanceAt(l, slot).free + SumAt(lists[k], slot),
                                      BalanceAt(l, slot).locked - SumAt(lists[k], slot))
  {
    var rs, rest := lists[k], AllBut(lists, k);
    ReleaseAllValid(l, rs);
    assert rs in lists && forall x | x in rest :: x in lists;
    forall slot ensures BalanceAt(ReleaseAll(l, rs), slot)
                        == Balance(BalanceAt(l, slot).free + SumAt(rs, slot),
                                   BalanceAt(l, slot).locked - SumAt(rs, slot))
      && BalanceAt(ReleaseAll(l, rs), slot).locked == Outstanding(rest, slot)
      && BalanceAt(ReleaseAll(l, rs), slot).free >= 0.0
    {
      ListIsLocked(l, lists, k, slot);
      ReleaseAllAt(l, rs, slot);
      OutstandingWithout(lists, k, slot);
      SumNonNegative(rs, slot);
    }
  }

  lemma BackedSettle(l: Ledger, lists: seq<seq<Reservation>>, k: nat)
    requires Backed(l, lists) && k < |lists|
    ensures Backed(SettleAll(l, lists[k]), AllBut(lists, k))
    ensures forall slot :: BalanceAt(SettleAll(l, lists[k]), slot)
                           == Balance(BalanceAt(l, slot).free, BalanceAt(l, slot).locked - SumAt(lists[k], slot))
    ensures forall asset :: TotalOf(SettleAll(l, lists[k]), asset) == TotalOf(l, asset) - SumOf(lists[k], asset)
  {
    var rs, rest := lists[k], AllBut(lists, k);
    SettleAllValid(l, rs);
    assert rs in lists && forall x | x in rest :: x in lists;
    forall slot ensures BalanceAt(SettleAll(l, rs), slot)
        == Balance(BalanceAt(l, slot).free, BalanceAt(l, slot).locked - SumAt(rs, slot))
      && BalanceAt(SettleAll(l, rs), slot).locked == Outstanding(rest, slot)
      && SumAt(rs, slot) <= BalanceAt(l, slot).locked
    {
      ListIsLocked(l, lists, k, slot);
      SettleAllAt(l, rs, slot);
      OutstandingWithout(lists, k, slot);
    }
    forall asset ensures TotalOf(SettleAll(l, rs), asset) == TotalOf(l, asset) - SumOf(rs, asset) {
      SettleAllTotal(l, rs, asset);
    }
  }

  /** The slot and amount a filled leg receives. */
  function LegCredit(leg: Leg): Option<(Slot, real)> {
    if !IsPair(leg.symbol) || leg.size <= 0.0 then None
    else if leg.side == Buy then Some(((leg.venue, Base(leg.symbol)), leg.size))
    else if leg.side == Sell then Some(((leg.venue, Quote(leg.symbol)), Product(leg.price, leg.size)))
    else None
  }

  function CreditAll(l: Ledger, legs: seq<Leg>): Ledger {
    if legs == [] then l
    else
      var before, credit := CreditAll(l, legs[..|legs| - 1]), LegCredit(legs[|legs| - 1]);
      if credit == None then before else Credited(before, credit.value.0, credit.value.1)
  }

  /** What the legs receive of one asset. */
  function CreditsOf(legs: seq<Leg>, asset: string): real {
    if legs == [] then 0.0
    else
      var credit := LegCredit(legs[|legs| - 1]);
      CreditsOf(legs[..|legs| - 1], asset)
      + (if credit.Some? && credit.value.0.1 == asset && credit.value.1 > 0.0 then credit.value.1 else 0.0)
  }

  lemma BackedCredit(l: Ledger, lists: seq<seq<Reservation>>, slot: Slot, amount: real)
    requires Backed(l, lists)
    ensures Backed(Credited(l, slot, amount), lists)
    ensures forall asset ::
              TotalOf(Credited(l, slot, amount), asset)
              == TotalOf(l, asset) + (if slot.1 == asset && amount > 0.0 then amount else 0.0)
  {
    hide Dict.Valid, TotalOf;
    if amount > 0.0 {
      var b := BalanceAt(l, slot);
      forall asset ensures TotalOf(Credited(l, slot, amount), asset)
          == TotalOf(l, asset) + (if slot.1 == asset then amount else 0.0) {
        TotalPut(l, slot, Balance(b.free + amount, b.locked), asset);
      }
      var after := l.Put(slot, Balance(b.free + amount, b.locked));
      assert Credited(l, slot, amount) == after && after.Valid();
      forall other: Slot ensures BalanceAt(after, other).locked == Outstanding(lists, other)
          && BalanceAt(after, other).free >= 0.0 {
        assert BalanceAt(after, other) == if other == slot then Balance(b.free + amount, b.locked)
               else BalanceAt(l, other);
        assert BalanceAt(l, other).locked == Outstanding(lists, other) && BalanceAt(l, other).free >= 0.0;
      }
    }
  }

  lemma {:induction false} BackedCredits(l: Ledger, lists: seq<seq<Reservation>>, legs: seq<Leg>, asset: string)
    requires Backed(l, lists)
    ensures Backed(CreditAll(l, legs), lists)
            && TotalOf(CreditAll(l, legs), asset) == TotalOf(l, asset) + CreditsOf(legs, asset)
  {
    hide Backed, TotalOf, LegCredit, Credited;
    if legs != [] {
      var init, credit := legs[..|legs| - 1], LegCredit(legs[|legs| - 1]);
      BackedCredits(l, lists, init, asset);
      if credit.Some? {
        BackedCredit(CreditAll(l, init), lists, credit.value.0, credit.value.1);
      }
    }
  }

  lemma CreditTotals(l: Ledger, lists: seq<seq<Reservation>>, legs: seq<Leg>)
    requires Backed(l, lists)
    ensures Backed(CreditAll(l, legs), lists)
    ensures forall asset :: TotalOf(CreditAll(l, legs), asset) == TotalOf(l, asset) + CreditsOf(legs, asset)
  {
    BackedCredits(l, lists, legs, "");
    hide Backed, TotalOf, CreditAll, CreditsOf;
    forall asset ensures TotalOf(CreditAll(l, legs), asset) == TotalOf(l, asset) + CreditsOf(legs, asset) {
      BackedCredits(l, lists, legs, asset);
    }
  }

  class Router {
    const inventory: InventoryManager
    ghost var open: seq<Candidate>
    ghost var lists: seq<seq<Reservation>>

    /** `open` are the accepted candidates not yet resolved; the ledger's locked balances are exactly theirs. */
    ghost predicate Valid()
      reads this, inventory, open
    {
      Tracked() && Backed(inventory.balances, lists)
    }

    /** `lists` are the reservations stashed on the open candidates, and those are what their legs need. */
    ghost predicate Tracked()
      reads this, open
    {
      && |open| == |lists| && Distinct(open)
      && forall k | 0 <= k < |open| ::
         open[k].reservations == Some(lists[k]) && lists[k] == Needs(open[k].opportunity.legs)
    }

    constructor (inventory: InventoryManager)
      requires Backed(inventory.balances, [])
      ensures Valid() && this.inventory == inventory && open == []
    {
      this.inventory, open, lists := inventory, [], [];
    }

    /** Reserves every leg of one candidate, or rolls back and leaves the inventory exactly as it was. */
    method TryAccept(c: Candidate) returns (ok: bool)
      requires Valid() && c.reservations == None
      modifies this, inventory, c
      ensures Valid()
      ensures ok <==> Fits(old(inventory.balances), Needs(c.opportunity.legs))
      ensures ok ==> && c.reservations == Some(Needs(c.opportunity.legs)) && open == old(open) + [c]
                     && inventory.balances == LockAll(old(inventory.balances), Needs(c.opportunity.legs))
      ensures !ok ==> c.reservations == None && open == old(open) && inventory.balances == old(inventory.balances)
    {
      var legs := c.opportunity.legs;
      ghost var before := inventory.balances;
      var reserved;
      hide *;
      ValidParts();
      reserved, ok := ReserveLegs(legs);
      if ok {
        NeedsPositive(legs);
        BackedLock(before, lists, reserved);
        Stash(c, reserved);
      } else {
        RollBack(before, reserved);
      }
      ValidParts();
    }

    lemma ValidParts()
      ensures Valid() <==> Tracked() && Backed(inventory.balances, lists)
    {
    }

    /** Releases what was reserved before a leg could not be funded. */
    method RollBack(ghost before: Ledger, reserved: seq<Reservation>)
      requires Backed(before, lists) && Positive(reserved) && Fits(before, reserved)
      requires inventory.balances == LockAll(before, reserved)
      modifies inventory
      ensures inventory.balances == before
    {
      hide *;
      FitsExists(before, reserved);
      BackedLocked(before, lists);
      RollbackRestores(before, reserved);
      ReleaseList(reserved);
    }

    /** `detail["_reservations"] = reserved` */
    method Stash(c: Candidate, reserved: seq<Reservation>)
      requires Tracked() && c.reservations == None && reserved == Needs(c.opportunity.legs)
      modifies this, c
      ensures Tracked() && c.reservations == Some(reserved)
      ensures open == old(open) + [c] && lists == old(lists) + [reserved]
    {
      assert c !in open;
      hide Needs, Distinct;
      c.reservations := Some(reserved);
      ListedAbsent(open, c);
      open, lists := open + [c], lists + [reserved];
      forall j | 0 <= j < |open|
        ensures open[j].reservations == Some(lists[j]) && lists[j] == Needs(open[j].opportunity.legs)
      {
        assert j < |open| - 1 ==> open[j] == old(open)[j] && open[j] in old(open) && lists[j] == old(lists)[j];
      }
    }

    /** Best expected value first, each candidate accepted if it fits what the better ones left. */
    method Select(candidates: seq<Candidate>) returns (accepted: seq<Candidate>)
      requires Valid() && Distinct(candidates) && forall c | c in candidates :: c.reservations == None
      modifies this, inventory, candidates
      ensures Valid() && open == old(open) + accepted
      ensures var ranked := SortBy(candidates, HigherValueFirst);
              && Ordered(ranked, HigherValueFirst)
              && accepted == AcceptedOf(old(inventory.balances), ranked)
              && inventory.balances == Considered(old(inventory.balances), ranked)
      ensures forall c | c in candidates :: c in accepted <==> c.reservations.Some?
      ensures Greedy(old(inventory.balances), candidates, accepted)
      ensures inventory.balances == LockThose(old(inventory.balances), accepted)
    {
      var ranked := SortBy(candidates, HigherValueFirst);
      SortByOrdered(candidates, HigherValueFirst);
      DistinctByMultiset(candidates, ranked);
      forall j | 0 <= j < |ranked| ensures ranked[j] in candidates {
        SameMember(candidates, HigherValueFirst, ranked[j]);
      }
      SelectionIsGreedy(inventory.balances, candidates);
      hide Router.Valid, Ordered, SortBy, Greedy, LockThose, Considered, AcceptedOf;
      accepted := SelectRanked(ranked);
      forall c | c in candidates ensures c in ranked {
        SameMember(candidates, HigherValueFirst, c);
      }
    }

    method SelectRanked(ranked: seq<Candidate>) returns (accepted: seq<Candidate>)
      requires Valid() && Distinct(ranked) && forall j | 0 <= j < |ranked| :: ranked[j].reservations == None
      modifies this, inventory, ranked
      ensures Valid() && open == old(open) + accepted
      ensures accepted == AcceptedOf(old(inventory.balances), ranked)
      ensures inventory.balances == Considered(old(inventory.balances), ranked)
      ensures forall c | c in ranked :: c in accepted <==> c.reservations.Some?
    {
      hide *;
      accepted := [];
      ghost var before := inventory.balances;
      ConsideredNone(before);
      for k := 0 to |ranked|
        invariant Valid() && open == old(open) + accepted
        invariant accepted == AcceptedOf(before, ranked[..k]) && inventory.balances == Considered(before, ranked[..k])
        invariant forall j | 0 <= j < |ranked| :: ranked[j].reservations.Some? <==> ranked[j] in accepted
        invariant forall j | k <= j < |ranked| :: ranked[j] !in accepted
      {
        var candidate := ranked[k];
        OnlyHere(ranked, k);
        ConsideredNext(before, ranked, k);
        var ok := TryAccept(candidate);
        if ok {
          accepted := accepted + [candidate];
        }
      }
      assert ranked[..|ranked|] == ranked;
    }

    /** Hands a rejected candidate's reservations back; a second call finds nothing to do. */
    method ReleaseUnfilled(c: Candidate)
      requires Valid() && (c in open || c.reservations == None)
      modifies this, inventory, c
      ensures Valid() && c.reservations == None && open == Without(old(open), c)
      ensures c in old(open) ==> inventory.balances == ReleaseAll(old(inventory.balances), Needs(c.opportunity.legs))
      ensures c in old(open) ==> forall slot ::
                BalanceAt(inventory.balances, slot)
                == Balance(BalanceAt(old(inventory.balances), slot).free + SumAt(Needs(c.opportunity.legs), slot),
                           BalanceAt(old(inventory.balances), slot).locked - SumAt(Needs(c.opportunity.legs), slot))
      ensures c !in old(open) ==> inventory.balances == old(inventory.balances)
    {
      hide Backed, Router.Tracked;
      var reserved;
      ghost var k;
      reserved, k := PopReservations(c);
      if reserved == None {
        return;
      }
      BackedRelease(inventory.balances, old(lists), k);
      ReleaseList(reserved.value);
    }

    /** `detail.pop("_reservations", None)`: takes the stashed list away, once. */
    method PopReservations(c: Candidate) returns (popped: Option<seq<Reservation>>, ghost k: nat)
      requires Tracked() && (c in open || c.reservations == None)
      modifies this, c
      ensures Tracked() && c.reservations == None && popped == old(c.reservations) && open == Without(old(open), c)
      ensures popped == None <==> c !in old(open)
      ensures popped == None ==> lists == old(lists) && open == old(open)
      ensures popped.Some? ==> k < |old(lists)| && popped.value == old(lists)[k] == Needs(c.opportunity.legs)
                               && lists == AllBut(old(lists), k)
    {
      hide Needs, Without;
      popped, k := c.reservations, 0;
      if popped == None {
        WithoutAbsent(open, c);
        return;
      }
      k :| 0 <= k < |open| && open[k] == c;
      WithoutAt(open, k);
      c.reservations := None;
      open, lists := AllBut(open, k), AllBut(lists, k);
      AllButDistinct(old(open), k);
      hide AllBut, Distinct;
      forall j | 0 <= j < |open|
        ensures open[j].reservations == Some(lists[j]) && lists[j] == Needs(open[j].opportunity.legs)
      {
        var i := if j < k then j else j + 1;
        assert open[j] == old(open)[i] && open[j] in open;
      }
    }

    /** Spends a filled candidate's reservations and credits what its legs received, at most once. */
    method SettleFill(c: Candidate)
      requires Valid() && (c in open || c.reservations == None)
      modifies this, inventory, c
      ensures Valid() && c.reservations == None && open == Without(old(open), c)
      ensures c in old(open) && Needs(c.opportunity.legs) != [] ==> forall asset ::
                TotalOf(inventory.balances, asset)
                == TotalOf(old(inventory.balances), asset)
                    + CreditsOf(c.opportunity.legs, asset) - SumOf(Needs(c.opportunity.legs), asset)
      ensures c in old(open) && Needs(c.opportunity.legs) != [] ==>
                inventory.balances == CreditAll(SettleAll(old(inventory.balances), Needs(c.opportunity.legs)),
                                                c.opportunity.legs)
      ensures c !in old(open) || Needs(c.opportunity.legs) == [] ==> inventory.balances == old(inventory.balances)
    {
      hide Backed, Router.Tracked, Needs, CreditsOf, SumOf, TotalOf;
      var reservations;
      ghost var k;
      ghost var before := inventory.balances;
      reservations, k := PopReservations(c);
      if reservations == None {
        return;
      }
      BackedSettle(before, old(lists), k);
      if reservations.value == [] {
        return;
      }
      SettleList(reservations.value);
      CreditTotals(inventory.balances, lists, c.opportunity.legs);
      CreditLegs(c.opportunity.legs);
    }

    method SettleList(rs: seq<Reservation>)
      modifies inventory
      ensures inventory.balances == SettleAll(old(inventory.balances), rs)
    {
      for k := 0 to |rs|
        invariant inventory.balances == SettleAll(old(inventory.balances), rs[..k])
      {
        assert rs[..k + 1][..k] == rs[..k];
        inventory.Settle(rs[k].slot.0, rs[k].slot.1, rs[k].amount);
      }
      assert rs[..|rs|] == rs;
    }

    method CreditLegs(legs: seq<Leg>)
      modifies inventory
      ensures inventory.balances == CreditAll(old(inventory.balances), legs)
    {
      for k := 0 to |legs|
        invariant inventory.balances == CreditAll(old(inventory.balances), legs[..k])
      {
        CreditNext(old(inventory.balances), legs, k);
        hide CreditAll, Credited;
        var leg := legs[k];
        assert CreditAll(old(inventory.balances), legs[..k + 1])
               == match LegCredit(leg)
                  case None => inventory.balances
                  case Some(credit) => Credited(inventory.balances, credit.0, credit.1);
        if !IsPair(leg.symbol) || leg.size <= 0.0 {
          continue;
        }
        if leg.side == Buy {
          inventory.Credit(leg.venue, Base(leg.symbol), leg.size);
        } else if leg.side == Sell {
          inventory.Credit(leg.venue, Quote(leg.symbol), Product(leg.price, leg.size));
        }
      }
      assert legs[..|legs|] == legs;
    }

    /** Reserves leg by leg and stops at the first leg that cannot be funded. */
    method ReserveLegs(legs: seq<Leg>) returns (reserved: seq<Reservation>, ok: bool)
      requires Backed(inventory.balances, lists)
      modifies inventory
      ensures inventory.balances == LockAll(old(inventory.balances), reserved)
      ensures Positive(reserved) && Fits(old(inventory.balances), reserved)
      ensures ok <==> Fits(old(inventory.balances), Needs(legs))
      ensures ok ==> reserved == Needs(legs)
      ensures !ok ==> exists k | 0 <= k < |legs| ::
                        reserved == Needs(legs[..k]) && !Fits(old(inventory.balances), Needs(legs[..k + 1]))
    {
      reserved, ok := [], true;
      ghost var before := inventory.balances;
      for k := 0 to |legs|
        invariant ok && reserved == Needs(legs[..k]) && inventory.balances == LockAll(before, reserved)
        invariant Positive(reserved) && Fits(before, reserved)
      {
        hide Backed, Fits, Positive;
        var leg := legs[k];
        assert legs[..k + 1][..k] == legs[..k];
        var asset := LegAsset(leg.symbol, leg.side);
        var amount := LegAmount(leg);
        if amount <= 0.0 {
          continue;
        }
        var r := Reservation((leg.venue, asset), amount);
        FitsPrefix(before, reserved, r);
        NeedsPositive(legs[..k + 1]);
        assert (reserved + [r])[..|reserved|] == reserved;
        ok := inventory.Reserve(leg.venue, asset, amount);
        if !ok {
          NotFitting(before, legs, k + 1);
          return;
        }
        reserved := reserved + [r];
      }
      assert legs[..|legs|] == legs;
    }

    method ReleaseList(rs: seq<Reservation>)
      modifies inventory
      ensures inventory.balances == ReleaseAll(old(inventory.balances), rs)
    {
      for k := 0 to |rs|
        invariant inventory.balances == ReleaseAll(old(inventory.balances), rs[..k])
      {
        assert rs[..k + 1][..k] == rs[..k];
        inventory.Release(rs[k].slot.0, rs[k].slot.1, rs[k].amount);
      }
      assert rs[..|rs|] == rs;
    }
  }

  lemma CreditNext(l: Ledger, legs: seq<Leg>, k: nat)
    requires k < |legs|
    ensures var credit, before := LegCredit(legs[k]), CreditAll(l, legs[..k]);
            CreditAll(l, legs[..k + 1]) == if credit == None then before
                else Credited(before, credit.value.0, credit.value.1)
  {
    assert legs[..k + 1][..k] == legs[..k];
  }

  lemma BackedLocked(l: Ledger, lists: seq<seq<Reservation>>)
    requires Backed(l, lists)
    ensures l.Valid() && forall slot :: BalanceAt(l, slot).locked >= 0.0
  {
    hide Dict.Valid;
    forall slot ensures BalanceAt(l, slot).locked >= 0.0 {
      OutstandingNonNegative(lists, slot);
    }
  }

  /** A prefix of the legs that does not fit keeps the whole route from fitting. */
  lemma {:induction false} NotFitting(l: Ledger, legs: seq<Leg>, k: nat)
    requires k <= |legs| && !Fits(l, Needs(legs[..k]))
    ensures !Fits(l, Needs(legs))
  {
    if k == |legs| {
      assert legs[..k] == legs;
    } else {
      var init, last := legs[..|legs| - 1], legs[|legs| - 1];
      assert init[..k] == legs[..k];
      NotFitting(l, init, k);
      NeedsPositive(init);
      var r := Reservation((last.venue, LegAsset(last.symbol, last.side)), LegAmount(last));
      hide Fits;
      if LegAmount(last) > 0.0 {
        assert Needs(legs) == Needs(init) + [r];
        FitsPrefix(l, Needs(init), r);
      } else {
        assert Needs(legs) == Needs(init) + [] == Needs(init);
      }
    }
  }
}
