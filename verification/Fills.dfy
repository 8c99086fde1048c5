/** What a logged trade moved, against what the ledger settles for it: exactly when the two agree. */
module Fills {
  import opened Symbols
  import opened Inventory
  import opened Routing
  import opened Engine

  function LegCreditAt(leg: Leg, slot: Slot): real {
    var credit := LegCredit(leg);
    if credit.Some? && credit.value.0 == slot && credit.value.1 > 0.0 then credit.value.1 else 0.0
  }

  function LegNeedAt(leg: Leg, slot: Slot): real {
    if LegAmount(leg) > 0.0 && (leg.venue, LegAsset(leg.symbol, leg.side)) == slot then LegAmount(leg) else 0.0
  }

  /** What the legs receive in one slot. */
  function CreditAt(legs: seq<Leg>, slot: Slot): real {
    if legs == [] then 0.0 else CreditAt(legs[..|legs| - 1], slot) + LegCreditAt(legs[|legs| - 1], slot)
  }

  /** What the legs bring into one slot, less what they take out of it. */
  function SlotNet(legs: seq<Leg>, slot: Slot): real {
    CreditAt(legs, slot) - SumAt(Needs(legs), slot)
  }

  /** What settling moves: nothing at all for a route that reserved nothing. */
  function SettledNet(legs: seq<Leg>, slot: Slot): real {
    if Needs(legs) == [] then 0.0 else SlotNet(legs, slot)
  }

  /** The reservation handed back, then what `done` needs taken out and what it receives put in. */
  function Moved(l: Ledger, reserved: seq<Leg>, done: seq<Leg>): Ledger {
    CreditAll(SettleAll(LockAll(ReleaseAll(l, Needs(reserved)), Needs(done)), Needs(done)), done)
  }

  ghost predicate SameBalances(l: Ledger, m: Ledger) {
    forall slot :: BalanceAt(l, slot) == BalanceAt(m, slot)
  }

  /** The reservations of these legs are outstanding in a backed ledger. */
  ghost predicate Outstands(l: Ledger, legs: seq<Leg>) {
    exists lists, k: nat :: Backed(l, lists) && k < |lists| && lists[k] == Needs(legs)
  }

  lemma ReservedIsLocked(l: Ledger, legs: seq<Leg>, slot: Slot)
    requires Outstands(l, legs)
    ensures SumAt(Needs(legs), slot) <= BalanceAt(l, slot).locked
  {
    var lists, k: nat :| Backed(l, lists) && k < |lists| && lists[k] == Needs(legs);
    hide Backed;
    ListIsLocked(l, lists, k, slot);
  }

  /** Crediting the legs adds to the free balance of each slot exactly what they receive there. */
  lemma {:induction false} CreditAllAt(l: Ledger, legs: seq<Leg>, slot: Slot)
    ensures BalanceAt(CreditAll(l, legs), slot)
            == Balance(BalanceAt(l, slot).free + CreditAt(legs, slot), BalanceAt(l, slot).locked)
  {
    hide LegCredit;
    if legs != [] {
      CreditAllAt(l, legs[..|legs| - 1], slot);
    }
  }

  lemma FilledAt(l: Ledger, o: Opportunity, slot: Slot)
    requires SumAt(Needs(o.legs), slot) <= BalanceAt(l, slot).locked
    ensures BalanceAt(FilledLedger(l, o), slot)
            == Balance(BalanceAt(l, slot).free + SettledNet(o.legs, slot) + SumAt(Needs(o.legs), slot),
                       BalanceAt(l, slot).locked - SumAt(Needs(o.legs), slot))
  {
    var needs := Needs(o.legs);
    if needs != [] {
      NeedsPositive(o.legs);
      SettleAllAt(l, needs, slot);
      CreditAllAt(SettleAll(l, needs), o.legs, slot);
    }
    hide Needs, SettleAll, CreditAll, CreditAt, BalanceAt;
  }

  lemma MovedAt(l: Ledger, reserved: seq<Leg>, done: seq<Leg>, slot: Slot)
    requires SumAt(Needs(reserved), slot) <= BalanceAt(l, slot).locked
    ensures BalanceAt(Moved(l, reserved, done), slot)
            == Balance(BalanceAt(l, slot).free + SumAt(Needs(reserved), slot) + SlotNet(done, slot),
                       BalanceAt(l, slot).locked - SumAt(Needs(reserved), slot))
  {
    hide Needs, ReleaseAll, LockAll, SettleAll, CreditAll, CreditAt, BalanceAt, SumAt;
    NeedsPositive(reserved);
    NeedsPositive(done);
    ReleaseAllAt(l, Needs(reserved), slot);
    var back := ReleaseAll(l, Needs(reserved));
    LockAllAt(back, Needs(done), slot);
    var locked := LockAll(back, Needs(done));
    SettleAllAt(locked, Needs(done), slot);
    CreditAllAt(SettleAll(locked, Needs(done)), done, slot);
  }

  /** The settled ledger is what was moved if and only if, slot by slot, the route as listed nets what was done. */
  lemma SettledRightIff(l: Ledger, o: Opportunity, done: seq<Leg>)
    requires Outstands(l, o.legs)
    ensures SameBalances(FilledLedger(l, o), Moved(l, o.legs, done))
            <==> forall slot :: SettledNet(o.legs, slot) == SlotNet(done, slot)
  {
    hide FilledLedger, Moved, SettledNet, SlotNet, BalanceAt, SumAt, Needs, Outstands;
    forall slot
      ensures BalanceAt(FilledLedger(l, o), slot) == BalanceAt(Moved(l, o.legs, done), slot)
              <==> SettledNet(o.legs, slot) == SlotNet(done, slot)
    {
      ReservedIsLocked(l, o.legs, slot);
      FilledAt(l, o, slot);
      MovedAt(l, o.legs, done, slot);
    }
  }

  /** The legs whose order did, or did not, fill. */
  function Chosen(legs: seq<Leg>, fills: seq<bool>, filled: bool): seq<Leg>
    requires |fills| == |legs|
  {
    if legs == [] then []
    else
      var n := |legs| - 1;
      Chosen(legs[..n], fills[..n], filled) + (if fills[n] == filled then [legs[n]] else [])
  }

  /** The filled legs settled and credited, the reservations of the others released. */
  function ByFills(l: Ledger, legs: seq<Leg>, fills: seq<bool>): Ledger
    requires |fills| == |legs|
  {
    var filled, failed := Chosen(legs, fills, true), Chosen(legs, fills, false);
    CreditAll(SettleAll(ReleaseAll(l, Needs(failed)), Needs(filled)), filled)
  }

  lemma SumSnoc(rs: seq<Reservation>, r: Reservation, slot: Slot)
    ensures SumAt(rs + [r], slot) == SumAt(rs, slot) + (if r.slot == slot then r.amount else 0.0)
  {
    assert (rs + [r])[..|rs|] == rs;
  }

  /** One more leg adds what it needs and what it receives. */
  lemma OneMoreLeg(legs: seq<Leg>, leg: Leg, slot: Slot)
    ensures CreditAt(legs + [leg], slot) == CreditAt(legs, slot) + LegCreditAt(leg, slot)
    ensures SumAt(Needs(legs + [leg]), slot) == SumAt(Needs(legs), slot) + LegNeedAt(leg, slot)
  {
    assert (legs + [leg])[..|legs|] == legs;
    hide LegCreditAt, LegAmount, LegAsset, SumAt;
    SumSnoc(Needs(legs), Reservation((leg.venue, LegAsset(leg.symbol, leg.side)), LegAmount(leg)), slot);
    assert Needs(legs) + [] == Needs(legs);
  }

  lemma ChosenNext(legs: seq<Leg>, fills: seq<bool>, leg: Leg, fill: bool, filled: bool, slot: Slot)
    requires |fills| == |legs|
    ensures var before, after := Chosen(legs, fills, filled), Chosen(legs + [leg], fills + [fill], filled);
            && CreditAt(after, slot) == CreditAt(before, slot)
               + (if fill == filled then LegCreditAt(leg, slot) else 0.0)
            && SumAt(Needs(after), slot)
               == SumAt(Needs(before), slot) + (if fill == filled then LegNeedAt(leg, slot) else 0.0)
  {
    assert (legs + [leg])[..|legs|] == legs && (fills + [fill])[..|fills|] == fills;
    hide LegCreditAt, LegNeedAt, SumAt, Needs, CreditAt;
    var before := Chosen(legs, fills, filled);
    assert before + [] == before;
    OneMoreLeg(before, leg, slot);
  }

  /** Filled and failed legs together need and receive what the whole route does. */
  lemma {:induction false} ChosenSplit(legs: seq<Leg>, fills: seq<bool>, slot: Slot)
    requires |fills| == |legs|
    ensures var filled, failed := Chosen(legs, fills, true), Chosen(legs, fills, false);
            && CreditAt(legs, slot) == CreditAt(filled, slot) + CreditAt(failed, slot)
            && SumAt(Needs(legs), slot) == SumAt(Needs(filled), slot) + SumAt(Needs(failed), slot)
  {
    if legs != [] {
      hide *;
      var n := |legs| - 1;
      var init, some := legs[..n], fills[..n];
      assert legs == init + [legs[n]] && fills == some + [fills[n]];
      ChosenSplit(init, some, slot);
      OneMoreLeg(init, legs[n], slot);
      ChosenNext(init, some, legs[n], fills[n], true, slot);
      ChosenNext(init, some, legs[n], fills[n], false, slot);
    }
  }

  lemma NonNegativeNeeds(legs: seq<Leg>, slot: Slot)
    ensures SumAt(Needs(legs), slot) >= 0.0
  {
    NeedsPositive(legs);
    SumNonNegative(Needs(legs), slot);
  }

  lemma ByFillsAt(l: Ledger, legs: seq<Leg>, fills: seq<bool>, slot: Slot)
    requires |fills| == |legs| && SumAt(Needs(legs), slot) <= BalanceAt(l, slot).locked
    ensures BalanceAt(ByFills(l, legs, fills), slot)
            == Balance(BalanceAt(l, slot).free + SumAt(Needs(legs), slot) + SlotNet(Chosen(legs, fills, true), slot),
                       BalanceAt(l, slot).locked - SumAt(Needs(legs), slot))
  {
    var filled, failed := Chosen(legs, fills, true), Chosen(legs, fills, false);
    hide Needs, Chosen, ReleaseAll, SettleAll, CreditAll, CreditAt, BalanceAt, SumAt;
    ChosenSplit(legs, fills, slot);
    NonNegativeNeeds(filled, slot);
    NonNegativeNeeds(failed, slot);
    NeedsPositive(filled);
    NeedsPositive(failed);
    ReleaseAllAt(l, Needs(failed), slot);
    var back := ReleaseAll(l, Needs(failed));
    SettleAllAt(back, Needs(filled), slot);
    CreditAllAt(SettleAll(back, Needs(filled)), filled, slot);
  }

  /** Not filling some legs made no difference in this slot. */
  ghost predicate Harmless(legs: seq<Leg>, fills: seq<bool>, slot: Slot)
    requires |fills| == |legs|
  {
    var filled, failed := Chosen(legs, fills, true), Chosen(legs, fills, false);
    if Needs(legs) == [] then SlotNet(filled, slot) == 0.0 else CreditAt(failed, slot) == SumAt(Needs(failed), slot)
  }

  lemma HarmlessMeans(legs: seq<Leg>, fills: seq<bool>, slot: Slot)
    requires |fills| == |legs|
    ensures Harmless(legs, fills, slot) <==> SettledNet(legs, slot) == SlotNet(Chosen(legs, fills, true), slot)
  {
    ChosenSplit(legs, fills, slot);
    hide CreditAt, SumAt, Needs, Chosen;
  }

  /**
   * With the legs traded at their listed sizes, the settled ledger is what the fills moved if and only if
   * in every slot the failed legs would have received just what they needed.
   */
  lemma SettledByFillsIff(l: Ledger, o: Opportunity, fills: seq<bool>)
    requires Outstands(l, o.legs) && |fills| == |o.legs|
    ensures SameBalances(FilledLedger(l, o), ByFills(l, o.legs, fills))
            <==> forall slot :: Harmless(o.legs, fills, slot)
  {
    hide *;
    forall slot
      ensures BalanceAt(FilledLedger(l, o), slot) == BalanceAt(ByFills(l, o.legs, fills), slot)
              <==> Harmless(o.legs, fills, slot)
    {
      ReservedIsLocked(l, o.legs, slot);
      FilledAt(l, o, slot);
      ByFillsAt(l, o.legs, fills, slot);
      HarmlessMeans(o.legs, fills, slot);
    }
    SameEverywhere(FilledLedger(l, o), ByFills(l, o.legs, fills));
  }

  lemma SameEverywhere(l: Ledger, m: Ledger)
    ensures SameBalances(l, m) <==> forall slot :: BalanceAt(l, slot) == BalanceAt(m, slot)
  {
  }
}
