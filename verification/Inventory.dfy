/** Free and locked balances per venue and asset. */
module Inventory {
  import opened Collections

  datatype Balance = Balance(free: real, locked: real) {
    function Total(): real {
      free + locked
    }
  }

  /** A venue and an asset. */
  type Slot = (string, string)

  type Ledger = Dict<Slot, Balance>

  datatype Reservation = Reservation(slot: Slot, amount: real)

  function BalanceAt(l: Ledger, slot: Slot): Balance {
    if slot in l.entries then l.entries[slot] else Balance(0.0, 0.0)
  }

  function Reserved(l: Ledger, r: Reservation): Ledger {
    var b := BalanceAt(l, r.slot);
    l.Put(r.slot, Balance(b.free - r.amount, b.locked + r.amount))
  }

  /** Unlocking never unlocks more than is locked. */
  function Released(l: Ledger, r: Reservation): Ledger {
    var b := BalanceAt(l, r.slot);
    var amount := if r.amount <= b.locked then r.amount else b.locked;
    l.Put(r.slot, Balance(b.free + amount, b.locked - amount))
  }

  /** Spending never takes the locked balance below zero. */
  function Settled(l: Ledger, r: Reservation): Ledger {
    var b := BalanceAt(l, r.slot);
    l.Put(r.slot, Balance(b.free, if b.locked - r.amount > 0.0 then b.locked - r.amount else 0.0))
  }

  function Credited(l: Ledger, slot: Slot, amount: real): Ledger {
    if amount <= 0.0 then l
    else
      var b := BalanceAt(l, slot);
      l.Put(slot, Balance(b.free + amount, b.locked))
  }

  function Share(l: Ledger, slot: Slot, asset: string): real {
    if slot.1 == asset then BalanceAt(l, slot).Total() else 0.0
  }

  /** Holdings of one asset over a list of slots. */
  function TotalOver(keys: seq<Slot>, l: Ledger, asset: string): real {
    if keys == [] then 0.0
    else TotalOver(keys[..|keys| - 1], l, asset) + Share(l, keys[|keys| - 1], asset)
  }

  function TotalOf(l: Ledger, asset: string): real {
    TotalOver(l.keys, l, asset)
  }

  class InventoryManager {
    var balances: Ledger

    constructor ()
      ensures balances == Dict([], map[])
    {
      balances := Dict([], map[]);
    }

    method SetBalance(venueId: string, asset: string, free: real, locked: real)
      modifies this
      ensures balances == old(balances).Put((venueId, asset), Balance(free, locked))
    {
      balances := balances.Put((venueId, asset), Balance(free, locked));
    }

    /** Locks `amount` of free balance, or refuses and changes nothing. */
    method Reserve(venueId: string, asset: string, amount: real) returns (ok: bool)
      modifies this
      ensures ok <==> BalanceAt(old(balances), (venueId, asset)).free >= amount
      ensures balances == if ok then Reserved(old(balances), Reservation((venueId, asset), amount)) else old(balances)
    {
      var balance := BalanceAt(balances, (venueId, asset));
      if balance.free < amount {
        return false;
      }
      balance := balance.(free := balance.free - amount);
      balance := balance.(locked := balance.locked + amount);
      balances := balances.Put((venueId, asset), balance);
      ok := true;
    }

    /** Unlocks a previously reserved amount. */
    method Release(venueId: string, asset: string, amount: real)
      modifies this
      ensures balances == Released(old(balances), Reservation((venueId, asset), amount))
    {
      var balance := BalanceAt(balances, (venueId, asset));
      var unlocked := if amount <= balance.locked then amount else balance.locked;
      balance := balance.(locked := balance.locked - unlocked);
      balance := balance.(free := balance.free + unlocked);
      balances := balances.Put((venueId, asset), balance);
    }

    /** Consumes a previously reserved amount. */
    method Settle(venueId: string, asset: string, amount: real)
      modifies this
      ensures balances == Settled(old(balances), Reservation((venueId, asset), amount))
    {
      var balance := BalanceAt(balances, (venueId, asset));
      balance := balance.(locked := if balance.locked - amount > 0.0 then balance.locked - amount else 0.0);
      balances := balances.Put((venueId, asset), balance);
    }

    /** Adds what a filled leg received. */
    method Credit(venueId: string, asset: string, amount: real)
      modifies this
      ensures balances == Credited(old(balances), (venueId, asset), amount)
    {
      if amount <= 0.0 {
        return;
      }
      var balance := BalanceAt(balances, (venueId, asset));
      balances := balances.Put((venueId, asset), balance.(free := balance.free + amount));
    }

    method TotalAcrossVenues(asset: string) returns (total: real)
      ensures total == TotalOf(balances, asset)
    {
      hide Share;
      total := 0.0;
      for k := 0 to |balances.keys|
        invariant total == TotalOver(balances.keys[..k], balances, asset)
      {
        TotalNext(balances.keys, k, balances, asset);
        total := total + Share(balances, balances.keys[k], asset);
      }
      assert balances.keys[..|balances.keys|] == balances.keys;
    }
  }

  lemma TotalNext(keys: seq<Slot>, k: nat, l: Ledger, asset: string)
    requires k < |keys|
    ensures TotalOver(keys[..k + 1], l, asset) == TotalOver(keys[..k], l, asset) + Share(l, keys[k], asset)
  {
    assert keys[..k + 1][..k] == keys[..k];
  }

  lemma SharePut(l: Ledger, slot: Slot, b: Balance, other: Slot, asset: string)
    ensures Share(l.Put(slot, b), other, asset)
            == if other == slot then (if slot.1 == asset then b.Total() else 0.0) else Share(l, other, asset)
  {
    hide Dict.Valid;
    assert BalanceAt(l.Put(slot, b), other) == if other == slot then b else BalanceAt(l, other);
  }

  /** Writing a slot that is not listed leaves the sum alone. */
  lemma {:induction false} TotalElsewhere(keys: seq<Slot>, l: Ledger, slot: Slot, b: Balance, asset: string)
    requires slot !in keys
    ensures TotalOver(keys, l.Put(slot, b), asset) == TotalOver(keys, l, asset)
  {
    hide Share, Dict.Put;
    if keys != [] {
      var last := keys[|keys| - 1];
      assert last in keys;
      TotalElsewhere(keys[..|keys| - 1], l, slot, b, asset);
      SharePut(l, slot, b, last, asset);
    }
  }

  lemma {:induction false} TotalHere(keys: seq<Slot>, l: Ledger, slot: Slot, b: Balance, asset: string)
    requires Distinct(keys) && slot in keys
    ensures TotalOver(keys, l.Put(slot, b), asset)
            == TotalOver(keys, l, asset) + (if slot.1 == asset then b.Total() else 0.0) - Share(l, slot, asset)
  {
    hide Share, Dict.Put;
    var init, last := keys[..|keys| - 1], keys[|keys| - 1];
    SharePut(l, slot, b, last, asset);
    if last == slot {
      TotalElsewhere(init, l, slot, b, asset);
    } else {
      assert slot in init;
      TotalHere(init, l, slot, b, asset);
    }
  }

  /** Writing one balance moves its asset's total by the difference. */
  lemma TotalPut(l: Ledger, slot: Slot, b: Balance, asset: string)
    requires l.Valid()
    ensures l.Put(slot, b).Valid()
    ensures TotalOf(l.Put(slot, b), asset)
            == TotalOf(l, asset) + (if slot.1 == asset then b.Total() - BalanceAt(l, slot).Total() else 0.0)
  {
    hide *;
    ValidKeys(l, slot);
    if slot in l.entries {
      TotalOld(l, slot, b, asset);
    } else {
      TotalNew(l, slot, b, asset);
      NothingAt(l, slot);
    }
  }

  lemma ValidKeys(l: Ledger, slot: Slot)
    requires l.Valid()
    ensures Distinct(l.keys) && (slot in l.entries <==> slot in l.keys)
  {
  }

  lemma NothingAt(l: Ledger, slot: Slot)
    requires slot !in l.entries
    ensures BalanceAt(l, slot).Total() == 0.0
  {
  }

  lemma TotalOld(l: Ledger, slot: Slot, b: Balance, asset: string)
    requires Distinct(l.keys) && slot in l.keys && slot in l.entries
    ensures TotalOf(l.Put(slot, b), asset)
            == TotalOf(l, asset) + (if slot.1 == asset then b.Total() - BalanceAt(l, slot).Total() else 0.0)
  {
    hide Dict.Valid;
    TotalHere(l.keys, l, slot, b, asset);
    ShareIs(l, slot, asset);
  }

  lemma TotalNew(l: Ledger, slot: Slot, b: Balance, asset: string)
    requires slot !in l.entries && slot !in l.keys
    ensures TotalOf(l.Put(slot, b), asset) == TotalOf(l, asset) + (if slot.1 == asset then b.Total() else 0.0)
  {
    hide Dict.Valid;
    TotalElsewhere(l.keys, l, slot, b, asset);
    SharePut(l, slot, b, slot, asset);
    hide Share;
    assert l.Put(slot, b).keys[..|l.keys|] == l.keys;
  }

  lemma ShareIs(l: Ledger, slot: Slot, asset: string)
    ensures Share(l, slot, asset) == if slot.1 == asset then BalanceAt(l, slot).Total() else 0.0
  {
  }

  /** What a list of reservations holds in one slot, and of one asset. */
  function SumAt(rs: seq<Reservation>, slot: Slot): real {
    if rs == [] then 0.0
    else
      SumAt(rs[..|rs| - 1], slot)
      + (if rs[|rs| - 1].slot == slot then rs[|rs| - 1].amount else 0.0)
  }

  function SumOf(rs: seq<Reservation>, asset: string): real {
    if rs == [] then 0.0
    else
      SumOf(rs[..|rs| - 1], asset)
      + (if rs[|rs| - 1].slot.1 == asset then rs[|rs| - 1].amount else 0.0)
  }

  ghost predicate Positive(rs: seq<Reservation>) {
    forall r | r in rs :: r.amount > 0.0
  }

  lemma {:induction false} SumNonNegative(rs: seq<Reservation>, slot: Slot)
    requires Positive(rs)
    ensures SumAt(rs, slot) >= 0.0
    ensures forall r | r in rs && r.slot == slot :: SumAt(rs, slot) >= r.amount
  {
    if rs != [] {
      var init, last := rs[..|rs| - 1], rs[|rs| - 1];
      assert rs == init + [last] && last in rs;
      SumNonNegative(init, slot);
    }
  }

  function LockAll(l: Ledger, rs: seq<Reservation>): Ledger {
    if rs == [] then l else Reserved(LockAll(l, rs[..|rs| - 1]), rs[|rs| - 1])
  }

  function ReleaseAll(l: Ledger, rs: seq<Reservation>): Ledger {
    if rs == [] then l else Released(ReleaseAll(l, rs[..|rs| - 1]), rs[|rs| - 1])
  }

  function SettleAll(l: Ledger, rs: seq<Reservation>): Ledger {
    if rs == [] then l else Settled(SettleAll(l, rs[..|rs| - 1]), rs[|rs| - 1])
  }

  /** Locking moves each slot's sum from free to locked. */
  lemma {:induction false} LockAllAt(l: Ledger, rs: seq<Reservation>, slot: Slot)
    ensures BalanceAt(LockAll(l, rs), slot)
            == Balance(BalanceAt(l, slot).free - SumAt(rs, slot), BalanceAt(l, slot).locked + SumAt(rs, slot))
  {
    if rs != [] {
      LockAllAt(l, rs[..|rs| - 1], slot);
    }
  }

  /** Asked for more than is locked, a release unlocks and a settlement spends just what is locked. */
  lemma NeverBelowZero(l: Ledger, r: Reservation, slot: Slot)
    requires BalanceAt(l, r.slot).locked >= 0.0
    ensures var before, released, settled :=
            BalanceAt(l, slot), BalanceAt(Released(l, r), slot), BalanceAt(Settled(l, r), slot);
            if slot != r.slot then released == settled == before
            else && released.free + released.locked == before.free + before.locked && settled.free == before.free
                 && released.locked == settled.locked >= 0.0
                 && (r.amount >= before.locked ==> settled.locked == 0.0)
                 && (r.amount <= before.locked ==> settled.locked == before.locked - r.amount)
  {
    hide Dict.Valid;
  }

  /** Releasing what is locked moves it back; the minimum never bites. */
  lemma {:induction false} ReleaseAllAt(l: Ledger, rs: seq<Reservation>, slot: Slot)
    requires Positive(rs) && SumAt(rs, slot) <= BalanceAt(l, slot).locked
    ensures BalanceAt(ReleaseAll(l, rs), slot)
            == Balance(BalanceAt(l, slot).free + SumAt(rs, slot), BalanceAt(l, slot).locked - SumAt(rs, slot))
  {
    if rs != [] {
      assert rs[|rs| - 1] in rs && forall r | r in rs[..|rs| - 1] :: r in rs;
      ReleaseAllAt(l, rs[..|rs| - 1], slot);
    }
  }

  /** Settling what is locked spends it; the maximum never bites. */
  lemma {:induction false} SettleAllAt(l: Ledger, rs: seq<Reservation>, slot: Slot)
    requires Positive(rs) && SumAt(rs, slot) <= BalanceAt(l, slot).locked
    ensures BalanceAt(SettleAll(l, rs), slot)
            == Balance(BalanceAt(l, slot).free, BalanceAt(l, slot).locked - SumAt(rs, slot))
  {
    if rs != [] {
      assert rs[|rs| - 1] in rs && forall r | r in rs[..|rs| - 1] :: r in rs;
      SettleAllAt(l, rs[..|rs| - 1], slot);
    }
  }

  /** Spending locked reservations lowers each asset's holdings by exactly their sum. */
  lemma {:induction false} SettleAllTotal(l: Ledger, rs: seq<Reservation>, asset: string)
    requires l.Valid() && Positive(rs) && forall slot :: SumAt(rs, slot) <= BalanceAt(l, slot).locked
    ensures SettleAll(l, rs).Valid() && TotalOf(SettleAll(l, rs), asset) == TotalOf(l, asset) - SumOf(rs, asset)
  {
    if rs != [] {
      var init, last := rs[..|rs| - 1], rs[|rs| - 1];
      assert last in rs && forall r | r in init :: r in rs;
      forall slot ensures SumAt(init, slot) <= BalanceAt(l, slot).locked {
        assert SumAt(rs, slot) <= BalanceAt(l, slot).locked;
      }
      SettleAllTotal(l, init, asset);
      SettleAllAt(l, init, last.slot);
      var before := SettleAll(l, init);
      assert SumAt(rs, last.slot) <= BalanceAt(l, last.slot).locked;
      TotalPut(before, last.slot, BalanceAt(Settled(before, last), last.slot), asset);
    }
  }

  /** Locking and releasing the same list restores the ledger itself, not only its balances. */
  lemma RollbackRestores(l: Ledger, rs: seq<Reservation>)
    requires l.Valid() && Positive(rs)
    requires (forall slot :: BalanceAt(l, slot).locked >= 0.0) && forall r | r in rs :: r.slot in l.entries
    ensures ReleaseAll(LockAll(l, rs), rs) == l
  {
    var locked := LockAll(l, rs);
    var back := ReleaseAll(locked, rs);
    LockAllKeys(l, rs);
    ReleaseAllKeys(locked, rs);
    forall slot ensures BalanceAt(back, slot) == BalanceAt(l, slot) {
      LockAllAt(l, rs, slot);
      ReleaseAllAt(locked, rs, slot);
    }
    forall slot | slot in l.entries ensures back.entries[slot] == l.entries[slot] {
      assert BalanceAt(back, slot) == BalanceAt(l, slot);
    }
    assert back.entries == l.entries;
  }

  lemma {:induction false} LockAllKeys(l: Ledger, rs: seq<Reservation>)
    requires forall r | r in rs :: r.slot in l.entries
    ensures LockAll(l, rs).keys == l.keys && LockAll(l, rs).entries.Keys == l.entries.Keys
  {
    if rs != [] {
      assert rs[|rs| - 1] in rs && forall r | r in rs[..|rs| - 1] :: r in rs;
      LockAllKeys(l, rs[..|rs| - 1]);
    }
  }

  lemma {:induction false} ReleaseAllKeys(l: Ledger, rs: seq<Reservation>)
    requires forall r | r in rs :: r.slot in l.entries
    ensures ReleaseAll(l, rs).keys == l.keys && ReleaseAll(l, rs).entries.Keys == l.entries.Keys
  {
    if rs != [] {
      assert rs[|rs| - 1] in rs && forall r | r in rs[..|rs| - 1] :: r in rs;
      ReleaseAllKeys(l, rs[..|rs| - 1]);
    }
  }
}
