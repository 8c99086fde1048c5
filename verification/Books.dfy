/** Order books of one symbol on one venue: replacement, incremental diffs and the depth walk. */
module Books {
  import opened Collections
  import opened Sorting
  import opened Walks

  datatype Level = Level(price: real, size: real)

  function Min(a: real, b: real): real {
    if a <= b then a else b
  }

  /** Notional of `quantity` units at `price`. */
  function Notional(quantity: real, price: real): real {
    quantity * price
  }

  /** Quantity filled by walking `levels` for `size` units, and what it costs. */
  function Filled(levels: seq<Level>, size: real): real {
    if levels == [] then 0.0
    else
      var take := Min(size, levels[0].size);
      take + (if size - take <= 0.0 then 0.0 else Filled(levels[1..], size - take))
  }

  function Cost(levels: seq<Level>, size: real): real {
    if levels == [] then 0.0
    else
      var take := Min(size, levels[0].size);
      Notional(take, levels[0].price) + (if size - take <= 0.0 then 0.0 else Cost(levels[1..], size - take))
  }

  function Vwap(levels: seq<Level>, size: real): real {
    if Filled(levels, size) <= 0.0 then 0.0 else Cost(levels, size) / Filled(levels, size)
  }

  lemma EmptyWalk(levels: seq<Level>, size: real)
    requires levels == []
    ensures Filled(levels, size) == 0.0 && Cost(levels, size) == 0.0
  {
  }

  /** What one level contributes to the walk that starts at it. */
  lemma WalkOne(levels: seq<Level>, size: real)
    requires levels != []
    ensures var take := Min(size, levels[0].size);
            && Filled(levels, size) == take + (if size - take <= 0.0 then 0.0 else Filled(levels[1..], size - take))
            && Cost(levels, size) == Notional(take, levels[0].price)
               + (if size - take <= 0.0 then 0.0 else Cost(levels[1..], size - take))
  {
  }

  /** An immutable snapshot of one book. */
  datatype BookState = BookState(bids: seq<Level>, asks: seq<Level>, timestamp: real) {
    function BestBid(): real {
      if bids == [] then 0.0 else bids[0].price
    }

    function BestAsk(): Extended {
      if asks == [] then Infinite else Finite(asks[0].price)
    }

    /** The side of the book an order walks. */
    function Against(side: Side): seq<Level> {
      if side == Buy then asks else bids
    }

    method VwapFillPrice(side: Side, size: real) returns (vwap: real, filled: real)
      ensures vwap == Vwap(Against(side), size)
      ensures filled == (if Filled(Against(side), size) <= 0.0 then 0.0 else Filled(Against(side), size))
    {
      var levels := Against(side);
      var remaining, cost := size, 0.0;
      filled := 0.0;
      var k := 0;
      ghost var done := false;
      assert levels[0..] == levels;
      hide Filled, Cost, Notional, Min;
      while k < |levels|
        invariant 0 <= k <= |levels|
        invariant k > 0 ==> remaining > 0.0
        invariant filled + Filled(levels[k..], remaining) == Filled(levels, size)
        invariant cost + Cost(levels[k..], remaining) == Cost(levels, size)
      {
        assert levels[k..][0] == levels[k] && levels[k..][1..] == levels[k + 1..];
        WalkOne(levels[k..], remaining);
        var take := Min(remaining, levels[k].size);
        cost := cost + Notional(take, levels[k].price);
        filled := filled + take;
        remaining := remaining - take;
        k := k + 1;
        if remaining <= 0.0 {
          done := true;
          break;
        }
      }
      assert filled == Filled(levels, size) && cost == Cost(levels, size) by {
        if !done {
          EmptyWalk(levels[k..], remaining);
        }
      }
      if filled <= 0.0 {
        return 0.0, 0.0;
      }
      vwap := cost / filled;
    }
  }

  /** Books by venue and symbol. */
  type BookTable = map<(string, string), BookState>

  /** Asks run upwards, bids downwards. */
  predicate Before(descending: bool, a: real, b: real) {
    if descending then a > b else a < b
  }

  predicate NotAfterAsk(a: Level, b: Level) {
    a.price <= b.price
  }

  predicate NotAfterBid(a: Level, b: Level) {
    a.price >= b.price
  }

  function Arranged(descending: bool, levels: seq<Level>): seq<Level> {
    if descending then SortBy(levels, NotAfterBid) else SortBy(levels, NotAfterAsk)
  }

  ghost predicate StrictlyOrdered(descending: bool, levels: seq<Level>) {
    forall i, j | 0 <= i < j < |levels| :: Before(descending, levels[i].price, levels[j].price)
  }

  /** `levels` is the strictly ordered listing of the price-to-size map `m`. */
  ghost predicate Lists(descending: bool, levels: seq<Level>, m: map<real, real>) {
    && StrictlyOrdered(descending, levels)
    && (forall l | l in levels :: l.price in m && m[l.price] == l.size)
    && (forall p | p in m :: Level(p, m[p]) in levels)
  }

  ghost predicate AllPositive(m: map<real, real>) {
    forall p | p in m :: m[p] > 0.0
  }

  /** One update on the plain map: a size of zero or less removes the price. */
  function Update(m: map<real, real>, u: Level): map<real, real> {
    if u.size <= 0.0 then m - {u.price} else m[u.price := u.size]
  }

  function UpdateAll(m: map<real, real>, updates: seq<Level>): map<real, real>
    decreases |updates|
  {
    if updates == [] then m else UpdateAll(Update(m, updates[0]), updates[1..])
  }

  /** `dict(zip(prices, sizes))`: a repeated price keeps its last size. */
  function DictOf(levels: seq<Level>): (d: Dict<real, real>)
    ensures d.Valid()
  {
    if levels == [] then Dict([], map[])
    else
      var last := levels[|levels| - 1];
      DictOf(levels[..|levels| - 1]).Put(last.price, last.size)
  }

  function Items(d: Dict<real, real>): seq<Level>
    requires forall i | 0 <= i < |d.keys| :: d.keys[i] in d.entries
  {
    seq(|d.keys|, i requires 0 <= i < |d.keys| => Level(d.keys[i], d.entries[d.keys[i]]))
  }

  /** The last level of a list at this price has this size. */
  ghost predicate LastAt(levels: seq<Level>, price: real, size: real) {
    exists k :: 0 <= k < |levels| && levels[k] == Level(price, size)
                && forall j | k < j < |levels| :: levels[j].price != price
  }

  ghost predicate Unmentioned(levels: seq<Level>, price: real) {
    forall k | 0 <= k < |levels| :: levels[k].price != price
  }

  /**
   * A diff applied, price by price: the last update of a price lists it at the new size, or removes it when
   * that size is not positive; a price without an update is listed as it was.
   */
  ghost predicate DiffApplied(before: seq<Level>, updates: seq<Level>, after: seq<Level>) {
    forall price: real, size: real :: Level(price, size) in after <==>
      (LastAt(updates, price, size) && size > 0.0) || (Unmentioned(updates, price) && LastAt(before, price, size))
  }

  lemma LastOfSnoc(levels: seq<Level>, l: Level, price: real, size: real)
    ensures LastAt(levels + [l], price, size)
            <==> if l.price == price then l.size == size else LastAt(levels, price, size)
  {
    var more := levels + [l];
    assert more[|levels|] == l;
    if l.price != price {
      if LastAt(levels, price, size) {
        var k :| 0 <= k < |levels| && levels[k] == Level(price, size)
                 && forall j | k < j < |levels| :: levels[j].price != price;
        assert more[k] == levels[k];
      }
      if LastAt(more, price, size) {
        LastInit(levels, l, price, size);
      }
    }
  }

  lemma LastInit(levels: seq<Level>, l: Level, price: real, size: real)
    requires l.price != price && LastAt(levels + [l], price, size)
    ensures LastAt(levels, price, size)
  {
    var more := levels + [l];
    var k :| 0 <= k < |more| && more[k] == Level(price, size)
             && forall j | k < j < |more| :: more[j].price != price;
    assert more[|levels|] == l && forall j | 0 <= j < |levels| :: levels[j] == more[j];
  }

  lemma LastOfCons(l: Level, levels: seq<Level>, price: real, size: real)
    ensures LastAt([l] + levels, price, size)
            <==> LastAt(levels, price, size) || (Unmentioned(levels, price) && l == Level(price, size))
    ensures Unmentioned([l] + levels, price) <==> l.price != price && Unmentioned(levels, price)
  {
    var more := [l] + levels;
    assert more[0] == l && forall k | 0 <= k < |levels| :: more[k + 1] == levels[k];
    if LastAt(more, price, size) {
      LastInRest(l, levels, price, size);
    }
    if LastAt(levels, price, size) {
      LastAfter(l, levels, price, size);
    }
    if Unmentioned(levels, price) && l == Level(price, size) {
      assert forall j | 0 < j < |more| :: more[j] == levels[j - 1];
    }
  }

  lemma LastInRest(l: Level, levels: seq<Level>, price: real, size: real)
    requires LastAt([l] + levels, price, size)
    ensures LastAt(levels, price, size) || (Unmentioned(levels, price) && l == Level(price, size))
  {
    var more := [l] + levels;
    var k :| 0 <= k < |more| && more[k] == Level(price, size) && forall j | k < j < |more| :: more[j].price != price;
    assert forall j | 0 <= j < |levels| :: levels[j] == more[j + 1];
    if k > 0 {
      assert levels[k - 1] == more[k];
    }
  }

  lemma LastAfter(l: Level, levels: seq<Level>, price: real, size: real)
    requires LastAt(levels, price, size)
    ensures LastAt([l] + levels, price, size)
  {
    var more := [l] + levels;
    var k :| 0 <= k < |levels| && levels[k] == Level(price, size)
             && forall j | k < j < |levels| :: levels[j].price != price;
    assert more[k + 1] == levels[k] && forall j | k + 1 < j < |more| :: more[j] == levels[j - 1];
  }

  /** The working dictionary holds the last size of every price. */
  lemma {:induction false} DictHoldsLast(levels: seq<Level>, price: real, size: real)
    ensures price in DictOf(levels).entries && DictOf(levels).entries[price] == size <==> LastAt(levels, price, size)
  {
    if levels != [] {
      var init, last := levels[..|levels| - 1], levels[|levels| - 1];
      DictHoldsLast(init, price, size);
      LastOfSnoc(init, last, price, size);
      assert levels == init + [last];
      hide LastAt;
    }
  }

  /** The last update of a price decides it; without one the map keeps what it had. */
  lemma {:induction false} UpdatesDecide(m: map<real, real>, updates: seq<Level>, price: real, size: real)
    ensures price in UpdateAll(m, updates) && UpdateAll(m, updates)[price] == size
            <==> (LastAt(updates, price, size) && size > 0.0)
                 || (Unmentioned(updates, price) && price in m && m[price] == size)
    decreases |updates|
  {
    if updates != [] {
      var first, rest := updates[0], updates[1..];
      assert updates == [first] + rest;
      UpdatesDecide(Update(m, first), rest, price, size);
      LastOfCons(first, rest, price, size);
      LastNotUnmentioned(rest, price, size);
      hide LastAt, Unmentioned;
    }
  }

  lemma LastNotUnmentioned(levels: seq<Level>, price: real, size: real)
    ensures LastAt(levels, price, size) ==> !Unmentioned(levels, price)
  {
  }

  /** A listing of the updated map is the diff applied. */
  lemma ListsApplied(descending: bool, before: seq<Level>, updates: seq<Level>, after: seq<Level>)
    requires Lists(descending, after, UpdateAll(DictOf(before).entries, updates))
    ensures DiffApplied(before, updates, after)
  {
    var m := UpdateAll(DictOf(before).entries, updates);
    forall price: real, size: real
      ensures Level(price, size) in after <==>
              (LastAt(updates, price, size) && size > 0.0)
                  || (Unmentioned(updates, price) && LastAt(before, price, size))
    {
      assert Level(price, size) in after <==> price in m && m[price] == size;
      UpdatesDecide(DictOf(before).entries, updates, price, size);
      DictHoldsLast(before, price, size);
      hide Lists, UpdateAll, LastAt, Unmentioned;
    }
  }

  /** The best quotes are those of the listed levels: no listed ask is lower, no listed bid is higher. */
  ghost predicate QuotesBest(s: BookState) {
    && (if s.asks == [] then s.BestAsk() == Infinite
        else s.BestAsk().Finite? && (exists l :: l in s.asks && l.price == s.BestAsk().value)
             && forall l | l in s.asks :: s.BestAsk().value <= l.price)
    && (if s.bids == [] then s.BestBid() == 0.0
        else (exists l :: l in s.bids && l.price == s.BestBid()) && forall l | l in s.bids :: l.price <= s.BestBid())
  }

  lemma OrderedQuotes(s: BookState)
    requires Ordered(s.bids, NotAfterBid) && Ordered(s.asks, NotAfterAsk)
    ensures QuotesBest(s)
  {
    assert s.asks != [] ==> s.asks[0] in s.asks;
    assert s.bids != [] ==> s.bids[0] in s.bids;
  }

  lemma StrictSides(s: BookState)
    requires StrictlyOrdered(true, s.bids) && StrictlyOrdered(false, s.asks)
    ensures Ordered(s.bids, NotAfterBid) && Ordered(s.asks, NotAfterAsk)
  {
  }

  /** Merges updates into a working dictionary and lists the result in order. */
  method Merge(descending: bool, levels: seq<Level>, updates: seq<Level>) returns (merged: seq<Level>)
    ensures Lists(descending, merged, UpdateAll(DictOf(levels).entries, updates))
    ensures DiffApplied(levels, updates, merged)
  {
    var working := DictOf(levels);
    for k := 0 to |updates|
      invariant working.Valid()
      invariant UpdateAll(working.entries, updates[k..]) == UpdateAll(DictOf(levels).entries, updates)
    {
      assert updates[k..][0] == updates[k] && updates[k..][1..] == updates[k + 1..];
      if updates[k].size <= 0.0 {
        working := working.Pop(updates[k].price);
      } else {
        working := working.Put(updates[k].price, updates[k].size);
      }
    }
    assert updates[|updates|..] == [];
    merged := Arranged(descending, Items(working));
    ArrangedLists(descending, working);
    ListsApplied(descending, levels, updates, merged);
  }

  /** Any arrangement of the items in price order is the strictly ordered listing. */
  lemma OrderedItems(descending: bool, d: Dict<real, real>, r: seq<Level>)
    requires d.Valid() && multiset(r) == multiset(Items(d))
    requires forall i, j | 0 <= i < j < |r| :: !Before(descending, r[j].price, r[i].price)
    ensures Lists(descending, r, d.entries)
  {
    var items := Items(d);
    DistinctByMultiset(items, r);
    forall l | l in r ensures l.price in d.entries && d.entries[l.price] == l.size {
      assert l in multiset(r) && l in items;
    }
    forall i, j | 0 <= i < j < |r| ensures Before(descending, r[i].price, r[j].price) {
      assert r[i] in r && r[j] in r && r[i] != r[j];
    }
    forall p | p in d.entries ensures Level(p, d.entries[p]) in r {
      var k :| 0 <= k < |d.keys| && d.keys[k] == p;
      assert items[k] == Level(p, d.entries[p]);
      assert items[k] in multiset(items);
    }
  }

  lemma ArrangedLists(descending: bool, d: Dict<real, real>)
    requires d.Valid()
    ensures Lists(descending, Arranged(descending, Items(d)), d.entries)
  {
    hide Lists;
    if descending {
      SortByOrdered(Items(d), NotAfterBid);
    } else {
      SortByOrdered(Items(d), NotAfterAsk);
    }
    OrderedItems(descending, d, Arranged(descending, Items(d)));
  }

  /** The current state of one symbol on one venue. */
  class OrderBook {
    const venueId: string
    const symbol: string
    var state: BookState

    constructor (venueId: string, symbol: string)
      ensures this.venueId == venueId && this.symbol == symbol && state == BookState([], [], 0.0)
    {
      this.venueId, this.symbol, state := venueId, symbol, BookState([], [], 0.0);
    }

    /** Installs a full snapshot; equal prices and empty levels are kept as they come. */
    method Replace(bids: seq<Level>, asks: seq<Level>, now: real)
      modifies this
      ensures state.bids == Arranged(true, bids) && multiset(state.bids) == multiset(bids)
              && Ordered(state.bids, NotAfterBid)
      ensures state.asks == Arranged(false, asks) && multiset(state.asks) == multiset(asks)
              && Ordered(state.asks, NotAfterAsk)
      ensures QuotesBest(state) && state.timestamp == now
    {
      state := BookState(SortBy(bids, NotAfterBid), SortBy(asks, NotAfterAsk), now);
      SortByOrdered(bids, NotAfterBid);
      SortByOrdered(asks, NotAfterAsk);
      OrderedQuotes(state);
    }

    /** Merges a diff into the current levels. */
    method ApplyDiff(bidUpdates: seq<Level>, askUpdates: seq<Level>, now: real)
      modifies this
      ensures Lists(true, state.bids, UpdateAll(DictOf(old(state.bids)).entries, bidUpdates))
      ensures Lists(false, state.asks, UpdateAll(DictOf(old(state.asks)).entries, askUpdates))
      ensures DiffApplied(old(state.bids), bidUpdates, state.bids)
              && DiffApplied(old(state.asks), askUpdates, state.asks)
      ensures QuotesBest(state) && state.timestamp == now
    {
      var prior := state;
      var bids := Merge(true, prior.bids, bidUpdates);
      var asks := Merge(false, prior.asks, askUpdates);
      state := BookState(bids, asks, now);
      hide DiffApplied, QuotesBest, DictOf, UpdateAll;
      StrictSides(state);
      OrderedQuotes(state);
    }
  }
}
