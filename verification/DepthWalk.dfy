/** The depth walk is an optimal fill, so its average price only worsens with size. */
module DepthWalk {
  import opened Walks
  import opened Books

  lemma Ordered(k: real, a: real, b: real)
    requires k >= 0.0 && a <= b
    ensures k * a <= k * b && a * k <= b * k
  {
  }

  ghost predicate NonNegative(levels: seq<Level>) {
    forall l | l in levels :: l.size >= 0.0
  }

  ghost predicate Ascending(levels: seq<Level>) {
    forall i, j | 0 <= i < j < |levels| :: levels[i].price <= levels[j].price
  }

  ghost predicate Descending(levels: seq<Level>) {
    forall i, j | 0 <= i < j < |levels| :: levels[i].price >= levels[j].price
  }

  function Depth(levels: seq<Level>): real {
    if levels == [] then 0.0 else levels[0].size + Depth(levels[1..])
  }

  function Sum(x: seq<real>): real {
    if x == [] then 0.0 else x[0] + Sum(x[1..])
  }

  /** What taking `x[i]` units from level `i` costs. */
  function Spend(levels: seq<Level>, x: seq<real>): real
    requires |x| == |levels|
  {
    if levels == [] then 0.0 else Notional(x[0], levels[0].price) + Spend(levels[1..], x[1..])
  }

  /** A way to take `Sum(x)` units from the displayed levels. */
  ghost predicate Allocation(levels: seq<Level>, x: seq<real>) {
    |x| == |levels| && forall i | 0 <= i < |x| :: 0.0 <= x[i] <= levels[i].size
  }

  lemma {:induction false} NothingLeft(levels: seq<Level>)
    requires NonNegative(levels)
    ensures Filled(levels, 0.0) == 0.0 && Cost(levels, 0.0) == 0.0
  {
  }

  /** One level of the walk, whether or not it is the last one reached. */
  lemma WalkStep(levels: seq<Level>, q: real)
    requires NonNegative(levels) && levels != [] && q >= 0.0
    ensures var take := Min(q, levels[0].size);
            && 0.0 <= take <= q && NonNegative(levels[1..])
            && Filled(levels, q) == take + Filled(levels[1..], q - take)
            && Cost(levels, q) == Notional(take, levels[0].price) + Cost(levels[1..], q - take)
  {
  }

  lemma {:induction false} DepthNonNegative(levels: seq<Level>)
    requires NonNegative(levels)
    ensures Depth(levels) >= 0.0
  {
    if levels != [] {
      assert levels[0] in levels && forall l | l in levels[1..] :: l in levels;
      DepthNonNegative(levels[1..]);
    }
  }

  /** The walk fills the order or exhausts the book. */
  lemma {:induction false} FillsWhatItCan(levels: seq<Level>, q: real)
    requires NonNegative(levels) && q >= 0.0
    ensures Filled(levels, q) == Min(q, Depth(levels))
    decreases |levels|
  {
    if levels != [] {
      WalkStep(levels, q);
      DepthNonNegative(levels[1..]);
      FillsWhatItCan(levels[1..], q - Min(q, levels[0].size));
    }
  }

  /** Asking for more than the book holds costs what it holds. */
  lemma {:induction false} CostOfFilled(levels: seq<Level>, q: real)
    requires NonNegative(levels) && q >= 0.0
    ensures Cost(levels, q) == Cost(levels, Filled(levels, q))
    decreases |levels|
  {
    FillsWhatItCan(levels, q);
    if levels != [] {
      var take := Min(q, levels[0].size);
      WalkStep(levels, q);
      DepthNonNegative(levels[1..]);
      FillsWhatItCan(levels[1..], q - take);
      CostOfFilled(levels[1..], q - take);
      DepthNonNegative(levels);
      WalkStep(levels, Filled(levels, q));
      assert Min(Filled(levels, q), levels[0].size) == take;
    }
  }

  lemma SplitMargin(a: real, b: real, ta: real, tb: real, p: real, price: real, ra: real, rb: real)
    requires tb <= ta && price <= p && ra - rb >= Notional((a - ta) - (b - tb), price)
    ensures (Notional(ta, p) + ra) - (Notional(tb, p) + rb) >= Notional(a - b, price)
  {
    Ordered(ta - tb, price, p);
    assert ta * p - tb * p == (ta - tb) * p;
    assert (a - b) * price == (ta - tb) * price + ((a - ta) - (b - tb)) * price;
  }

  lemma NothingCosts(price: real)
    ensures Notional(0.0, price) == 0.0
  {
  }

  /** Extra units cost at least the price of the cheapest level. */
  lemma {:induction false} MarginalCost(levels: seq<Level>, price: real, a: real, b: real)
    requires NonNegative(levels) && NotBelow(levels, price)
    requires 0.0 <= b <= a <= Depth(levels)
    ensures Cost(levels, a) - Cost(levels, b) >= Notional(a - b, price)
    decreases |levels|
  {
    if levels == [] {
      NothingCosts(price);
    } else {
      var p, ta, tb := levels[0].price, Min(a, levels[0].size), Min(b, levels[0].size);
      RestNotBelow(levels, price);
      WalkStep(levels, a);
      WalkStep(levels, b);
      DepthNonNegative(levels[1..]);
      hide Notional, Filled, NonNegative, NotBelow;
      MarginalCost(levels[1..], price, a - ta, b - tb);
      SplitMargin(a, b, ta, tb, p, price, Cost(levels[1..], a - ta), Cost(levels[1..], b - tb));
    }
  }

  ghost predicate NotBelow(levels: seq<Level>, price: real) {
    forall l | l in levels :: l.price >= price
  }

  lemma RestNotBelow(levels: seq<Level>, price: real)
    requires NotBelow(levels, price) && levels != []
    ensures NotBelow(levels[1..], price) && levels[0].price >= price
  {
  }

  lemma AscendingNotBelow(levels: seq<Level>)
    requires Ascending(levels) && levels != []
    ensures NotBelow(levels, levels[0].price) && Ascending(levels[1..])
  {
  }

  /** The levels the walk actually takes. */
  function Takes(levels: seq<Level>, q: real): (x: seq<real>)
    ensures |x| == |levels|
  {
    if levels == [] then [] else var take := Min(q, levels[0].size); [take] + Takes(levels[1..], q - take)
  }

  lemma {:induction false} TakesIsTheWalk(levels: seq<Level>, q: real)
    requires NonNegative(levels) && q >= 0.0
    ensures Allocation(levels, Takes(levels, q))
    ensures Sum(Takes(levels, q)) == Filled(levels, q) && Spend(levels, Takes(levels, q)) == Cost(levels, q)
    decreases |levels|
  {
    if levels != [] {
      WalkStep(levels, q);
      var take := Min(q, levels[0].size);
      var rest := Takes(levels[1..], q - take);
      hide NonNegative, Filled, Cost, Notional, Allocation;
      TakesIsTheWalk(levels[1..], q - take);
      AllocationGrows(levels, take, rest);
      assert Takes(levels, q)[1..] == rest;
    } else {
      assert Allocation(levels, Takes(levels, q));
    }
  }

  lemma AllocationGrows(levels: seq<Level>, take: real, rest: seq<real>)
    requires levels != [] && 0.0 <= take <= levels[0].size && Allocation(levels[1..], rest)
    ensures Allocation(levels, [take] + rest)
  {
  }

  lemma {:induction false} SumWithinDepth(levels: seq<Level>, x: seq<real>)
    requires Allocation(levels, x)
    ensures 0.0 <= Sum(x) <= Depth(levels)
  {
    if levels != [] {
      SumWithinDepth(levels[1..], x[1..]);
    }
  }

  lemma NotionalDifference(a: real, b: real, price: real)
    ensures Notional(a - b, price) == Notional(a, price) - Notional(b, price)
  {
  }

  /** Moving units from the cheapest level to later ones costs at least as much. */
  lemma CheaperFirst(rest: seq<Level>, p: real, q: real, x: real, take: real)
    requires NonNegative(rest) && NotBelow(rest, p)
    requires 0.0 <= x <= take <= q && q - x <= Depth(rest)
    ensures Notional(x, p) + Cost(rest, q - x) >= Notional(take, p) + Cost(rest, q - take)
  {
    hide NonNegative, NotBelow, Cost, Depth, Notional;
    MarginalCost(rest, p, q - x, q - take);
    NotionalDifference(take, x, p);
    assert (q - x) - (q - take) == take - x;
  }

  /** No way of buying the same quantity from rising asks is cheaper than the walk. */
  lemma {:induction false} WalkIsCheapest(levels: seq<Level>, x: seq<real>)
    requires NonNegative(levels) && Ascending(levels) && Allocation(levels, x)
    ensures Cost(levels, Sum(x)) <= Spend(levels, x)
    decreases |levels|
  {
    if levels == [] {
    } else {
      var q, rest, p := Sum(x), levels[1..], levels[0].price;
      var take := Min(q, levels[0].size);
      SumWithinDepth(levels, x);
      SumWithinDepth(rest, x[1..]);
      assert x[0] <= take;
      WalkStep(levels, q);
      AscendingNotBelow(levels);
      RestNotBelow(levels, p);
      assert Allocation(rest, x[1..]);
      hide NonNegative, Ascending, NotBelow, Allocation, Notional, Filled, Depth;
      WalkIsCheapest(rest, x[1..]);
      CheaperFirst(rest, p, q, x[0], take);
    }
  }

  /** Bids read as asks at negated prices. */
  function Negated(levels: seq<Level>): (n: seq<Level>)
    ensures |n| == |levels| && forall i | 0 <= i < |n| :: n[i] == Level(-levels[i].price, levels[i].size)
  {
    if levels == [] then [] else [Level(-levels[0].price, levels[0].size)] + Negated(levels[1..])
  }

  lemma {:induction false} NegatedWalk(levels: seq<Level>, q: real)
    ensures Filled(Negated(levels), q) == Filled(levels, q) && Cost(Negated(levels), q) == -Cost(levels, q)
    decreases |levels|
  {
    if levels != [] {
      NegatedWalk(levels[1..], q - Min(q, levels[0].size));
      assert Negated(levels)[1..] == Negated(levels[1..]);
    }
  }

  lemma {:induction false} NegatedSpend(levels: seq<Level>, x: seq<real>)
    requires |x| == |levels|
    ensures Spend(Negated(levels), x) == -Spend(levels, x)
  {
    if levels != [] {
      NegatedSpend(levels[1..], x[1..]);
      assert Negated(levels)[1..] == Negated(levels[1..]);
    }
  }

  /** No way of selling the same quantity into falling bids earns more than the walk. */
  lemma WalkEarnsMost(levels: seq<Level>, x: seq<real>)
    requires NonNegative(levels) && Descending(levels) && Allocation(levels, x)
    ensures Cost(levels, Sum(x)) >= Spend(levels, x)
  {
    WalkIsCheapest(Negated(levels), x);
    NegatedWalk(levels, Sum(x));
    NegatedSpend(levels, x);
  }

  function Scaled(x: seq<real>, k: real): (y: seq<real>)
    ensures |y| == |x| && forall i | 0 <= i < |x| :: y[i] == x[i] * k
  {
    if x == [] then [] else [x[0] * k] + Scaled(x[1..], k)
  }

  lemma {:induction false} ScaledSums(levels: seq<Level>, x: seq<real>, k: real)
    requires |x| == |levels|
    ensures Sum(Scaled(x, k)) == Sum(x) * k && Spend(levels, Scaled(x, k)) == Spend(levels, x) * k
  {
    if x != [] {
      ScaledSums(levels[1..], x[1..], k);
      assert Scaled(x, k)[1..] == Scaled(x[1..], k);
      assert (x[0] * k) * levels[0].price == (x[0] * levels[0].price) * k;
    }
  }

  lemma ScaledAllocation(levels: seq<Level>, x: seq<real>, k: real)
    requires Allocation(levels, x) && 0.0 <= k <= 1.0
    ensures Allocation(levels, Scaled(x, k))
  {
    forall i | 0 <= i < |x| ensures 0.0 <= x[i] * k <= levels[i].size {
      assert 0.0 <= x[i] * k <= x[i];
    }
  }

  lemma Ratio(a: real, b: real)
    requires 0.0 < a <= b
    ensures b * (a / b) == a && 0.0 <= a / b <= 1.0
  {
  }

  lemma AverageOrder(ca: real, cb: real, fa: real, fb: real)
    requires 0.0 < fa && 0.0 < fb && ca <= cb * (fa / fb)
    ensures ca / fa <= cb / fb
  {
  }

  /** Buying more never lowers the average price. */
  lemma BuyingMoreCostsMore(levels: seq<Level>, a: real, b: real)
    requires NonNegative(levels) && Ascending(levels) && 0.0 < a <= b && Depth(levels) > 0.0
    ensures Vwap(levels, a) <= Vwap(levels, b)
  {
    hide NonNegative, Ascending, Allocation, Cost, Filled, Depth, Takes, Spend, Sum, Scaled;
    FillsWhatItCan(levels, a);
    FillsWhatItCan(levels, b);
    var fa, fb := Filled(levels, a), Filled(levels, b);
    var k, x := fa / fb, Takes(levels, b);
    TakesIsTheWalk(levels, b);
    ScaledSums(levels, x, k);
    assert fb * k == fa && 0.0 <= k <= 1.0 by { Ratio(fa, fb); }
    ScaledAllocation(levels, x, k);
    WalkIsCheapest(levels, Scaled(x, k));
    CostOfFilled(levels, a);
    assert Sum(Scaled(x, k)) == fa && Spend(levels, Scaled(x, k)) == Cost(levels, b) * k;
    AverageOrder(Cost(levels, a), Cost(levels, b), fa, fb);
  }

  /** Selling more never raises the average price. */
  lemma SellingMoreEarnsLess(levels: seq<Level>, a: real, b: real)
    requires NonNegative(levels) && Descending(levels) && 0.0 < a <= b && Depth(levels) > 0.0
    ensures Vwap(levels, a) >= Vwap(levels, b)
  {
    NegatedDepth(levels);
    BuyingMoreCostsMore(Negated(levels), a, b);
    NegatedVwap(levels, a);
    NegatedVwap(levels, b);
  }

  lemma {:induction false} NegatedDepth(levels: seq<Level>)
    ensures Depth(Negated(levels)) == Depth(levels)
  {
    if levels != [] {
      assert Negated(levels)[1..] == Negated(levels[1..]);
      NegatedDepth(levels[1..]);
    }
  }

  lemma Negate(c: real, f: real)
    requires f > 0.0
    ensures (-c) / f == -(c / f)
  {
  }

  lemma NegatedVwap(levels: seq<Level>, q: real)
    ensures Vwap(Negated(levels), q) == -Vwap(levels, q)
  {
    NegatedWalk(levels, q);
    var f, c := Filled(levels, q), Cost(levels, q);
    if f > 0.0 {
      Negate(c, f);
    }
  }

  /** The average is never better than the top of the book: not below the best ask, not above the best bid. */
  lemma NoBetterThanTop(levels: seq<Level>, q: real)
    requires NonNegative(levels) && q > 0.0 && Depth(levels) > 0.0
    ensures Ascending(levels) ==> Vwap(levels, q) >= levels[0].price
    ensures Descending(levels) ==> Vwap(levels, q) <= levels[0].price
  {
    hide NonNegative, Ascending, Descending, Vwap, Depth;
    if Ascending(levels) {
      AboveFirst(levels, q);
    }
    if Descending(levels) {
      BelowFirst(levels, q);
    }
  }

  lemma BelowFirst(levels: seq<Level>, q: real)
    requires NonNegative(levels) && Descending(levels) && q > 0.0 && Depth(levels) > 0.0
    ensures Vwap(levels, q) <= levels[0].price
  {
    NegatedDepth(levels);
    NegatedOrder(levels);
    hide NonNegative, Ascending, Descending, Vwap, Depth;
    AboveFirst(Negated(levels), q);
    NegatedVwap(levels, q);
  }

  lemma NegatedOrder(levels: seq<Level>)
    requires NonNegative(levels) && Descending(levels)
    ensures NonNegative(Negated(levels)) && Ascending(Negated(levels))
  {
  }

  lemma AtLeastAverage(c: real, p: real, f: real)
    requires f > 0.0 && c >= Notional(f, p)
    ensures c / f >= p
  {
  }

  lemma AboveFirst(levels: seq<Level>, q: real)
    requires NonNegative(levels) && Ascending(levels) && q > 0.0 && Depth(levels) > 0.0
    ensures Vwap(levels, q) >= levels[0].price
  {
    var c, f, p := Cost(levels, q), Filled(levels, q), levels[0].price;
    assert f > 0.0 && c >= Notional(f, p) by {
      CheapestUnit(levels, q);
    }
    hide NonNegative, Ascending, Cost, Filled, Depth, Notional;
    AtLeastAverage(c, p, f);
  }

  lemma CheapestUnit(levels: seq<Level>, q: real)
    requires NonNegative(levels) && Ascending(levels) && q > 0.0 && Depth(levels) > 0.0
    ensures Filled(levels, q) > 0.0 && Cost(levels, q) >= Notional(Filled(levels, q), levels[0].price)
  {
    AscendingNotBelow(levels);
    hide NonNegative, Ascending, NotBelow, Cost, Filled, Depth, Notional;
    FillsWhatItCan(levels, q);
    CostOfFilled(levels, q);
    NothingLeft(levels);
    MarginalCost(levels, levels[0].price, Filled(levels, q), 0.0);
  }

  /** An order that the first level fills alone trades at its price. */
  lemma WithinFirst(levels: seq<Level>, q: real)
    requires levels != [] && 0.0 < q <= levels[0].size
    ensures Filled(levels, q) == q && Cost(levels, q) == Notional(q, levels[0].price)
            && Vwap(levels, q) == levels[0].price
  {
    QuotientOfProduct(q, levels[0].price);
  }

  lemma QuotientOfProduct(q: real, price: real)
    requires q > 0.0
    ensures q * price / q == price
  {
  }

  /** The best quotes are what such an order pays, or gets: the ask for a purchase, the bid for a sale. */
  lemma BestQuoteIsFill(s: BookState, side: Side, q: real)
    requires s.Against(side) != [] && 0.0 < q <= s.Against(side)[0].size
    ensures side == Buy ==> s.BestAsk() == Finite(Vwap(s.asks, q))
    ensures side != Buy ==> s.BestBid() == Vwap(s.bids, q)
  {
    WithinFirst(s.Against(side), q);
  }
}
