/** Diffs against a plain price-to-size map: the listing is unique, and diffs compose. */
module BookDiffs {
  import opened Sorting
  import opened Books

  /** Two ordered listings of one map are the same levels. */
  lemma {:induction false} ListingUnique(descending: bool, a: seq<Level>, b: seq<Level>, m: map<real, real>)
    requires Lists(descending, a, m) && Lists(descending, b, m)
    ensures a == b
  {
    EmptyLists(descending, a, m);
    EmptyLists(descending, b, m);
    if a != [] && b != [] {
      SameFirst(descending, a, b, m);
      SameFirst(descending, b, a, m);
      assert a[0] == b[0];
      RestLists(descending, a, m);
      RestLists(descending, b, m);
      ListingUnique(descending, a[1..], b[1..], m - {a[0].price});
    }
  }

  lemma EmptyLists(descending: bool, a: seq<Level>, m: map<real, real>)
    requires Lists(descending, a, m)
    ensures a == [] <==> forall p :: p !in m.Keys
  {
    hide Lists;
    if a != [] {
      ListedPrice(descending, a, m);
    }
    if p :| p in m.Keys {
      ListedLevel(descending, a, m, p);
    }
  }

  lemma ListedPrice(descending: bool, a: seq<Level>, m: map<real, real>)
    requires Lists(descending, a, m) && a != []
    ensures a[0].price in m
  {
  }

  lemma ListedLevel(descending: bool, a: seq<Level>, m: map<real, real>, p: real)
    requires Lists(descending, a, m) && p in m
    ensures a != []
  {
  }

  /** No listing starts before another one of the same map. */
  lemma SameFirst(descending: bool, a: seq<Level>, b: seq<Level>, m: map<real, real>)
    requires Lists(descending, a, m) && Lists(descending, b, m) && a != [] && b != []
    ensures a[0] == b[0] || Before(descending, a[0].price, b[0].price)
  {
  }

  lemma RestLists(descending: bool, a: seq<Level>, m: map<real, real>)
    requires Lists(descending, a, m) && a != []
    ensures Lists(descending, a[1..], m - {a[0].price})
  {
  }

  /** Reading an ordered listing back gives the map it lists. */
  lemma ReadBack(descending: bool, levels: seq<Level>, m: map<real, real>)
    requires Lists(descending, levels, m)
    ensures DictOf(levels).entries == m
  {
    DictOfListed(descending, levels);
    var read := DictOf(levels).entries;
    forall p ensures p in read <==> p in m {
      assert p in m ==> Level(p, m[p]) in levels;
      assert p in read ==> Level(p, read[p]) in levels;
    }
    forall p | p in m ensures read[p] == m[p] {
      assert Level(p, m[p]) in levels;
    }
  }

  lemma {:induction false} DictOfListed(descending: bool, levels: seq<Level>)
    requires StrictlyOrdered(descending, levels)
    ensures forall l | l in levels :: l.price in DictOf(levels).entries && DictOf(levels).entries[l.price] == l.size
    ensures forall p | p in DictOf(levels).entries :: Level(p, DictOf(levels).entries[p]) in levels
  {
    if levels != [] {
      var init, last := levels[..|levels| - 1], levels[|levels| - 1];
      assert levels == init + [last];
      DictOfListed(descending, init);
    }
  }

  lemma {:induction false} UpdateAllConcat(m: map<real, real>, a: seq<Level>, b: seq<Level>)
    ensures UpdateAll(m, a + b) == UpdateAll(UpdateAll(m, a), b)
    decreases |a|
  {
    if a == [] {
      assert a + b == b;
    } else {
      assert (a + b)[1..] == a[1..] + b;
      UpdateAllConcat(Update(m, a[0]), a[1..], b);
    }
  }

  lemma {:induction false} UpdateAllPositive(m: map<real, real>, updates: seq<Level>)
    requires AllPositive(m)
    ensures AllPositive(UpdateAll(m, updates))
    decreases |updates|
  {
    if updates != [] {
      UpdateAllPositive(Update(m, updates[0]), updates[1..]);
    }
  }

  function Flatten(diffs: seq<seq<Level>>): seq<Level> {
    if diffs == [] then [] else Flatten(diffs[..|diffs| - 1]) + diffs[|diffs| - 1]
  }

  /** Successive states of one side: each is the previous one with its diff merged, as `Merge` leaves it. */
  ghost predicate DiffRun(descending: bool, states: seq<seq<Level>>, diffs: seq<seq<Level>>) {
    && |states| == |diffs| + 1
    && forall k | 0 <= k < |diffs| :: Lists(descending, states[k + 1], UpdateAll(DictOf(states[k]).entries, diffs[k]))
  }

  /**
   * After any run of diffs the side lists the fold of every update, each price once and no empty level: the last
   * update of a price over the whole run decides it.
   */
  lemma {:induction false} RunListsFold(descending: bool, states: seq<seq<Level>>, diffs: seq<seq<Level>>)
    requires DiffRun(descending, states, diffs)
    requires StrictlyOrdered(descending, states[0]) && forall l | l in states[0] :: l.size > 0.0
    ensures Lists(descending, states[|diffs|], UpdateAll(DictOf(states[0]).entries, Flatten(diffs)))
    ensures DiffApplied(states[0], Flatten(diffs), states[|diffs|])
    ensures forall l | l in states[|diffs|] :: l.size > 0.0
  {
    var n, m := |diffs|, DictOf(states[0]).entries;
    DictOfListed(descending, states[0]);
    if n > 0 {
      var init := diffs[..n - 1];
      assert states[..n][0] == states[0];
      RunListsFold(descending, states[..n], init);
      ReadBack(descending, states[n - 1], UpdateAll(m, Flatten(init)));
      UpdateAllConcat(m, Flatten(init), diffs[n - 1]);
      assert Lists(descending, states[n - 1 + 1], UpdateAll(DictOf(states[n - 1]).entries, diffs[n - 1]));
    }
    UpdateAllPositive(m, Flatten(diffs));
    ListsApplied(descending, states[0], Flatten(diffs), states[n]);
  }

  /** Two diffs in turn leave exactly the book that their concatenation leaves. */
  lemma DiffsCompose(descending: bool, levels: seq<Level>, first: seq<Level>, second: seq<Level>,
                     between: seq<Level>, stepwise: seq<Level>, atOnce: seq<Level>)
    requires Lists(descending, between, UpdateAll(DictOf(levels).entries, first))
    requires Lists(descending, stepwise, UpdateAll(DictOf(between).entries, second))
    requires Lists(descending, atOnce, UpdateAll(DictOf(levels).entries, first + second))
    ensures stepwise == atOnce
  {
    ReadBack(descending, between, UpdateAll(DictOf(levels).entries, first));
    UpdateAllConcat(DictOf(levels).entries, first, second);
    ListingUnique(descending, stepwise, atOnce, UpdateAll(DictOf(levels).entries, first + second));
  }

  ghost predicate DistinctPrices(levels: seq<Level>) {
    forall i, j | 0 <= i < j < |levels| :: levels[i].price != levels[j].price
  }

  lemma DistinctPricesByMultiset(s: seq<Level>, r: seq<Level>)
    requires multiset(s) == multiset(r) && DistinctPrices(s)
    ensures DistinctPrices(r)
  {
    DistinctByMultiset(s, r);
    forall i, j | 0 <= i < j < |r| ensures r[i].price != r[j].price {
      assert r[i] in multiset(s) && r[j] in multiset(s) && r[i] != r[j];
    }
  }

  lemma SideOrdered(descending: bool, levels: seq<Level>)
    ensures var side := Arranged(descending, levels);
            multiset(side) == multiset(levels) && forall i, j | 0 <= i < j < |side| ::
                !Before(descending, side[j].price, side[i].price)
  {
    if descending {
      SortByOrdered(levels, NotAfterBid);
    } else {
      SortByOrdered(levels, NotAfterAsk);
    }
  }

  /** A snapshot is a strictly ordered listing exactly when no price is repeated in it. */
  lemma SnapshotListsIff(descending: bool, levels: seq<Level>)
    ensures StrictlyOrdered(descending, Arranged(descending, levels)) <==> DistinctPrices(levels)
  {
    var side := Arranged(descending, levels);
    SideOrdered(descending, levels);
    hide Arranged, DistinctPrices;
    if DistinctPrices(levels) {
      DistinctPricesByMultiset(levels, side);
      StrictFromDistinct(descending, side);
    }
    if StrictlyOrdered(descending, side) {
      DistinctFromStrict(descending, side);
      DistinctPricesByMultiset(side, levels);
    }
  }

  lemma StrictFromDistinct(descending: bool, side: seq<Level>)
    requires DistinctPrices(side) && forall i, j | 0 <= i < j < |side| ::
             !Before(descending, side[j].price, side[i].price)
    ensures StrictlyOrdered(descending, side)
  {
  }

  lemma DistinctFromStrict(descending: bool, side: seq<Level>)
    requires StrictlyOrdered(descending, side)
    ensures DistinctPrices(side)
  {
  }

  /** A snapshot is not cleaned: reading back and listing again drops the repeated price it kept. */
  lemma SnapshotKeepsRepeats()
    ensures var asks := Arranged(false, [Level(1.0, 2.0), Level(1.0, 3.0)]);
            asks == [Level(1.0, 2.0), Level(1.0, 3.0)] && !StrictlyOrdered(false, asks)
            && DictOf(asks).entries == map[1.0 := 3.0]
  {
    var asks := [Level(1.0, 2.0), Level(1.0, 3.0)];
    assert asks[1..] == [Level(1.0, 3.0)] && asks[1..][1..] == [];
    assert asks[..1] == [Level(1.0, 2.0)] && asks[..1][..0] == [];
  }
}
