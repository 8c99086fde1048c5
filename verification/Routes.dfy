/** The physical trade an opportunity describes, and keeping the best opportunity per trade. */
module Routes {
  import opened Collections
  import opened Sorting
  import opened Walks
  import opened Symbols

  type Hop = (string, string, Side)

  /** Python's `<=` on strings. */
  predicate StringLe(a: string, b: string) {
    if a == "" then true
    else if b == "" then false
    else if a[0] != b[0] then a[0] < b[0]
    else StringLe(a[1..], b[1..])
  }

  function SideRank(s: Side): nat {
    match s
    case Buy => 0
    case Sell => 1
    case Transfer => 2
  }

  /** Tuples compare field by field; the side names happen to be in alphabetical order. */
  predicate HopLe(a: Hop, b: Hop) {
    if a.0 != b.0 then StringLe(a.0, b.0)
    else if a.1 != b.1 then StringLe(a.1, b.1)
    else SideRank(a.2) <= SideRank(b.2)
  }

  lemma {:induction false} StringTotal(a: string, b: string)
    ensures StringLe(a, b) || StringLe(b, a)
    ensures StringLe(a, b) && StringLe(b, a) ==> a == b
  {
    if a != "" && b != "" && a[0] == b[0] {
      StringTotal(a[1..], b[1..]);
      assert a == [a[0]] + a[1..] && b == [b[0]] + b[1..];
    }
  }

  lemma {:induction false} StringTransitive(a: string, b: string, c: string)
    requires StringLe(a, b) && StringLe(b, c)
    ensures StringLe(a, c)
  {
    if a != "" && b != "" && c != "" && a[0] == b[0] == c[0] {
      StringTransitive(a[1..], b[1..], c[1..]);
    }
  }

  lemma HopTotal(a: Hop, b: Hop)
    ensures HopLe(a, b) || HopLe(b, a)
    ensures HopLe(a, b) && HopLe(b, a) ==> a == b
  {
    StringTotal(a.0, b.0);
    StringTotal(a.1, b.1);
  }

  lemma HopTransitive(a: Hop, b: Hop, c: Hop)
    requires HopLe(a, b) && HopLe(b, c)
    ensures HopLe(a, c)
  {
    StringTotal(a.0, b.0);
    StringTotal(a.1, b.1);
    StringTotal(b.0, c.0);
    StringTotal(b.1, c.1);
    if a.0 != b.0 || b.0 != c.0 {
      assert StringLe(a.0, b.0) && StringLe(b.0, c.0) by {
        StringTotal(a.0, a.0);
        StringTotal(c.0, c.0);
      }
      StringTransitive(a.0, b.0, c.0);
    } else if a.1 != b.1 || b.1 != c.1 {
      assert StringLe(a.1, b.1) && StringLe(b.1, c.1) by {
        StringTotal(a.1, a.1);
        StringTotal(c.1, c.1);
      }
      StringTransitive(a.1, b.1, c.1);
    }
  }

  lemma HopPreorder(s: seq<Hop>)
    ensures Preorder(s, HopLe)
  {
    forall x, y | x in s && y in s ensures HopLe(x, y) || HopLe(y, x) {
      HopTotal(x, y);
    }
    forall x, y, z | x in s && y in s && z in s && HopLe(x, y) && HopLe(y, z) ensures HopLe(x, z) {
      HopTransitive(x, y, z);
    }
  }

  function Hops(legs: seq<Leg>): (hops: seq<Hop>)
    ensures |hops| == |legs| && forall k | 0 <= k < |legs| :: hops[k] == (legs[k].venue, legs[k].symbol, legs[k].side)
  {
    if legs == [] then [] else [(legs[0].venue, legs[0].symbol, legs[0].side)] + Hops(legs[1..])
  }

  function RouteKey(o: Opportunity): seq<Hop> {
    SortBy(Hops(o.legs), HopLe)
  }

  /** Two opportunities have one key exactly when they trade the same hops, in any order. */
  lemma KeyIgnoresLegOrder(a: Opportunity, b: Opportunity)
    ensures RouteKey(a) == RouteKey(b) <==> multiset(Hops(a.legs)) == multiset(Hops(b.legs))
  {
    if multiset(Hops(a.legs)) == multiset(Hops(b.legs)) {
      HopPreorder(Hops(a.legs));
      HopPreorder(Hops(b.legs));
      SortByOrdered(Hops(a.legs), HopLe);
      SortByOrdered(Hops(b.legs), HopLe);
      forall x, y | HopLe(x, y) && HopLe(y, x) ensures x == y {
        HopTotal(x, y);
      }
      OrderedUnique(RouteKey(a), RouteKey(b), HopLe);
    }
  }

  type Table = Dict<seq<Hop>, Opportunity>

  /** One opportunity offered to the table of incumbents: a strictly better edge replaces. */
  function Offer(best: Table, o: Opportunity): Table {
    var key := RouteKey(o);
    if key !in best.entries || o.netProfitPct > best.entries[key].netProfitPct then best.Put(key, o) else best
  }

  function BestOf(opportunities: seq<Opportunity>): Table {
    if opportunities == [] then Dict([], map[])
    else Offer(BestOf(opportunities[..|opportunities| - 1]), opportunities[|opportunities| - 1])
  }

  lemma BestOfLast(opportunities: seq<Opportunity>)
    requires opportunities != []
    ensures var n := |opportunities| - 1; BestOf(opportunities) == Offer(BestOf(opportunities[..n]), opportunities[n])
  {
  }

  function Values(best: Table): (values: seq<Opportunity>)
    requires forall k | 0 <= k < |best.keys| :: best.keys[k] in best.entries
    ensures |values| == |best.keys| && forall k | 0 <= k < |values| :: values[k] == best.entries[best.keys[k]]
  {
    seq(|best.keys|, k requires 0 <= k < |best.keys| => best.entries[best.keys[k]])
  }

  /** What the table always satisfies: each entry sits under its own key. */
  ghost predicate Keyed(best: Table) {
    best.Valid() && forall key | key in best.entries :: RouteKey(best.entries[key]) == key
  }

  lemma {:induction false} BestOfKeyed(opportunities: seq<Opportunity>)
    ensures Keyed(BestOf(opportunities))
  {
    if opportunities == [] {
      assert Keyed(Dict([], map[]));
    } else {
      hide BestOf, Offer, Keyed, RouteKey;
      var n := |opportunities| - 1;
      BestOfKeyed(opportunities[..n]);
      BestOfLast(opportunities);
      OfferKeyed(BestOf(opportunities[..n]), opportunities[n]);
    }
  }

  lemma OfferKeyed(best: Table, o: Opportunity)
    requires Keyed(best)
    ensures Keyed(Offer(best, o))
  {
    hide RouteKey, Dict.Valid;
  }

  /** The kept opportunities, in the order in which their routes first appeared. */
  function BestPerRoute(opportunities: seq<Opportunity>): seq<Opportunity> {
    BestOfKeyed(opportunities);
    Values(BestOf(opportunities))
  }

  /** How the table grows with one more opportunity. */
  lemma BestOfNext(opportunities: seq<Opportunity>, k: nat)
    requires k < |opportunities|
    ensures var best, o, after := BestOf(opportunities[..k]), opportunities[k], BestOf(opportunities[..k + 1]);
            if RouteKey(o) !in best.entries then after == best.Put(RouteKey(o), o) && |after.keys| == |best.keys| + 1
            else if o.netProfitPct > best.entries[RouteKey(o)].netProfitPct
                then after == best.Put(RouteKey(o), o) && |after.keys| == |best.keys|
            else after == best
  {
    assert opportunities[..k + 1][..k] == opportunities[..k];
    BestOfLast(opportunities[..k + 1]);
    hide RouteKey, BestOf;
  }

  lemma KeptTable(s: seq<Opportunity>)
    ensures Keyed(BestOf(s)) && BestPerRoute(s) == Values(BestOf(s))
    ensures |BestPerRoute(s)| == |BestOf(s).keys|
  {
    BestOfKeyed(s);
  }

  /** Keeps the best-edged opportunity per route and counts the rest. */
  method DedupeByRoute(opportunities: seq<Opportunity>) returns (kept: seq<Opportunity>, duplicates: nat)
    ensures kept == BestPerRoute(opportunities)
    ensures |kept| + duplicates == |opportunities|
  {
    var best: Table := Dict([], map[]);
    duplicates := 0;
    assert BestOf(opportunities[..0]) == best;
    hide RouteKey, BestOf, Keyed, Values, BestPerRoute, Dict.Put;
    for k := 0 to |opportunities|
      invariant best == BestOf(opportunities[..k]) && |best.keys| + duplicates == k
    {
      BestOfNext(opportunities, k);
      var opportunity := opportunities[k];
      var key := RouteKey(opportunity);
      if key !in best.entries {
        best := best.Put(key, opportunity);
      } else {
        duplicates := duplicates + 1;
        if opportunity.netProfitPct > best.entries[key].netProfitPct {
          best := best.Put(key, opportunity);
        }
      }
    }
    assert opportunities[..|opportunities|] == opportunities;
    KeptTable(opportunities);
    kept := Values(best);
  }

  /** What an offer does to the entry of one route. */
  lemma OfferEntry(best: Table, o: Opportunity, key: seq<Hop>)
    ensures var after := Offer(best, o).entries;
            if key != RouteKey(o) then
              (key in after <==> key in best.entries) && (key in after ==> after[key] == best.entries[key])
            else
              key in after && after[key]
                  == (if key in best.entries && o.netProfitPct <= best.entries[key].netProfitPct then best.entries[key]
                      else o)
  {
  }

  /** No route is lost, and no opportunity beats the entry of its route. */
  lemma {:induction false} BestOfDominates(opportunities: seq<Opportunity>, o: Opportunity)
    requires o in opportunities
    ensures var best := BestOf(opportunities).entries;
            RouteKey(o) in best && o.netProfitPct <= best[RouteKey(o)].netProfitPct
  {
    hide RouteKey, BestOf;
    BestOfLast(opportunities);
    var n := |opportunities| - 1;
    if o in opportunities[..n] {
      BestOfDominates(opportunities[..n], o);
    }
  }

  /** An entry is the one from before, or the last opportunity offered. */
  lemma EntrySource(opportunities: seq<Opportunity>, key: seq<Hop>)
    requires key in BestOf(opportunities).entries
    ensures opportunities != []
    ensures var n := |opportunities| - 1;
            var before, entry, last :=
                BestOf(opportunities[..n]).entries, BestOf(opportunities).entries[key], opportunities[n];
            || (key in before && entry == before[key])
            || (entry == last && RouteKey(last) == key
                && (key in before ==> last.netProfitPct > before[key].netProfitPct))
  {
    BestOfLast(opportunities);
    OfferEntry(BestOf(opportunities[..|opportunities| - 1]), opportunities[|opportunities| - 1], key);
    hide RouteKey, Offer;
  }

  /** The entry of each route is the first of those with its highest edge. */
  lemma {:induction false} BestOfIsFirstBest(opportunities: seq<Opportunity>, key: seq<Hop>) returns (i: nat)
    requires key in BestOf(opportunities).entries
    ensures FirstBest(opportunities, i, BestOf(opportunities).entries[key])
  {
    hide *;
    EntrySource(opportunities, key);
    var n := |opportunities| - 1;
    var before := BestOf(opportunities[..n]).entries;
    if key in before && BestOf(opportunities).entries[key] == before[key] {
      i := BestOfIsFirstBest(opportunities[..n], key);
      StillFirstBest(opportunities, i, before[key]);
    } else {
      i := n;
      NewFirstBest(opportunities);
    }
  }

  lemma StillFirstBest(opportunities: seq<Opportunity>, i: nat, o: Opportunity)
    requires opportunities != [] && FirstBest(opportunities[..|opportunities| - 1], i, o)
    ensures FirstBest(opportunities, i, o)
  {
    hide RouteKey;
  }

  lemma NewFirstBest(opportunities: seq<Opportunity>)
    requires opportunities != []
    requires var n := |opportunities| - 1;
             var before, o := BestOf(opportunities[..n]).entries, opportunities[n];
             RouteKey(o) in before ==> o.netProfitPct > before[RouteKey(o)].netProfitPct
    ensures FirstBest(opportunities, |opportunities| - 1, opportunities[|opportunities| - 1])
  {
    hide RouteKey, BestOf;
    var n := |opportunities| - 1;
    var init, o := opportunities[..n], opportunities[n];
    forall j | 0 <= j < n && RouteKey(opportunities[j]) == RouteKey(o)
      ensures opportunities[j].netProfitPct < o.netProfitPct {
      assert init[j] in init;
      BestOfDominates(init, init[j]);
    }
  }

  /** `o` stands at `i`, and every earlier opportunity of its route has a strictly lower edge. */
  ghost predicate FirstBest(opportunities: seq<Opportunity>, i: nat, o: Opportunity) {
    && i < |opportunities| && opportunities[i] == o
    && forall j | 0 <= j < i && RouteKey(opportunities[j]) == RouteKey(o) ::
       opportunities[j].netProfitPct < o.netProfitPct
  }

  ghost predicate DistinctRoutes(s: seq<Opportunity>) {
    forall i, j | 0 <= i < j < |s| :: RouteKey(s[i]) != RouteKey(s[j])
  }

  /** A list without repeated routes is kept as it is. */
  lemma {:induction false} DistinctKept(s: seq<Opportunity>)
    requires DistinctRoutes(s)
    ensures BestPerRoute(s) == s
    ensures |BestOf(s).keys| == |s| && forall k | 0 <= k < |s| :: BestOf(s).keys[k] == RouteKey(s[k])
  {
    KeptTable(s);
    if s != [] {
      var n := |s| - 1;
      FewerRoutes(s);
      hide *;
      BestOfLast(s);
      KeptTable(s[..n]);
      DistinctKept(s[..n]);
      KeptOneMore(BestOf(s[..n]), s);
    }
  }

  lemma FewerRoutes(s: seq<Opportunity>)
    requires s != [] && DistinctRoutes(s)
    ensures DistinctRoutes(s[..|s| - 1])
  {
    hide RouteKey;
  }

  lemma KeptOneMore(best: Table, s: seq<Opportunity>)
    requires DistinctRoutes(s) && s != [] && Keyed(best) && Values(best) == s[..|s| - 1]
    requires |best.keys| == |s| - 1 && forall k | 0 <= k < |s| - 1 :: best.keys[k] == RouteKey(s[k])
    ensures var after := Offer(best, s[|s| - 1]);
            Keyed(after) && Values(after) == s && |after.keys| == |s| && forall k | 0 <= k < |s| ::
                after.keys[k] == RouteKey(s[k])
  {
    hide RouteKey;
    var last := s[|s| - 1];
    NewRoute(best, s[..|s| - 1], last);
    KeptExtends(best, RouteKey(last), last);
  }

  lemma NewRoute(best: Table, init: seq<Opportunity>, last: Opportunity)
    requires Keyed(best) && |best.keys| == |init| && forall k | 0 <= k < |init| :: best.keys[k] == RouteKey(init[k])
    requires forall k | 0 <= k < |init| :: RouteKey(init[k]) != RouteKey(last)
    ensures RouteKey(last) !in best.entries
  {
  }

  lemma KeptExtends(best: Table, key: seq<Hop>, o: Opportunity)
    requires best.Valid() && key !in best.entries
    ensures best.Put(key, o).Valid() && Values(best.Put(key, o)) == Values(best) + [o]
  {
  }

  /** De-duplicating twice changes nothing. */
  lemma DedupeIdempotent(opportunities: seq<Opportunity>)
    ensures var kept := BestPerRoute(opportunities);
            DistinctRoutes(kept) && BestPerRoute(kept) == kept
  {
    BestOfKeyed(opportunities);
    DistinctKept(BestPerRoute(opportunities));
  }

  ghost predicate Dominated(first: seq<Opportunity>, o: Opportunity) {
    exists i :: 0 <= i < |first| && RouteKey(first[i]) == RouteKey(o) && first[i].netProfitPct >= o.netProfitPct
  }

  /** Later opportunities that each meet a no-worse incumbent leave the table alone. */
  lemma {:induction false} DominatedIgnored(first: seq<Opportunity>, later: seq<Opportunity>)
    requires forall k | 0 <= k < |later| :: Dominated(first, later[k])
    ensures BestOf(first + later) == BestOf(first)
  {
    if later == [] {
      assert first + later == first;
    } else {
      hide *;
      var n := |later| - 1;
      var all := first + later;
      DominatedIgnored(first, later[..n]);
      assert all[..|all| - 1] == first + later[..n] && all[|all| - 1] == later[n];
      BestOfLast(all);
      NoBetter(first, later[n]);
    }
  }

  ghost predicate HasRoute(first: seq<Opportunity>, o: Opportunity) {
    exists i :: 0 <= i < |first| && RouteKey(first[i]) == RouteKey(o)
  }

  /** The opportunities of `later` on routes that `first` does not have. */
  ghost function Unmet(first: seq<Opportunity>, later: seq<Opportunity>): seq<Opportunity> {
    if later == [] then []
    else
      var init, last := later[..|later| - 1], later[|later| - 1];
      Unmet(first, init) + (if HasRoute(first, last) then [] else [last])
  }

  lemma {:induction false} UnmetMember(first: seq<Opportunity>, later: seq<Opportunity>, o: Opportunity)
    ensures o in Unmet(first, later) <==> o in later && !HasRoute(first, o)
  {
    hide HasRoute;
    if later != [] {
      var init, last := later[..|later| - 1], later[|later| - 1];
      assert later == init + [last];
      UnmetMember(first, init, o);
    }
  }

  lemma UnmetNext(first: seq<Opportunity>, later: seq<Opportunity>)
    requires later != []
    ensures var init, last := later[..|later| - 1], later[|later| - 1];
            first + Unmet(first, later)
            == if HasRoute(first, last) then first + Unmet(first, init) else first + Unmet(first, init) + [last]
  {
  }

  lemma {:induction false} UnmetDistinct(first: seq<Opportunity>, later: seq<Opportunity>)
    requires DistinctRoutes(first) && DistinctRoutes(later)
    ensures DistinctRoutes(first + Unmet(first, later))
  {
    if later == [] {
      assert first + [] == first;
    } else {
      var init, last := later[..|later| - 1], later[|later| - 1];
      UnmetDistinct(first, init);
      UnmetNext(first, later);
      var before := first + Unmet(first, init);
      if !HasRoute(first, last) {
        forall k | 0 <= k < |before| ensures RouteKey(before[k]) != RouteKey(last) {
          hide RouteKey;
          if k >= |first| {
            UnmetMember(first, init, before[k]);
            assert before[k] in init;
          }
        }
        OneMoreRoute(before, last);
      }
    }
  }

  lemma OneMoreRoute(s: seq<Opportunity>, o: Opportunity)
    requires DistinctRoutes(s) && forall k | 0 <= k < |s| :: RouteKey(s[k]) != RouteKey(o)
    ensures DistinctRoutes(s + [o])
  {
    hide RouteKey;
  }

  /** Later opportunities either meet a no-worse incumbent or open a route of their own. */
  lemma {:induction false} MergeTable(first: seq<Opportunity>, later: seq<Opportunity>)
    requires forall k | 0 <= k < |later| && HasRoute(first, later[k]) :: Dominated(first, later[k])
    ensures BestOf(first + later) == BestOf(first + Unmet(first, later))
  {
    if later == [] {
      assert first + later == first + Unmet(first, later);
    } else {
      var init, last := later[..|later| - 1], later[|later| - 1];
      MergeTable(first, init);
      MergeStep(first, later);
    }
  }

  lemma MergeStep(first: seq<Opportunity>, later: seq<Opportunity>)
    requires later != []
    requires HasRoute(first, later[|later| - 1]) ==> Dominated(first, later[|later| - 1])
    requires BestOf(first + later[..|later| - 1]) == BestOf(first + Unmet(first, later[..|later| - 1]))
    ensures BestOf(first + later) == BestOf(first + Unmet(first, later))
  {
    hide *;
    var init, last := later[..|later| - 1], later[|later| - 1];
    UnmetNext(first, later);
    BestOfSnoc(first + init, last);
    assert first + later == first + init + [last];
    if HasRoute(first, last) {
      DominatedMore(first, Unmet(first, init), last);
      NoBetter(first + Unmet(first, init), last);
    } else {
      BestOfSnoc(first + Unmet(first, init), last);
    }
  }

  lemma BestOfSnoc(s: seq<Opportunity>, o: Opportunity)
    ensures BestOf(s + [o]) == Offer(BestOf(s), o)
  {
    assert (s + [o])[..|s|] == s;
    BestOfLast(s + [o]);
  }

  lemma DominatedMore(first: seq<Opportunity>, more: seq<Opportunity>, o: Opportunity)
    requires Dominated(first, o)
    ensures Dominated(first + more, o)
  {
    hide RouteKey;
    var i :| 0 <= i < |first| && RouteKey(first[i]) == RouteKey(o) && first[i].netProfitPct >= o.netProfitPct;
    assert (first + more)[i] == first[i];
  }

  /** De-duplicating a merge keeps the first list and, after it, the later opportunities on routes of their own. */
  lemma MergeKeeps(first: seq<Opportunity>, later: seq<Opportunity>)
    requires DistinctRoutes(first) && DistinctRoutes(later)
    requires forall k | 0 <= k < |later| && HasRoute(first, later[k]) :: Dominated(first, later[k])
    ensures BestPerRoute(first + later) == first + Unmet(first, later)
  {
    var kept := first + Unmet(first, later);
    MergeTable(first, later);
    UnmetDistinct(first, later);
    KeptTable(first + later);
    KeptTable(kept);
    hide *;
    DistinctKept(kept);
  }

  lemma NoBetter(first: seq<Opportunity>, o: Opportunity)
    requires Dominated(first, o)
    ensures Offer(BestOf(first), o) == BestOf(first)
  {
    hide RouteKey, BestOf;
    var i :| 0 <= i < |first| && RouteKey(first[i]) == RouteKey(o) && first[i].netProfitPct >= o.netProfitPct;
    BestOfDominates(first, first[i]);
  }
}
