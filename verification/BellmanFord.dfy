/** What `bellman_ford_negative_cycle` keeps while it relaxes, and what its two results mean. */
module BellmanFord {
  import opened Collections
  import opened Walks
  import opened Relaxation

  /**
   * The labels `dist` and `pred`, with two proof-only clocks: `round[v]` is the pass that last
   * updated `v` (-1 for none), `stamp[v]` is the serial number of that update.
   */
  datatype Labels = Labels(
    dist: map<string, Extended>, pred: map<string, Option<Edge>>,
    round: map<string, int>, stamp: map<string, nat>, clock: nat)

  ghost predicate Keyed(adj: Adjacency, s: Labels) {
    s.dist.Keys == adj.Keys && s.pred.Keys == adj.Keys && s.round.Keys == adj.Keys && s.stamp.Keys == adj.Keys
  }

  /** The relaxation test `dist[src] + weight < dist[dst] - eps`. */
  ghost predicate Improves(negLog: NegLog, eps: real, s: Labels, e: Edge)
    requires e.src in s.dist && e.dst in s.dist
  {
    Undercuts(s.dist[e.src].Plus(e.Weight(negLog)), s.dist[e.dst], eps)
  }

  /** A node never updated: the source at distance zero, or a node not reached yet. */
  ghost predicate Untouched(source: string, s: Labels, v: string)
    requires v in s.dist && v in s.round && v in s.stamp
  {
    && s.dist[v] == (if v == source then Finite(0.0) else Infinite)
    && s.round[v] == -1 && s.stamp[v] == 0
  }

  /**
   * A node last updated through `e`. Its label is at least the one `e` offers, and by more than
   * `eps` when `e.src` was updated at the same moment or later.
   */
  ghost predicate Derived(adj: Adjacency, negLog: NegLog, source: string, eps: real, s: Labels, v: string, e: Edge)
    requires Keyed(adj, s) && v in adj
  {
    && IsEdge(adj, e) && e.dst == v
    && e.Weight(negLog).Finite? && s.dist[v].Finite? && s.dist[e.src].Finite?
    && s.dist[v].value >= s.dist[e.src].value + e.Weight(negLog).value
    && (s.stamp[e.src] >= s.stamp[v] ==> s.dist[v].value > s.dist[e.src].value + e.Weight(negLog).value + eps)
    && 0 <= s.round[v] <= s.round[e.src] + 1
  }

  ghost predicate LabelOk(adj: Adjacency, negLog: NegLog, source: string, eps: real, s: Labels, v: string)
    requires Keyed(adj, s) && v in adj
  {
    && s.stamp[v] <= s.clock
    && (s.dist[v].Finite? ==> Reaches(adj, negLog, source, v))
    && match s.pred[v]
       case None => Untouched(source, s, v)
       case Some(e) => Derived(adj, negLog, source, eps, s, v, e)
  }

  ghost predicate Inv(adj: Adjacency, negLog: NegLog, source: string, eps: real, s: Labels) {
    && eps >= 0.0 && source in adj && WellFormed(adj)
    && Keyed(adj, s)
    && forall v | v in adj :: LabelOk(adj, negLog, source, eps, s, v)
  }

  /**
   * In pass `i`, an edge that still improves has a source updated in this pass or, if the edge is
   * yet to be scanned, in the previous one.
   */
  ghost predicate Scanning(adj: Adjacency, negLog: NegLog, eps: real, s: Labels, i: nat, scanned: set<Edge>)
  {
    && Keyed(adj, s) && WellFormed(adj)
    && (forall v | v in adj :: s.round[v] <= i)
    && forall e | IsEdge(adj, e) && Improves(negLog, eps, s, e) ::
         s.round[e.src] >= (if e in scanned then i else i - 1)
  }

  function Relaxed(negLog: NegLog, s: Labels, e: Edge, i: nat): Labels
    requires e.src in s.dist
  {
    Labels(s.dist[e.dst := s.dist[e.src].Plus(e.Weight(negLog))], s.pred[e.dst := Some(e)],
           s.round[e.dst := i], s.stamp[e.dst := s.clock + 1], s.clock + 1)
  }

  function Start(adj: Adjacency, source: string): Labels {
    Labels(map v | v in adj :: if v == source then Finite(0.0) else Infinite,
           map v | v in adj :: None, map v | v in adj :: -1, map v | v in adj :: 0, 0)
  }

  lemma StartInv(adj: Adjacency, negLog: NegLog, source: string, eps: real)
    requires eps >= 0.0 && source in adj && WellFormed(adj)
    ensures Inv(adj, negLog, source, eps, Start(adj, source))
    ensures Scanning(adj, negLog, eps, Start(adj, source), 0, {})
  {
    ReachesSelf(adj, negLog, source);
  }

  lemma RelaxTarget(adj: Adjacency, negLog: NegLog, source: string, eps: real, s: Labels, e: Edge, i: nat)
    requires eps >= 0.0 && Keyed(adj, s) && IsEdge(adj, e) && e.dst in adj && Improves(negLog, eps, s, e)
    requires LabelOk(adj, negLog, source, eps, s, e.src) && s.round[e.src] >= i - 1
    ensures LabelOk(adj, negLog, source, eps, Relaxed(negLog, s, e, i), e.dst)
  {
    ReachesStep(adj, negLog, source, e);
  }

  lemma RelaxOther(adj: Adjacency, negLog: NegLog, source: string, eps: real, s: Labels, e: Edge, i: nat, v: string)
    requires eps >= 0.0 && Keyed(adj, s) && IsEdge(adj, e) && e.dst in adj && Improves(negLog, eps, s, e)
    requires v in adj && v != e.dst && LabelOk(adj, negLog, source, eps, s, v) && s.round[e.dst] <= i
    ensures LabelOk(adj, negLog, source, eps, Relaxed(negLog, s, e, i), v)
  {
  }

  /** Relaxing an improving edge keeps every label's account of itself. */
  lemma RelaxInv(adj: Adjacency, negLog: NegLog, source: string, eps: real, s: Labels, e: Edge, i: nat)
    requires Inv(adj, negLog, source, eps, s)
    requires IsEdge(adj, e) && Improves(negLog, eps, s, e)
    requires s.round[e.src] >= i - 1 && s.round[e.dst] <= i
    ensures Inv(adj, negLog, source, eps, Relaxed(negLog, s, e, i))
  {
    var t := Relaxed(negLog, s, e, i);
    assert IsEdge(adj, e) && e.src in adj && e.dst in adj;
    RelaxTarget(adj, negLog, source, eps, s, e, i);
    RelaxOthers(adj, negLog, source, eps, s, e, i);
    hide LabelOk, Improves, WellFormed, IsEdge;
  }

  lemma RelaxOthers(adj: Adjacency, negLog: NegLog, source: string, eps: real, s: Labels, e: Edge, i: nat)
    requires Inv(adj, negLog, source, eps, s)
    requires IsEdge(adj, e) && Improves(negLog, eps, s, e) && s.round[e.dst] <= i
    ensures Keyed(adj, Relaxed(negLog, s, e, i))
    ensures forall v | v in adj && v != e.dst :: LabelOk(adj, negLog, source, eps, Relaxed(negLog, s, e, i), v)
  {
    assert e.dst in adj && Keyed(adj, Relaxed(negLog, s, e, i));
    hide LabelOk, Improves, WellFormed, IsEdge;
    forall v | v in adj && v != e.dst ensures LabelOk(adj, negLog, source, eps, Relaxed(negLog, s, e, i), v) {
      RelaxOther(adj, negLog, source, eps, s, e, i, v);
    }
  }

  /** Relaxing an improving edge also counts it as scanned. */
  lemma RelaxScanning(adj: Adjacency, negLog: NegLog, eps: real, s: Labels, e: Edge, i: nat, scanned: set<Edge>)
    requires eps >= 0.0 && Scanning(adj, negLog, eps, s, i, scanned)
    requires IsEdge(adj, e) && e.dst in adj && Improves(negLog, eps, s, e)
    ensures Scanning(adj, negLog, eps, Relaxed(negLog, s, e, i), i, scanned + {e})
  {
    var t := Relaxed(negLog, s, e, i);
    forall f | IsEdge(adj, f) && Improves(negLog, eps, t, f)
      ensures t.round[f.src] >= (if f in scanned + {e} then i else i - 1)
    {
      if f.src != e.dst {
        assert f.dst == e.dst ==> Improves(negLog, eps, s, f);
      }
    }
  }

  /** Until a node is updated, no scanned edge improves; an updated node carries this pass's number. */
  ghost predicate Progress(adj: Adjacency, negLog: NegLog, eps: real, s: Labels, i: nat, scanned: set<Edge>,
                           updated: Option<string>) {
    && Keyed(adj, s) && WellFormed(adj)
    && match updated
       case None => forall e | IsEdge(adj, e) && e in scanned :: !Improves(negLog, eps, s, e)
       case Some(v) => v in adj && s.round[v] == i
  }

  /** The state of pass `i` after scanning `scanned`; `updated` is the node updated last, if any. */
  ghost predicate InPass(adj: Adjacency, negLog: NegLog, source: string, eps: real, s: Labels, i: nat,
                         scanned: set<Edge>, updated: Option<string>) {
    && Inv(adj, negLog, source, eps, s)
    && Scanning(adj, negLog, eps, s, i, scanned)
    && Progress(adj, negLog, eps, s, i, scanned, updated)
  }

  lemma ScanImproving(adj: Adjacency, negLog: NegLog, source: string, eps: real, s: Labels, i: nat, scanned: set<Edge>,
                      updated: Option<string>, e: Edge)
    requires InPass(adj, negLog, source, eps, s, i, scanned, updated)
    requires IsEdge(adj, e) && e.src in s.dist && e.dst in s.dist && Improves(negLog, eps, s, e)
    ensures InPass(adj, negLog, source, eps, Relaxed(negLog, s, e, i), i, scanned + {e}, Some(e.dst))
  {
    RelaxInv(adj, negLog, source, eps, s, e, i);
    RelaxScanning(adj, negLog, eps, s, e, i, scanned);
  }

  /** Edges that do not improve are scanned without a change. */
  lemma ScanIdle(adj: Adjacency, negLog: NegLog, source: string, eps: real, s: Labels, i: nat, scanned: set<Edge>,
                 updated: Option<string>, idle: set<Edge>)
    requires InPass(adj, negLog, source, eps, s, i, scanned, updated)
    requires forall e | e in idle :: e.src in s.dist && e.dst in s.dist && !Improves(negLog, eps, s, e)
    ensures InPass(adj, negLog, source, eps, s, i, scanned + idle, updated)
  {
  }

  /** A pass that scanned every edge opens the next one; without an update it leaves nothing to improve. */
  lemma PassDone(adj: Adjacency, negLog: NegLog, source: string, eps: real, s: Labels, i: nat, scanned: set<Edge>,
                 updated: Option<string>)
    requires InPass(adj, negLog, source, eps, s, i, scanned, updated)
    requires forall e | IsEdge(adj, e) :: e in scanned
    ensures InPass(adj, negLog, source, eps, s, i + 1, {}, None)
    ensures match updated
            case None => Settled(adj, negLog, eps, s)
            case Some(v) => v in adj && v in s.round && s.round[v] == i
  {
    hide Inv, WellFormed;
  }

  /** No edge improves: every distance is final up to `eps`. */
  ghost predicate Settled(adj: Adjacency, negLog: NegLog, eps: real, s: Labels)
  {
    && Keyed(adj, s) && WellFormed(adj)
    && forall e | IsEdge(adj, e) :: !Improves(negLog, eps, s, e)
  }

  /** What a walk must lose to beat the tolerance on every one of its edges. */
  function Slack(n: nat, eps: real): real {
    n as real * eps
  }

  lemma SlackNext(n: nat, eps: real)
    ensures Slack(0, eps) == 0.0 && Slack(n + 1, eps) == Slack(n, eps) + eps
  {
  }

  lemma SettledEdge(adj: Adjacency, negLog: NegLog, eps: real, s: Labels, e: Edge)
    requires Settled(adj, negLog, eps, s) && IsEdge(adj, e) && e.Weight(negLog).Finite?
    requires e.src in s.dist && s.dist[e.src].Finite?
    ensures e.dst in adj && e.dst in s.dist && s.dist[e.dst].Finite?
    ensures s.dist[e.dst].value <= s.dist[e.src].value + e.Weight(negLog).value + eps
  {
    assert !Improves(negLog, eps, s, e);
  }

  /** The first edge of a walk, and the rest of it. */
  lemma WalkUncons(adj: Adjacency, negLog: NegLog, p: seq<Edge>, a: string, b: string)
    requires p != [] && Walk(adj, p, a, b) && Total(negLog, p).Finite?
    ensures IsEdge(adj, p[0]) && p[0].src == a && Walk(adj, p[1..], p[0].dst, b)
    ensures p[0].Weight(negLog).Finite? && Total(negLog, p[1..]).Finite?
    ensures Total(negLog, p).value == p[0].Weight(negLog).value + Total(negLog, p[1..]).value
  {
    hide *;
    TotalUncons(negLog, p);
    WalkTail(adj, p, a, b);
  }

  lemma WalkTail(adj: Adjacency, p: seq<Edge>, a: string, b: string)
    requires p != [] && Walk(adj, p, a, b)
    ensures IsEdge(adj, p[0]) && p[0].src == a && Walk(adj, p[1..], p[0].dst, b)
  {
    hide IsEdge;
    var rest := p[1..];
    assert forall k | 0 <= k < |rest| :: rest[k] == p[k + 1];
  }

  lemma TotalUncons(negLog: NegLog, p: seq<Edge>)
    requires p != [] && Total(negLog, p).Finite?
    ensures p[0].Weight(negLog).Finite? && Total(negLog, p[1..]).Finite?
    ensures Total(negLog, p).value == p[0].Weight(negLog).value + Total(negLog, p[1..]).value
  {
    hide Edge.Weight;
  }

  lemma {:induction false} SettledWalk(adj: Adjacency, negLog: NegLog, eps: real, s: Labels, p: seq<Edge>, a: string,
                                       b: string)
    requires Settled(adj, negLog, eps, s)
    requires a in adj && Walk(adj, p, a, b) && Total(negLog, p).Finite? && a in s.dist && s.dist[a].Finite?
    ensures b in adj && b in s.dist && s.dist[b].Finite?
    ensures s.dist[b].value <= s.dist[a].value + Total(negLog, p).value + Slack(|p|, eps)
  {
    SlackNext(if p == [] then 0 else |p| - 1, eps);
    if p != [] {
      WalkUncons(adj, negLog, p, a, b);
      SettledEdge(adj, negLog, eps, s, p[0]);
      hide *;
      SettledWalk(adj, negLog, eps, s, p[1..], p[0].dst, b);
    }
  }

  /** What the search means: `None` bounds every reachable closed walk, a cycle beats the tolerance. */
  ghost predicate Outcome(adj: Adjacency, negLog: NegLog, source: string, eps: real, r: Option<Cycle>) {
    match r
    case None =>
      forall v, p | v in adj && Walk(adj, p, v, v) && Total(negLog, p).Finite? && source in adj
          && Reaches(adj, negLog, source, v) ::
        Total(negLog, p).value >= -Slack(|p|, eps)
    case Some(c) =>
      && source in adj && SimpleCycle(adj, c.edges)
      && Reaches(adj, negLog, source, c.edges[0].src)
      && c == CycleOf(negLog, c.edges[0].src, c.edges)
      && c.total.Finite? && c.total.value < -eps
  }

  lemma SettledOutcome(adj: Adjacency, negLog: NegLog, source: string, eps: real, s: Labels)
    requires Inv(adj, negLog, source, eps, s) && Settled(adj, negLog, eps, s)
    ensures Outcome(adj, negLog, source, eps, None)
  {
    forall v, p | v in adj && Walk(adj, p, v, v) && Total(negLog, p).Finite? && Reaches(adj, negLog, source, v)
      ensures Total(negLog, p).value >= -Slack(|p|, eps)
    {
      assert LabelOk(adj, negLog, source, eps, s, source);
      var q :| Walk(adj, q, source, v) && Total(negLog, q).Finite?;
      SettledWalk(adj, negLog, eps, s, q, source, v);
      SettledWalk(adj, negLog, eps, s, p, v, v);
    }
  }

  /** A node updated in a pass has a predecessor updated no more than one pass earlier. */
  lemma StepBack(adj: Adjacency, negLog: NegLog, source: string, eps: real, s: Labels, v: string)
    requires Inv(adj, negLog, source, eps, s) && v in adj && v in s.pred && v in s.round
    requires s.pred[v].Some? || s.round[v] >= 0
    ensures s.pred[v].Some?
    ensures var e := s.pred[v].value;
            IsEdge(adj, e) && e.dst == v && e.Weight(negLog).Finite? && e.src in s.round
                && s.round[e.src] >= s.round[v] - 1
  {
  }

  /** The node `k` predecessor steps back from `x`. */
  ghost function Chase(pred: map<string, Option<Edge>>, x: string, k: nat): Option<string>
    decreases k
  {
    if k == 0 then Some(x)
    else if x in pred && pred[x].Some? then Chase(pred, pred[x].value.src, k - 1)
    else None
  }

  lemma {:induction false} ChaseAdd(pred: map<string, Option<Edge>>, x: string, a: nat, b: nat)
    ensures Chase(pred, x, a + b) == (var y := Chase(pred, x, a); if y.Some? then Chase(pred, y.value, b) else None)
    decreases a
  {
    if a > 0 && x in pred && pred[x].Some? {
      ChaseAdd(pred, pred[x].value.src, a - 1, b);
    }
  }

  /** The nodes met on the way back from a node, each the predecessor of the one before. */
  ghost predicate Trail(pred: map<string, Option<Edge>>, trail: seq<string>) {
    && trail != []
    && forall j | 0 <= j < |trail| - 1 ::
       trail[j] in pred && pred[trail[j]].Some? && pred[trail[j]].value.src == trail[j + 1]
  }

  lemma {:induction false} TrailChase(pred: map<string, Option<Edge>>, trail: seq<string>, j: nat, k: nat)
    requires Trail(pred, trail) && j + k < |trail|
    ensures Chase(pred, trail[j], k) == Some(trail[j + k])
    decreases k
  {
    if k > 0 {
      TrailChase(pred, trail, j + 1, k - 1);
    }
  }

  /** `node` comes back to itself after exactly `period` predecessor steps and no fewer. */
  ghost predicate OnCycle(pred: map<string, Option<Edge>>, node: string, period: nat) {
    && period > 0 && Chase(pred, node, period) == Some(node)
    && forall k | 0 < k < period :: Chase(pred, node, k) != Some(node)
  }

  lemma {:induction false} LeastPeriod(pred: map<string, Option<Edge>>, node: string, some: nat) returns (period: nat)
    requires some > 0 && Chase(pred, node, some) == Some(node)
    ensures OnCycle(pred, node, period)
    decreases some
  {
    if k :| 0 < k < some && Chase(pred, node, k) == Some(node) {
      period := LeastPeriod(pred, node, k);
    } else {
      period := some;
    }
  }

  /** Walking back as many steps as there are nodes lands inside a predecessor cycle. */
  lemma Landed(pred: map<string, Option<Edge>>, trail: seq<string>, nodes: set<string>) returns (period: nat)
    requires Trail(pred, trail) && |trail| == |nodes| + 1 && forall x | x in trail :: x in nodes
    ensures OnCycle(pred, trail[|trail| - 1], period)
  {
    if Distinct(trail) {
      DistinctBound(trail, nodes);
    }
    var i, j :| 0 <= i < j < |trail| && trail[i] == trail[j];
    var last, p := |trail| - 1, j - i;
    TrailChase(pred, trail, i, p);
    TrailChase(pred, trail, i, last - i);
    ChaseAdd(pred, trail[i], p, last - i);
    ChaseAdd(pred, trail[i], last - i, p);
    assert p + (last - i) == (last - i) + p;
    period := LeastPeriod(pred, trail[last], p);
  }

  /** The nodes of a predecessor cycle are distinct. */
  lemma CycleDistinct(pred: map<string, Option<Edge>>, node: string, period: nat, a: nat, b: nat)
    requires OnCycle(pred, node, period) && 0 < a < b <= period
    ensures Chase(pred, node, a) != Chase(pred, node, b)
  {
    ChaseAdd(pred, node, a, period - b);
    ChaseAdd(pred, node, b, period - b);
  }

  /**
   * One more predecessor step: the label at `node` still covers the walk, and by more than `eps`
   * unless stamps have fallen all the way from `node`.
   */
  ghost predicate Covers(s: Labels, current: string, node: string, total: Extended, eps: real, steps: nat)
    requires current in s.dist && node in s.dist && current in s.stamp && node in s.stamp
  {
    && s.dist[node].Finite? && s.dist[current].Finite? && total.Finite?
    && s.dist[node].value >= s.dist[current].value + total.value
    && (steps > 0 && s.stamp[current] >= s.stamp[node]
        ==> s.dist[node].value > s.dist[current].value + total.value + eps)
  }

  lemma CoversStep(adj: Adjacency, negLog: NegLog, source: string, eps: real, s: Labels, current: string, node: string,
                   total: Extended, steps: nat)
    requires Inv(adj, negLog, source, eps, s) && current in adj && node in adj
    requires Covers(s, current, node, total, eps, steps) && (steps == 0 ==> current == node && total == Finite(0.0))
    requires s.pred[current].Some?
    ensures s.pred[current].value.src in adj
    ensures Covers(s, s.pred[current].value.src, node, s.pred[current].value.Weight(negLog).Plus(total), eps, steps + 1)
  {
  }

  /** Some closed walk reachable from `source` loses weight. */
  ghost predicate NegativeCycleExists(adj: Adjacency, negLog: NegLog, source: string) {
    exists v, p :: v in adj && source in adj && Reaches(adj, negLog, source, v) && Walk(adj, p, v, v)
        && Total(negLog, p).Negative()
  }

  /** With exact comparisons the search is exact: it answers whenever there is something to find. */
  lemma ExactWithoutTolerance(adj: Adjacency, negLog: NegLog, source: string, r: Option<Cycle>)
    requires Outcome(adj, negLog, source, 0.0, r)
    ensures r.Some? <==> NegativeCycleExists(adj, negLog, source)
  {
  }

  function SelfLoop(rate: real): Edge {
    Edge("A", "A", rate, 0.0, "v", "A/A", Buy)
  }

  /** Inside the gap a negative cycle is missed: one self-loop weighing between `-eps` and 0. */
  lemma MissedCycle(negLog: NegLog, rate: real, eps: real, r: Option<Cycle>)
    requires rate > 0.0 && -eps <= negLog(rate) < 0.0
    requires Outcome(map["A" := [SelfLoop(rate)]], negLog, "A", eps, r)
    ensures r == None
    ensures NegativeCycleExists(map["A" := [SelfLoop(rate)]], negLog, "A")
  {
    var loop := SelfLoop(rate);
    var adj: Adjacency := map["A" := [loop]];
    assert IsEdge(adj, loop) && loop.Weight(negLog) == Finite(negLog(rate));
    TotalSnoc(negLog, [], loop);
    assert [] + [loop] == [loop];
    assert Walk(adj, [loop], "A", "A") && Total(negLog, [loop]).Negative();
    ReachesSelf(adj, negLog, "A");
  }
}
