/** What a cycle's log weight says about money. */
module Pricing {
  import opened Walks

  /** `negLog` is `x -> -log(x)` and `exp` its companion, on the positive reals. */
  ghost predicate Lawful(negLog: NegLog, exp: real -> real) {
    && (forall a: real, b: real | a > 0.0 && b > 0.0 :: negLog(a * b) == negLog(a) + negLog(b))
    && (forall a: real, b: real | 0.0 < a < b :: negLog(b) < negLog(a))
    && (forall a: real | a > 0.0 :: exp(-negLog(a)) == a)
  }

  /** Units held after following the path with one unit. */
  function PathRate(p: seq<Edge>): real {
    if p == [] then 1.0 else Product(p[0].EffectiveRate(), PathRate(p[1..]))
  }

  /** `(exp(-total_weight) - 1) * 100`; an infinite weight leaves nothing. */
  function ProfitPct(exp: real -> real, total: Extended): real {
    match total
    case Finite(w) => (exp(-w) - 1.0) * 100.0
    case Infinite => -100.0
  }

  lemma {:induction false} WeightIsLogOfRate(negLog: NegLog, exp: real -> real, p: seq<Edge>)
    requires Lawful(negLog, exp) && Total(negLog, p).Finite?
    ensures PathRate(p) > 0.0 && Total(negLog, p).value == negLog(PathRate(p))
  {
    if p == [] {
      assert negLog(1.0 * 1.0) == negLog(1.0) + negLog(1.0);
    } else {
      WeightIsLogOfRate(negLog, exp, p[1..]);
      LogOfProduct(negLog, exp, p[0].EffectiveRate(), PathRate(p[1..]));
      hide AfterFee, Product, Lawful;
    }
  }

  lemma LogOfProduct(negLog: NegLog, exp: real -> real, a: real, b: real)
    requires Lawful(negLog, exp) && a > 0.0 && b > 0.0
    ensures Product(a, b) > 0.0 && negLog(Product(a, b)) == negLog(a) + negLog(b)
  {
  }

  /** The reported profit is the gain of following the cycle, and a negative weight means a gain. */
  lemma ProfitIsGain(negLog: NegLog, exp: real -> real, p: seq<Edge>)
    requires Lawful(negLog, exp) && Total(negLog, p).Finite?
    ensures ProfitPct(exp, Total(negLog, p)) == (PathRate(p) - 1.0) * 100.0
    ensures Total(negLog, p).Negative() <==> PathRate(p) > 1.0
  {
    WeightIsLogOfRate(negLog, exp, p);
    assert negLog(1.0 * 1.0) == negLog(1.0) + negLog(1.0);
    var rate := PathRate(p);
    if rate > 1.0 {
      assert negLog(rate) < negLog(1.0);
    } else if rate < 1.0 {
      assert negLog(1.0) < negLog(rate);
    }
  }

  /** Something is left of a unit converted over the edge. */
  predicate Converts(e: Edge) {
    e.rate * (1.0 - e.fee) > 0.0
  }

  /** A path has a finite weight exactly when every conversion on it leaves something. */
  lemma {:induction false} FiniteIff(negLog: NegLog, p: seq<Edge>)
    ensures Total(negLog, p).Finite? <==> forall k | 0 <= k < |p| :: Converts(p[k])
  {
    if p != [] {
      FiniteIff(negLog, p[1..]);
      assert p[0].Weight(negLog).Finite? <==> Converts(p[0]);
      hide Edge.Weight, Converts;
      if forall k | 0 <= k < |p| - 1 :: Converts(p[1..][k]) {
        assert forall k | 1 <= k < |p| :: p[k] == p[1..][k - 1];
      }
    }
  }
}
