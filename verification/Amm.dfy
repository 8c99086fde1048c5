/** Swap arithmetic of constant-product and single-tick concentrated-liquidity pools. */
module Amm {
  import opened Walks

  const TWO_POW_96: real := 79228162514264337593543950336.0

  /** Output of a constant-product swap, net of the fee; zero for an empty pool or order. */
  function ConstantProductOutput(reserveIn: real, reserveOut: real, amountIn: real, fee: real): real
    requires fee < 1.0
  {
    if reserveIn <= 0.0 || reserveOut <= 0.0 || amountIn <= 0.0 then 0.0
    else
      var net := AfterFee(amountIn, fee);
      NetPositive(amountIn, fee);
      reserveOut * net / (reserveIn + net)
  }

  /** Input that buys exactly `amountOut`; infinite when the pool cannot deliver it. */
  function ConstantProductInputNeeded(reserveIn: real, reserveOut: real, amountOut: real, fee: real): Extended
    requires fee < 1.0
  {
    if reserveIn <= 0.0 || reserveOut <= 0.0 || amountOut <= 0.0 || amountOut >= reserveOut then Infinite
    else Finite(reserveIn * amountOut / (reserveOut - amountOut) / (1.0 - fee))
  }

  /** Output of a swap inside one tick, by its effect on the square-root price. */
  function ConcentratedLiquidityOutput(sqrtPriceX96: real, liquidity: real, amountIn: real, fee: real,
                                       zeroForOne: bool): real
    requires fee < 1.0
  {
    if liquidity <= 0.0 || amountIn <= 0.0 || sqrtPriceX96 <= 0.0 then 0.0
    else
      var net := AfterFee(amountIn, fee);
      var sqrtPrice := sqrtPriceX96 / TWO_POW_96;
      NetPositive(amountIn, fee);
      QuotientPositive(sqrtPriceX96, TWO_POW_96);
      ProductPositive(net, sqrtPrice);
      QuotientPositive(net, liquidity);
      if zeroForOne then
        var newSqrtPrice := (liquidity * sqrtPrice) / (liquidity + net * sqrtPrice);
        liquidity * (sqrtPrice - newSqrtPrice)
      else
        var newSqrtPrice := sqrtPrice + net / liquidity;
        liquidity * (1.0 / sqrtPrice - 1.0 / newSqrtPrice)
  }

  function PowerOfTwo(n: nat): real {
    if n == 0 then 1.0 else 2.0 * PowerOfTwo(n - 1)
  }

  /** The fixed-point scale of a square-root price is two to the 96. */
  lemma ScaleIsPower()
    ensures TWO_POW_96 == PowerOfTwo(96)
  {
    assert PowerOfTwo(8) == 256.0;
    PowersMultiply(8, 8);
    PowersMultiply(16, 16);
    PowersMultiply(32, 32);
    PowersMultiply(64, 32);
  }

  lemma {:induction false} PowersMultiply(m: nat, n: nat)
    ensures PowerOfTwo(m + n) == PowerOfTwo(m) * PowerOfTwo(n)
  {
    if n > 0 {
      PowersMultiply(m, n - 1);
    }
  }

  /** An empty pool or order gives nothing, and no input empties a pool of nothing. */
  lemma NothingSwapped(a: real, b: real, amount: real, fee: real, zeroForOne: bool)
    requires fee < 1.0 && (a <= 0.0 || b <= 0.0 || amount <= 0.0)
    ensures ConstantProductOutput(a, b, amount, fee) == 0.0
            && ConcentratedLiquidityOutput(a, b, amount, fee, zeroForOne) == 0.0
            && ConstantProductInputNeeded(a, b, amount, fee) == Infinite
  {
  }

  lemma NetPositive(amount: real, fee: real)
    requires amount > 0.0 && fee < 1.0
    ensures AfterFee(amount, fee) > 0.0
  {
  }

  lemma ProductPositive(a: real, b: real)
    requires a > 0.0 && b > 0.0
    ensures a * b > 0.0
  {
  }

  lemma QuotientPositive(a: real, b: real)
    requires a > 0.0 && b > 0.0
    ensures a / b > 0.0
  {
  }

  /** `x` is `a / b` when `x * b` is `a`. */
  lemma IsQuotient(x: real, a: real, b: real)
    requires b != 0.0 && x * b == a
    ensures x == a / b
  {
  }

  /** Selling the base inside a tick: `L*s - L * (L*s)/(L + a*s)` is the constant-product output on `L/s`, `L*s`. */
  lemma SellBase(l: real, s: real, a: real)
    requires l > 0.0 && s > 0.0 && a > 0.0
    ensures l + a * s > 0.0 && l / s + a > 0.0
    ensures l * (s - (l * s) / (l + a * s)) == (l * s) * a / (l / s + a)
  {
  }

  /** Buying the base inside a tick is the constant-product output on `L*s`, `L/s`. */
  lemma BuyBase(l: real, s: real, a: real)
    requires l > 0.0 && s > 0.0 && a > 0.0
    ensures s + a / l > 0.0 && l * s + a > 0.0
    ensures l * (1.0 / s - 1.0 / (s + a / l)) == (l / s) * a / (l * s + a)
  {
  }

  /** Inside one tick a concentrated pool is the constant-product pool on its virtual reserves, both ways. */
  lemma TickIsConstantProduct(sqrtPriceX96: real, liquidity: real, amountIn: real, fee: real)
    requires sqrtPriceX96 > 0.0 && liquidity > 0.0 && amountIn > 0.0 && fee < 1.0
    ensures var s := sqrtPriceX96 / TWO_POW_96;
            && s > 0.0
            && ConcentratedLiquidityOutput(sqrtPriceX96, liquidity, amountIn, fee, true)
               == ConstantProductOutput(liquidity / s, liquidity * s, amountIn, fee)
            && ConcentratedLiquidityOutput(sqrtPriceX96, liquidity, amountIn, fee, false)
               == ConstantProductOutput(liquidity * s, liquidity / s, amountIn, fee)
  {
    var s, net := sqrtPriceX96 / TWO_POW_96, AfterFee(amountIn, fee);
    QuotientPositive(sqrtPriceX96, TWO_POW_96);
    NetPositive(amountIn, fee);
    TickOutputs(sqrtPriceX96, liquidity, amountIn, fee, s, net);
    ProductPositive(liquidity, s);
    QuotientPositive(liquidity, s);
    SellBase(liquidity, s, net);
    BuyBase(liquidity, s, net);
    PoolOutput(liquidity / s, liquidity * s, amountIn, fee, net);
    PoolOutput(liquidity * s, liquidity / s, amountIn, fee, net);
    hide *;
  }

  lemma PoolOutput(reserveIn: real, reserveOut: real, amountIn: real, fee: real, net: real)
    requires reserveIn > 0.0 && reserveOut > 0.0 && amountIn > 0.0 && fee < 1.0 && net == AfterFee(amountIn, fee) > 0.0
    ensures ConstantProductOutput(reserveIn, reserveOut, amountIn, fee) == reserveOut * net / (reserveIn + net)
  {
    hide AfterFee;
  }

  lemma TickOutputs(sqrtPriceX96: real, liquidity: real, amountIn: real, fee: real, s: real, net: real)
    requires sqrtPriceX96 > 0.0 && liquidity > 0.0 && amountIn > 0.0 && fee < 1.0
    requires s == sqrtPriceX96 / TWO_POW_96 > 0.0 && net == AfterFee(amountIn, fee) > 0.0
    ensures liquidity + net * s > 0.0 && s + net / liquidity > 0.0
    ensures ConcentratedLiquidityOutput(sqrtPriceX96, liquidity, amountIn, fee, true)
            == liquidity * (s - (liquidity * s) / (liquidity + net * s))
    ensures ConcentratedLiquidityOutput(sqrtPriceX96, liquidity, amountIn, fee, false)
            == liquidity * (1.0 / s - 1.0 / (s + net / liquidity))
  {
    ProductPositive(net, s);
    QuotientPositive(net, liquidity);
    hide AfterFee, TWO_POW_96;
  }

  /** A swap pays out less than the pool holds, and what it pays costs exactly what was put in. */
  lemma InputOfOutput(reserveIn: real, reserveOut: real, amountIn: real, fee: real)
    requires reserveIn > 0.0 && reserveOut > 0.0 && amountIn > 0.0 && fee < 1.0
    ensures var out := ConstantProductOutput(reserveIn, reserveOut, amountIn, fee);
            0.0 < out < reserveOut && ConstantProductInputNeeded(reserveIn, reserveOut, out, fee) == Finite(amountIn)
  {
  }

  lemma SignOfFactor(x: real, d: real)
    requires d > 0.0 && x * d > 0.0
    ensures x > 0.0
  {
  }

  /** Paying the quoted input delivers exactly the amount asked for. */
  lemma OutputOfInput(reserveIn: real, reserveOut: real, amountOut: real, fee: real)
    requires reserveIn > 0.0 && 0.0 < amountOut < reserveOut && fee < 1.0
    ensures var input := ConstantProductInputNeeded(reserveIn, reserveOut, amountOut, fee);
            input.Finite? && input.value > 0.0
                && ConstantProductOutput(reserveIn, reserveOut, input.value, fee) == amountOut
  {
    var g, left := 1.0 - fee, reserveOut - amountOut;
    ProductPositive(reserveIn, amountOut);
    QuotientPositive(reserveIn * amountOut, left);
    var net := reserveIn * amountOut / left;
    QuotientPositive(net, g);
    var input := net / g;
    assert AfterFee(input, fee) == input * g == net;
    hide AfterFee;
    assert net * left == reserveIn * amountOut;
    assert amountOut * (reserveIn + net) == net * left + amountOut * net == net * reserveOut;
    IsQuotient(amountOut, reserveOut * net, reserveIn + net);
  }

  /** A pool cannot be asked for everything it holds. */
  lemma InfeasibleOutput(reserveIn: real, reserveOut: real, amountOut: real, amountIn: real, fee: real)
    requires reserveIn > 0.0 && reserveOut > 0.0 && amountOut > 0.0 && fee < 1.0
    ensures ConstantProductInputNeeded(reserveIn, reserveOut, amountOut, fee).Infinite?
            <==> forall x: real :: ConstantProductOutput(reserveIn, reserveOut, x, fee) != amountOut
  {
    if amountOut < reserveOut {
      OutputOfInput(reserveIn, reserveOut, amountOut, fee);
      var x := ConstantProductInputNeeded(reserveIn, reserveOut, amountOut, fee).value;
      assert ConstantProductOutput(reserveIn, reserveOut, x, fee) == amountOut;
    } else {
      forall x: real ensures ConstantProductOutput(reserveIn, reserveOut, x, fee) != amountOut {
        if x > 0.0 {
          InputOfOutput(reserveIn, reserveOut, x, fee);
        }
      }
    }
  }

  /** The product of the reserves never falls, and stays put exactly when there is no fee. */
  lemma ReserveProduct(reserveIn: real, reserveOut: real, amountIn: real, fee: real)
    requires reserveIn > 0.0 && reserveOut > 0.0 && amountIn > 0.0 && 0.0 <= fee < 1.0
    ensures var out := ConstantProductOutput(reserveIn, reserveOut, amountIn, fee);
            var after := (reserveIn + amountIn) * (reserveOut - out);
            after >= reserveIn * reserveOut && (after == reserveIn * reserveOut <==> fee == 0.0)
  {
    NetPositive(amountIn, fee);
    var net := AfterFee(amountIn, fee);
    assert amountIn - net == amountIn * fee;
    hide AfterFee;
    var d := reserveIn + net;
    var out := reserveOut * net / d;
    assert out * d == reserveOut * net;
    var left := reserveOut - out;
    assert left * d == reserveOut * d - out * d;
    assert left * d == reserveOut * reserveIn;
    ProductPositive(reserveOut, reserveIn);
    SignOfFactor(left, d);
    assert (reserveIn + amountIn) * left == d * left + (amountIn * fee) * left;
    if fee > 0.0 {
      ProductPositive(amountIn, fee);
      ProductPositive(amountIn * fee, left);
    }
  }

  /** The average price paid rises strictly with the amount bought. */
  lemma AveragePriceRises(reserveIn: real, reserveOut: real, a: real, b: real, fee: real)
    requires reserveIn > 0.0 && 0.0 < a < b < reserveOut && fee < 1.0
    ensures ConstantProductInputNeeded(reserveIn, reserveOut, a, fee).value / a
            < ConstantProductInputNeeded(reserveIn, reserveOut, b, fee).value / b
  {
    Average(reserveIn, reserveOut, a, fee);
    Average(reserveIn, reserveOut, b, fee);
    hide ConstantProductInputNeeded;
    SmallerDivisor(reserveIn, reserveOut - b, reserveOut - a);
    LargerDividend(reserveIn / (reserveOut - a), reserveIn / (reserveOut - b), 1.0 - fee);
  }

  lemma SmallerDivisor(n: real, small: real, large: real)
    requires n > 0.0 && 0.0 < small < large
    ensures n / large < n / small
  {
  }

  lemma LargerDividend(u: real, v: real, g: real)
    requires u < v && g > 0.0
    ensures u / g < v / g
  {
  }

  lemma Average(reserveIn: real, reserveOut: real, a: real, fee: real)
    requires reserveIn > 0.0 && 0.0 < a < reserveOut && fee < 1.0
    ensures ConstantProductInputNeeded(reserveIn, reserveOut, a, fee).value / a
            == reserveIn / (reserveOut - a) / (1.0 - fee)
  {
  }
}
