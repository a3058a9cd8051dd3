/** DeltaSwap: a constant-product pair whose fee is charged only when trading, smoothed over blocks, exceeds
a share of the pool's liquidity. Quoting an exact output looks for a fee that is its own consequence. */
module DeltaSwap {
  import opened Arith
  import opened Words
  import opened Outcomes

  const FEE_PRECISION: nat := 1000
  const MAX_ITERATIONS: nat := 500
  const TWO_POW_64: nat := 0x1_0000_0000_0000_0000

  datatype Error = MaxIterations | InvalidK | ZeroTradeLiquidity | Overflow | InsufficientLiquidity | InsufficientAmount
  type Result<T> = Outcome<T, Error>

  datatype Pool = Pool(
    tradeLiquidityEMA: nat, liquidityEMA: nat, lastTradeLiquiditySum: nat, lastTradeBlockNumber: nat,
    blockNumber: nat, dsFee: nat, dsFeeThreshold: nat)

  // ----- square roots

  /** Floor of the square root. */
  function ISqrt(n: nat): nat {
    if n == 0 then 0
    else
      var r := ISqrt(n - 1);
      if Times(r + 1, r + 1) <= n then r + 1 else r
  }

  lemma {:induction false} ISqrtIs(n: nat)
    ensures var r := ISqrt(n); r * r <= n < (r + 1) * (r + 1)
  {
    hide Times;
    if n > 0 {
      var r := ISqrt(n - 1);
      ISqrtIs(n - 1);
      TimesIs(r + 1, r + 1);
      NextSquare(r + 1);
    }
  }

  lemma NextSquare(r: nat)
    ensures (r + 1) * (r + 1) == r * r + 2 * r + 1
  {
  }

  lemma ISqrtMono(m: nat, n: nat)
    requires m <= n
    ensures ISqrt(m) <= ISqrt(n)
  {
    hide ISqrt;
    ISqrtIs(m);
    ISqrtIs(n);
    var a, b := ISqrt(m), ISqrt(n);
    if a > b {
      SquareMono(b + 1, a);
    }
  }

  lemma SquareMono(a: nat, b: nat)
    requires a <= b
    ensures a * a <= b * b
  {
  }

  // ----- trade liquidity and the fee it entails

  function SingleSideLiquidity(amount: nat, reserve0: nat, reserve1: nat): nat {
    var amount0 := amount / 2;
    ISqrt(Mul(amount0, Div(Mul(amount0, reserve1), reserve0)))
  }

  function TradeLiquidity(amountIn: nat, reserveIn: nat, reserveOut: nat): nat {
    Max(SingleSideLiquidity(amountIn, reserveIn, reserveOut), SingleSideLiquidity(0, reserveOut, reserveIn))
  }

  function CalcEMA(last: nat, emaLast: nat, emaWeight: nat): nat {
    if emaLast == 0 then last
    else
      var weight := Min(100, emaWeight);
      Add(Mul(last, weight) / 100, Mul(emaLast, Sub(100, weight)) / 100)
  }

  function BlockDiff(p: Pool): nat {
    (p.blockNumber - p.lastTradeBlockNumber) % TWO_POW_64
  }

  function TradeSum(p: Pool, tradeLiquidity: nat): nat {
    if BlockDiff(p) > 0 then tradeLiquidity else Add(p.lastTradeLiquiditySum, tradeLiquidity)
  }

  function TradeEMA(p: Pool, tradeLiquidity: nat): nat {
    CalcEMA(TradeSum(p, tradeLiquidity), if BlockDiff(p) > 50 then 0 else p.tradeLiquidityEMA, 20)
  }

  function Threshold(p: Pool): nat {
    Mul(p.liquidityEMA, p.dsFeeThreshold) / 1000
  }

  function TradingFee(p: Pool, tradeLiquidity: nat): nat {
    if Max(tradeLiquidity, TradeEMA(p, tradeLiquidity)) > Threshold(p) then p.dsFee else 0
  }

  // ----- amounts

  function GetAmountOut(amountIn: nat, reserveIn: nat, reserveOut: nat, fee: nat): nat {
    var withFee := Mul(amountIn, Sub(FEE_PRECISION, fee));
    Div(Mul(withFee, reserveOut), Add(Mul(reserveIn, FEE_PRECISION), withFee))
  }

  /** Checked arithmetic: overflow and underflow are errors; a zero denominator gives 0. */
  function GetAmountIn(amountOut: nat, reserveIn: nat, reserveOut: nat, fee: nat): Result<nat> {
    if amountOut > reserveOut || fee > FEE_PRECISION then Err(Overflow)
    else
      var num := reserveIn * amountOut * FEE_PRECISION;
      var den := (reserveOut - amountOut) * (FEE_PRECISION - fee);
      if !IsWord(reserveIn * amountOut) || !IsWord(num) || !IsWord(den) || !IsWord(Div(num, den) + 1) then Err(Overflow)
      else Ok(Div(num, den) + 1)
  }

  /** What assuming a fee leads to: the input it needs, that input's trade liquidity, and the fee it entails. */
  datatype Response = Response(amountIn: nat, tradeLiquidity: nat, newFee: nat)

  function Respond(p: Pool, amountOut: nat, reserveIn: nat, reserveOut: nat, fee: nat): Result<Response> {
    match GetAmountIn(amountOut, reserveIn, reserveOut, fee)
    case Err(e) => Err(e)
    case Ok(amountIn) =>
      var liq := TradeLiquidity(amountIn, reserveIn, reserveOut);
      if liq == 0 then Err(ZeroTradeLiquidity) else Ok(Response(amountIn, liq, TradingFee(p, liq)))
  }

  datatype Fixpoint = Fixpoint(fee: nat, response: Response)

  /** The fee loop with `fuel` iterations left. */
  function FeeLoop(p: Pool, amountOut: nat, reserveIn: nat, reserveOut: nat, fee: nat, fuel: nat): Result<Fixpoint>
    decreases fuel
  {
    if fuel == 0 then Err(MaxIterations)
    else match Respond(p, amountOut, reserveIn, reserveOut, fee)
      case Err(e) => Err(e)
      case Ok(r) =>
        if r.newFee == fee then Ok(Fixpoint(fee, r))
          else FeeLoop(p, amountOut, reserveIn, reserveOut, r.newFee, fuel - 1)
  }

  predicate KeepsK(amountIn: nat, amountOut: nat, reserveIn: nat, reserveOut: nat, fee: nat) {
    var balanceIn := Sub(Mul(Add(reserveIn, amountIn), FEE_PRECISION), Mul(amountIn, fee));
    var balanceOut := Mul(Sub(reserveOut, amountOut), FEE_PRECISION);
    Mul(balanceIn, balanceOut) >= Mul(Mul(Mul(reserveIn, reserveOut), FEE_PRECISION), FEE_PRECISION)
  }

  function QuoteIn(p: Pool, amountOut: nat, reserveIn: nat, reserveOut: nat): Result<Fixpoint> {
    if Sign(amountOut) <= 0 then Err(InsufficientAmount)
    else if Sign(reserveIn) <= 0 || Sign(reserveOut) <= 0 || amountOut >= reserveOut then Err(InsufficientLiquidity)
    else match FeeLoop(p, amountOut, reserveIn, reserveOut, 3, MAX_ITERATIONS)
      case Err(e) => Err(e)
      case Ok(x) => if KeepsK(x.response.amountIn, amountOut, reserveIn, reserveOut, x.fee) then Ok(x)
        else Err(InvalidK)
  }

  method CalcAmountIn(p: Pool, amountOut: nat, reserveIn: nat, reserveOut: nat) returns (r: Result<Fixpoint>)
    ensures r == QuoteIn(p, amountOut, reserveIn, reserveOut)
  {
    hide GetAmountIn, TradeLiquidity, TradingFee, KeepsK;
    if Sign(amountOut) <= 0 {
      return Err(InsufficientAmount);
    }
    if Sign(reserveIn) <= 0 || Sign(reserveOut) <= 0 || amountOut >= reserveOut {
      return Err(InsufficientLiquidity);
    }
    var fee := 3;
    var iterations := 0;
    var found := Response(0, 0, 0);
    while true
      invariant 0 <= iterations <= MAX_ITERATIONS
      invariant FeeLoop(p, amountOut, reserveIn, reserveOut, 3, MAX_ITERATIONS)
             == FeeLoop(p, amountOut, reserveIn, reserveOut, fee, MAX_ITERATIONS - iterations)
      decreases MAX_ITERATIONS - iterations
    {
      if iterations >= MAX_ITERATIONS {
        return Err(MaxIterations);
      }
      iterations := iterations + 1;
      var amount := GetAmountIn(amountOut, reserveIn, reserveOut, fee);
      if amount.Err? {
        return Err(amount.error);
      }
      var liq := TradeLiquidity(amount.value, reserveIn, reserveOut);
      if liq == 0 {
        return Err(ZeroTradeLiquidity);
      }
      var newFee := TradingFee(p, liq);
      if fee == newFee {
        found := Response(amount.value, liq, newFee);
        break;
      }
      fee := newFee;
    }
    if !KeepsK(found.amountIn, amountOut, reserveIn, reserveOut, fee) {
      return Err(InvalidK);
    }
    return Ok(Fixpoint(fee, found));
  }

  datatype Out = Out(amountOut: nat, fee: nat)

  function QuoteOut(p: Pool, amountIn: nat, reserveIn: nat, reserveOut: nat): Result<Out> {
    if Sign(amountIn) <= 0 then Err(InsufficientAmount)
    else if Sign(reserveIn) <= 0 || Sign(reserveOut) <= 0 then Err(InsufficientLiquidity)
    else
      var liq := TradeLiquidity(amountIn, reserveIn, reserveOut);
      if liq == 0 then Err(ZeroTradeLiquidity)
      else
        var fee := TradingFee(p, liq);
        var amountOut := GetAmountOut(amountIn, reserveIn, reserveOut, fee);
        if amountOut >= reserveOut then Err(InsufficientLiquidity) else Ok(Out(amountOut, fee))
  }

  // ----- the fee response is monotone

  lemma DivAntitone(n: nat, d1: nat, d2: nat)
    requires 0 < d2 <= d1
    ensures n / d1 <= n / d2
  {
    var q := n / d1;
    FloorAtLeast(n, d1, q);
    DivNat(n, d1);
    MulMono(d2, d1, q);
    FloorAtLeast(n, d2, q);
  }

  /** The products behind an amount's trade liquidity fit a word. */
  predicate SideFits(amount: nat, reserve0: nat, reserve1: nat) {
    var half := amount / 2;
    IsWord(half * reserve1) && IsWord(half * Div(half * reserve1, reserve0))
  }

  lemma SideIsExact(amount: nat, reserve0: nat, reserve1: nat)
    requires reserve0 > 0 && SideFits(amount, reserve0, reserve1)
    ensures SingleSideLiquidity(amount, reserve0, reserve1) ==
            ISqrt((amount / 2) * Div((amount / 2) * reserve1, reserve0))
  {
    hide Mul, IsWord, ISqrt, Div;
    var half := amount / 2;
    NonNegative(half, reserve1);
    ProductFits(half, reserve1, half * reserve1);
    var other := Div(half * reserve1, reserve0);
    NonNegative(half, other);
    ProductFits(half, other, half * other);
  }

  lemma SideMono(x: nat, y: nat, reserve0: nat, reserve1: nat)
    requires x <= y && reserve0 > 0 && SideFits(y, reserve0, reserve1)
    ensures SingleSideLiquidity(x, reserve0, reserve1) <= SingleSideLiquidity(y, reserve0, reserve1)
  {
    hide Mul, IsWord, ISqrt, Div, SingleSideLiquidity;
    var a, b := x / 2, y / 2;
    ProductMono(a, reserve1, b, reserve1);
    DivIs(a * reserve1, reserve0);
    DivIs(b * reserve1, reserve0);
    DivMono(a * reserve1, b * reserve1, reserve0);
    var a1, b1 := Div(a * reserve1, reserve0), Div(b * reserve1, reserve0);
    ProductMono(a, a1, b, b1);
    WordMono(a * reserve1, b * reserve1);
    WordMono(a * a1, b * b1);
    SideIsExact(x, reserve0, reserve1);
    SideIsExact(y, reserve0, reserve1);
    ISqrtMono(a * a1, b * b1);
  }

  lemma NothingMoves(reserve0: nat, reserve1: nat)
    ensures SingleSideLiquidity(0, reserve0, reserve1) == 0 && SingleSideLiquidity(1, reserve0, reserve1) == 0
  {
    hide Div;
    TimesIs(0, reserve1);
    TimesIs(0, Div(0, reserve0));
    assert ISqrt(0) == 0;
  }

  /** The moving average of a trade liquidity does not leave the word range. */
  predicate EmaFits(p: Pool, liq: nat) {
    IsWord((p.lastTradeLiquiditySum + liq) * 20 + p.tradeLiquidityEMA * 80)
  }

  lemma EmaIs(last: nat, emaLast: nat)
    requires IsWord(last * 20 + emaLast * 80)
    ensures CalcEMA(last, emaLast, 20) == if emaLast == 0 then last else last * 20 / 100 + emaLast * 80 / 100
  {
    hide Mul, Add, IsWord;
    WordMono(last * 20, last * 20 + emaLast * 80);
    WordMono(emaLast * 80, last * 20 + emaLast * 80);
    ProductFits(last, 20, last * 20);
    ProductFits(emaLast, 80, emaLast * 80);
    WordMono(last * 20 / 100 + emaLast * 80 / 100, last * 20 + emaLast * 80);
    SumFits(last * 20 / 100, emaLast * 80 / 100);
  }

  lemma EmaMono(p: Pool, l1: nat, l2: nat)
    requires l1 <= l2 && EmaFits(p, l2)
    ensures TradeEMA(p, l1) <= TradeEMA(p, l2)
  {
    hide CalcEMA, IsWord, BlockDiff;
    SumIsTotal(p, l1, l2);
    SumIsTotal(p, l2, l2);
    var ema := if BlockDiff(p) > 50 then 0 else p.tradeLiquidityEMA;
    var total := (p.lastTradeLiquiditySum + l2) * 20 + p.tradeLiquidityEMA * 80;
    WordMono(TradeSum(p, l1) * 20 + ema * 80, total);
    WordMono(TradeSum(p, l2) * 20 + ema * 80, total);
    EmaIs(TradeSum(p, l1), ema);
    EmaIs(TradeSum(p, l2), ema);
  }

  lemma SumIsTotal(p: Pool, l: nat, most: nat)
    requires l <= most && EmaFits(p, most)
    ensures TradeSum(p, l) == if BlockDiff(p) > 0 then l else p.lastTradeLiquiditySum + l
  {
    hide BlockDiff, IsWord, Add;
    WordMono(p.lastTradeLiquiditySum + l, (p.lastTradeLiquiditySum + most) * 20 + p.tradeLiquidityEMA * 80);
    SumFits(p.lastTradeLiquiditySum, l);
  }

  predicate TradeFits(p: Pool, amountIn: nat, reserveIn: nat, reserveOut: nat) {
    SideFits(amountIn, reserveIn, reserveOut) && EmaFits(p, TradeLiquidity(amountIn, reserveIn, reserveOut))
  }

  /** A larger input never entails a smaller fee. */
  lemma FeeMono(p: Pool, x: nat, y: nat, reserveIn: nat, reserveOut: nat)
    requires x <= y && reserveIn > 0 && TradeFits(p, y, reserveIn, reserveOut)
    ensures TradingFee(p, TradeLiquidity(x, reserveIn, reserveOut)) <=
            TradingFee(p, TradeLiquidity(y, reserveIn, reserveOut))
  {
    hide SingleSideLiquidity, SideFits, EmaFits, TradeEMA, Threshold;
    SideMono(x, y, reserveIn, reserveOut);
    EmaMono(p, TradeLiquidity(x, reserveIn, reserveOut), TradeLiquidity(y, reserveIn, reserveOut));
  }

  /** A larger assumed fee never needs a smaller input. */
  lemma AmountInMono(amountOut: nat, reserveIn: nat, reserveOut: nat, f1: nat, f2: nat)
    requires amountOut < reserveOut && f1 <= f2 < FEE_PRECISION
    requires GetAmountIn(amountOut, reserveIn, reserveOut, f1).Ok? &&
             GetAmountIn(amountOut, reserveIn, reserveOut, f2).Ok?
    ensures GetAmountIn(amountOut, reserveIn, reserveOut, f1).value <=
            GetAmountIn(amountOut, reserveIn, reserveOut, f2).value
  {
    hide Div, IsWord;
    var num := reserveIn * amountOut * FEE_PRECISION;
    NonNegative(reserveIn, amountOut);
    var d1, d2 := (reserveOut - amountOut) * (FEE_PRECISION - f1), (reserveOut - amountOut) * (FEE_PRECISION - f2);
    MulMono(FEE_PRECISION - f2, FEE_PRECISION - f1, reserveOut - amountOut);
    MulAtLeast(FEE_PRECISION - f2, reserveOut - amountOut);
    DivAntitone(num, d1, d2);
    DivIs(num, d1);
    DivIs(num, d2);
  }

  lemma ResponseMono(p: Pool, amountOut: nat, reserveIn: nat, reserveOut: nat, f1: nat, f2: nat)
    requires amountOut < reserveOut && reserveIn > 0 && f1 <= f2 < FEE_PRECISION
    requires Respond(p, amountOut, reserveIn, reserveOut, f1).Ok? &&
             Respond(p, amountOut, reserveIn, reserveOut, f2).Ok?
    requires TradeFits(p, Respond(p, amountOut, reserveIn, reserveOut, f2).value.amountIn, reserveIn, reserveOut)
    ensures Respond(p, amountOut, reserveIn, reserveOut, f1).value.newFee <=
            Respond(p, amountOut, reserveIn, reserveOut, f2).value.newFee
  {
    hide GetAmountIn, TradeLiquidity, TradingFee, TradeFits;
    AmountInMono(amountOut, reserveIn, reserveOut, f1, f2);
    FeeMono(p, GetAmountIn(amountOut, reserveIn, reserveOut, f1).value,
      GetAmountIn(amountOut, reserveIn, reserveOut, f2).value,
            reserveIn, reserveOut);
  }

  /** A fee of 100% or more has no response. */
  lemma FullFeeFails(p: Pool, amountOut: nat, reserveIn: nat, reserveOut: nat, fee: nat)
    requires fee >= FEE_PRECISION
    ensures Respond(p, amountOut, reserveIn, reserveOut, fee).Err?
  {
    hide SingleSideLiquidity, TradingFee, IsWord;
    NothingMoves(reserveIn, reserveOut);
    NothingMoves(reserveOut, reserveIn);
    if fee == FEE_PRECISION && amountOut <= reserveOut {
      assert (reserveOut - amountOut) * (FEE_PRECISION - fee) == 0;
    }
  }

  /** The input that an assumed fee calls for, if there is one, overflows nothing. */
  ghost predicate FeeFits(p: Pool, amountOut: nat, reserveIn: nat, reserveOut: nat, fee: nat) {
    var r := Respond(p, amountOut, reserveIn, reserveOut, fee);
    r.Ok? ==> TradeFits(p, r.value.amountIn, reserveIn, reserveOut)
  }

  lemma NewFeeKinds(p: Pool, amountOut: nat, reserveIn: nat, reserveOut: nat, fee: nat)
    requires Respond(p, amountOut, reserveIn, reserveOut, fee).Ok?
    ensures var f := Respond(p, amountOut, reserveIn, reserveOut, fee).value.newFee; f == 0 || f == p.dsFee
  {
    hide GetAmountIn, TradeLiquidity, TradeEMA, Threshold;
  }

  lemma ErrorsOfResponse(p: Pool, amountOut: nat, reserveIn: nat, reserveOut: nat, fee: nat)
    ensures Respond(p, amountOut, reserveIn, reserveOut, fee) != Err(MaxIterations)
  {
    hide TradeLiquidity, TradingFee, IsWord, Div;
  }

  /** A fee whose response is that fee, or that has no response, ends the loop. */
  ghost predicate Settled(p: Pool, amountOut: nat, reserveIn: nat, reserveOut: nat, fee: nat) {
    var r := Respond(p, amountOut, reserveIn, reserveOut, fee);
    r.Ok? ==> r.value.newFee == fee
  }

  lemma SettledEnds(p: Pool, amountOut: nat, reserveIn: nat, reserveOut: nat, fee: nat, fuel: nat)
    requires fuel > 0 && Settled(p, amountOut, reserveIn, reserveOut, fee)
    ensures FeeLoop(p, amountOut, reserveIn, reserveOut, fee, fuel) != Err(MaxIterations)
  {
    hide Respond;
    ErrorsOfResponse(p, amountOut, reserveIn, reserveOut, fee);
  }

  lemma LoopStep(p: Pool, amountOut: nat, reserveIn: nat, reserveOut: nat, fee: nat, fuel: nat)
    requires fuel > 0 && !Settled(p, amountOut, reserveIn, reserveOut, fee)
    ensures FeeLoop(p, amountOut, reserveIn, reserveOut, fee, fuel)
         == FeeLoop(p, amountOut, reserveIn, reserveOut,
           Respond(p, amountOut, reserveIn, reserveOut, fee).value.newFee, fuel - 1)
  {
    hide Respond;
  }

  /** If assuming a fee entails none, assuming none entails none either. */
  lemma NoFeeSettles(p: Pool, amountOut: nat, reserveIn: nat, reserveOut: nat, fee: nat)
    requires amountOut < reserveOut && reserveIn > 0 && FeeFits(p, amountOut, reserveIn, reserveOut, fee)
    requires Respond(p, amountOut, reserveIn, reserveOut, fee).Ok? &&
             Respond(p, amountOut, reserveIn, reserveOut, fee).value.newFee == 0
    ensures Settled(p, amountOut, reserveIn, reserveOut, 0)
  {
    hide Respond, TradeFits;
    if fee >= FEE_PRECISION {
      FullFeeFails(p, amountOut, reserveIn, reserveOut, fee);
    } else if Respond(p, amountOut, reserveIn, reserveOut, 0).Ok? {
      ResponseMono(p, amountOut, reserveIn, reserveOut, 0, fee);
    }
  }

  /** The loop finds its fee, or fails for another reason, within three iterations. */
  lemma FeeSettles(p: Pool, amountOut: nat, reserveIn: nat, reserveOut: nat)
    requires amountOut < reserveOut && reserveIn > 0
    requires FeeFits(p, amountOut, reserveIn, reserveOut, 3) && FeeFits(p, amountOut, reserveIn, reserveOut, p.dsFee)
    ensures FeeLoop(p, amountOut, reserveIn, reserveOut, 3, 3) != Err(MaxIterations)
  {
    hide Respond, FeeFits, FeeLoop;
    if Settled(p, amountOut, reserveIn, reserveOut, 3) {
      SettledEnds(p, amountOut, reserveIn, reserveOut, 3, 3);
      return;
    }
    LoopStep(p, amountOut, reserveIn, reserveOut, 3, 3);
    NewFeeKinds(p, amountOut, reserveIn, reserveOut, 3);
    var second := Respond(p, amountOut, reserveIn, reserveOut, 3).value.newFee;
    if second == 0 {
      NoFeeSettles(p, amountOut, reserveIn, reserveOut, 3);
    }
    if Settled(p, amountOut, reserveIn, reserveOut, second) {
      SettledEnds(p, amountOut, reserveIn, reserveOut, second, 2);
      return;
    }
    LoopStep(p, amountOut, reserveIn, reserveOut, second, 2);
    NewFeeKinds(p, amountOut, reserveIn, reserveOut, second);
    NoFeeSettles(p, amountOut, reserveIn, reserveOut, second);
    SettledEnds(p, amountOut, reserveIn, reserveOut, 0, 1);
  }

  lemma {:induction false} MoreFuel(p: Pool, amountOut: nat, reserveIn: nat, reserveOut: nat, fee: nat, fuel: nat,
      more: nat)
    requires fuel <= more && FeeLoop(p, amountOut, reserveIn, reserveOut, fee, fuel) != Err(MaxIterations)
    ensures FeeLoop(p, amountOut, reserveIn, reserveOut, fee, more) ==
            FeeLoop(p, amountOut, reserveIn, reserveOut, fee, fuel)
    decreases fuel
  {
    hide Respond;
    if fuel > 0 && !Settled(p, amountOut, reserveIn, reserveOut, fee) {
      var next := Respond(p, amountOut, reserveIn, reserveOut, fee).value.newFee;
      LoopStep(p, amountOut, reserveIn, reserveOut, fee, fuel);
      LoopStep(p, amountOut, reserveIn, reserveOut, fee, more);
      MoreFuel(p, amountOut, reserveIn, reserveOut, next, fuel - 1, more - 1);
    }
  }

  // ----- the answer keeps the invariant and, quoted forward, pays what was asked

  /** The floored quotient plus one is strictly above the exact quotient. */
  lemma RoundedUp(num: nat, den: nat, x: nat)
    requires den > 0 && x == num / den + 1
    ensures x * den > num
  {
    FloorAtLeast(num, den, x);
  }

  /** With `w` the input after its fee, covering the requested output is keeping the product. */
  lemma ProductKept(reserveIn: nat, reserveOut: nat, amountOut: nat, w: nat, k: nat)
    requires amountOut <= reserveOut
    requires w * (reserveOut - amountOut) >= reserveIn * amountOut * k
    ensures (reserveIn * k + w) * (reserveOut - amountOut) >= reserveIn * reserveOut * k
    ensures (reserveIn * k + w) * amountOut <= w * reserveOut
  {
    var left := reserveOut - amountOut;
    Distribute(reserveIn * k, w, left);
    Distribute(reserveIn * k, w, amountOut);
    assert reserveIn * k * left == reserveIn * reserveOut * k - reserveIn * amountOut * k by {
      Regroup(reserveIn, k, left);
      Regroup(reserveIn, k, amountOut);
      Regroup(reserveIn, k, reserveOut);
      DistributeMinus(reserveIn * k, reserveOut, amountOut);
    }
    assert reserveIn * k * amountOut == reserveIn * amountOut * k by { Regroup(reserveIn, k, amountOut); }
    DistributeMinus(w, reserveOut, amountOut);
  }

  lemma Distribute(a: int, b: int, c: int)
    ensures (a + b) * c == a * c + b * c
  {
  }

  lemma DistributeMinus(a: int, b: int, c: int)
    ensures a * (b - c) == a * b - a * c
  {
  }

  lemma Regroup(a: int, k: int, c: int)
    ensures a * k * c == a * c * k
  {
  }

  /** The input after its fee, in thousandths. */
  function AfterFee(amountIn: nat, fee: nat): nat
    requires fee <= FEE_PRECISION
  {
    NonNegative(amountIn, FEE_PRECISION - fee);
    amountIn * (FEE_PRECISION - fee)
  }

  /** An accepted input covers the requested output, before any forward rounding. */
  lemma InputCovers(amountOut: nat, reserveIn: nat, reserveOut: nat, fee: nat)
    requires amountOut < reserveOut && fee < FEE_PRECISION && GetAmountIn(amountOut, reserveIn, reserveOut, fee).Ok?
    ensures AfterFee(GetAmountIn(amountOut, reserveIn, reserveOut, fee).value, fee) * (reserveOut - amountOut)
         >= reserveIn * amountOut * FEE_PRECISION
  {
    hide IsWord, Div;
    var x := GetAmountIn(amountOut, reserveIn, reserveOut, fee).value;
    var left, rate := reserveOut - amountOut, FEE_PRECISION - fee;
    NonNegative(reserveIn, amountOut);
    MulAtLeast(rate, left);
    DivIs(reserveIn * amountOut * FEE_PRECISION, left * rate);
    RoundedUp(reserveIn * amountOut * FEE_PRECISION, left * rate, x);
    Reassociate(x, left, rate);
  }

  lemma Reassociate(x: int, left: int, rate: int)
    ensures x * (left * rate) == x * rate * left
  {
  }

  /** The largest product that checking or quoting with an input forms fits a word. */
  predicate ProductsFit(amountIn: nat, reserveIn: nat, reserveOut: nat) {
    IsWord((reserveIn + amountIn) * FEE_PRECISION * (reserveOut * FEE_PRECISION))
  }

  /** What the word operations of the check and of the forward quote then compute. */
  lemma AdjustedIs(amountIn: nat, reserveIn: nat, fee: nat)
    requires fee <= FEE_PRECISION && IsWord((reserveIn + amountIn) * FEE_PRECISION)
    ensures Mul(amountIn, Sub(FEE_PRECISION, fee)) == AfterFee(amountIn, fee)
    ensures Add(Mul(reserveIn, FEE_PRECISION), AfterFee(amountIn, fee)) ==
            reserveIn * FEE_PRECISION + AfterFee(amountIn, fee)
    ensures Sub(Mul(Add(reserveIn, amountIn), FEE_PRECISION), Mul(amountIn, fee))
         == reserveIn * FEE_PRECISION + AfterFee(amountIn, fee)
    ensures reserveIn * FEE_PRECISION + AfterFee(amountIn, fee) <= (reserveIn + amountIn) * FEE_PRECISION
  {
    hide Mul, Add, Sub, IsWord;
    var all := (reserveIn + amountIn) * FEE_PRECISION;
    var w := AfterFee(amountIn, fee);
    MulMono(FEE_PRECISION - fee, FEE_PRECISION, amountIn);
    MulMono(fee, FEE_PRECISION, amountIn);
    NonNegative(amountIn, fee);
    DistributeMinus(amountIn, FEE_PRECISION, fee);
    WordOfThousand();
    DifferenceFits(FEE_PRECISION, fee);
    WordMono(w, all);
    ProductFits(amountIn, FEE_PRECISION - fee, w);
    WordMono(reserveIn * FEE_PRECISION, all);
    ProductFits(reserveIn, FEE_PRECISION, reserveIn * FEE_PRECISION);
    WordMono(reserveIn * FEE_PRECISION + w, all);
    SumFits(reserveIn * FEE_PRECISION, w);
    WordMono(reserveIn + amountIn, all);
    SumFits(reserveIn, amountIn);
    ProductFits(reserveIn + amountIn, FEE_PRECISION, all);
    WordMono(amountIn * fee, all);
    ProductFits(amountIn, fee, amountIn * fee);
    DifferenceFits(all, amountIn * fee);
  }

  lemma WordOfThousand()
    ensures IsWord(FEE_PRECISION)
  {
  }

  lemma FactorsFit(all: nat, r: nat, k: nat)
    requires k > 0 && r > 0 && IsWord(all * (r * k))
    ensures IsWord(all) && all * r <= all * (r * k)
  {
    hide IsWord;
    MulAtLeast(k, r);
    MulAtLeast(r * k, all);
    MulMono(r, r * k, all);
    WordMono(all, all * (r * k));
  }

  /** The invariant check accepts every input that covers the output. */
  lemma CheckPasses(x: nat, amountOut: nat, reserveIn: nat, reserveOut: nat, fee: nat)
    requires 0 < x && amountOut < reserveOut && fee < FEE_PRECISION && ProductsFit(x, reserveIn, reserveOut)
    requires AfterFee(x, fee) * (reserveOut - amountOut) >= reserveIn * amountOut * FEE_PRECISION
    ensures KeepsK(x, amountOut, reserveIn, reserveOut, fee)
  {
    hide Mul, Add, Sub, IsWord, AfterFee;
    var all := (reserveIn + x) * FEE_PRECISION;
    FactorsFit(all, reserveOut, FEE_PRECISION);
    AdjustedIs(x, reserveIn, fee);
    var w := AfterFee(x, fee);
    ProductKept(reserveIn, reserveOut, amountOut, w, FEE_PRECISION);
    SidesFit(reserveIn * FEE_PRECISION + w, all, reserveOut - amountOut, reserveOut, amountOut);
    BeforeFits(reserveIn, x, reserveOut);
    TimesThousand(reserveIn * FEE_PRECISION + w, reserveOut - amountOut);
  }

  lemma TimesThousand(a: int, b: int)
    ensures a * (b * FEE_PRECISION) == a * b * FEE_PRECISION
  {
  }

  lemma SidesFit(balance: nat, all: nat, left: nat, reserveOut: nat, amountOut: nat)
    requires balance <= all && amountOut <= reserveOut && left == reserveOut - amountOut && 0 < all
    requires IsWord(all * (reserveOut * FEE_PRECISION))
    ensures Mul(Sub(reserveOut, amountOut), FEE_PRECISION) == left * FEE_PRECISION
    ensures Mul(balance, left * FEE_PRECISION) == balance * (left * FEE_PRECISION)
  {
    hide Mul, Sub, IsWord;
    var top := all * (reserveOut * FEE_PRECISION);
    MulAtLeast(all, reserveOut * FEE_PRECISION);
    WordMono(reserveOut, top);
    DifferenceFits(reserveOut, amountOut);
    WordMono(left * FEE_PRECISION, top);
    ProductFits(left, FEE_PRECISION, left * FEE_PRECISION);
    ProductMono(balance, left * FEE_PRECISION, all, reserveOut * FEE_PRECISION);
    WordMono(balance * (left * FEE_PRECISION), top);
    ProductFits(balance, left * FEE_PRECISION, balance * (left * FEE_PRECISION));
  }

  lemma BeforeFits(reserveIn: nat, amountIn: nat, reserveOut: nat)
    requires ProductsFit(amountIn, reserveIn, reserveOut)
    ensures Mul(Mul(Mul(reserveIn, reserveOut), FEE_PRECISION), FEE_PRECISION) ==
            reserveIn * reserveOut * FEE_PRECISION * FEE_PRECISION
  {
    hide Mul, IsWord;
    var all := (reserveIn + amountIn) * FEE_PRECISION;
    var base := reserveIn * reserveOut;
    NonNegative(reserveIn, reserveOut);
    ProductMono(reserveIn * FEE_PRECISION, reserveOut * FEE_PRECISION, all, reserveOut * FEE_PRECISION);
    var top := all * (reserveOut * FEE_PRECISION);
    assert reserveIn * FEE_PRECISION * (reserveOut * FEE_PRECISION) == base * FEE_PRECISION * FEE_PRECISION by {
      TimesThousand(reserveIn * FEE_PRECISION, reserveOut);
      Regroup(reserveIn, FEE_PRECISION, reserveOut);
    }
    WordMono(base * FEE_PRECISION * FEE_PRECISION, top);
    WordMono(base * FEE_PRECISION, top);
    WordMono(base, top);
    ProductFits(reserveIn, reserveOut, base);
    ProductFits(base, FEE_PRECISION, base * FEE_PRECISION);
    ProductFits(base * FEE_PRECISION, FEE_PRECISION, base * FEE_PRECISION * FEE_PRECISION);
  }

  /** Quoting an input forward pays at least any output the input covers, and less than the reserve. */
  lemma PaysCovered(amountIn: nat, reserveIn: nat, reserveOut: nat, amountOut: nat, fee: nat)
    requires 0 < reserveIn && amountOut < reserveOut && fee < FEE_PRECISION &&
             ProductsFit(amountIn, reserveIn, reserveOut)
    requires AfterFee(amountIn, fee) * (reserveOut - amountOut) >= reserveIn * amountOut * FEE_PRECISION
    ensures amountOut <= GetAmountOut(amountIn, reserveIn, reserveOut, fee) < reserveOut
  {
    hide Mul, Add, Sub, IsWord, AfterFee, Div;
    var all := (reserveIn + amountIn) * FEE_PRECISION;
    FactorsFit(all, reserveOut, FEE_PRECISION);
    AdjustedIs(amountIn, reserveIn, fee);
    var w := AfterFee(amountIn, fee);
    var den := reserveIn * FEE_PRECISION + w;
    ProductMono(w, reserveOut, all, reserveOut);
    WordMono(w * reserveOut, all * (reserveOut * FEE_PRECISION));
    ProductFits(w, reserveOut, w * reserveOut);
    ProductKept(reserveIn, reserveOut, amountOut, w, FEE_PRECISION);
    DivIs(w * reserveOut, den);
    FloorAtLeast(w * reserveOut, den, amountOut);
    FloorAtLeast(w * reserveOut, den, reserveOut);
    MulMono(w + 1, den, reserveOut);
    Distribute(w, 1, reserveOut);
  }

  /** A fee the loop ends with is its own response, and below 100%. */
  lemma {:induction false} LoopIsFixpoint(p: Pool, amountOut: nat, reserveIn: nat, reserveOut: nat, fee: nat, fuel: nat)
    requires FeeLoop(p, amountOut, reserveIn, reserveOut, fee, fuel).Ok?
    ensures var x := FeeLoop(p, amountOut, reserveIn, reserveOut, fee, fuel).value;
            Respond(p, amountOut, reserveIn, reserveOut, x.fee) == Ok(x.response) &&
              x.response.newFee == x.fee < FEE_PRECISION
    decreases fuel
  {
    hide Respond;
    if Settled(p, amountOut, reserveIn, reserveOut, fee) {
      if fee >= FEE_PRECISION {
        FullFeeFails(p, amountOut, reserveIn, reserveOut, fee);
      }
    } else {
      LoopStep(p, amountOut, reserveIn, reserveOut, fee, fuel);
      LoopIsFixpoint(p, amountOut, reserveIn, reserveOut,
        Respond(p, amountOut, reserveIn, reserveOut, fee).value.newFee, fuel - 1);
    }
  }

  /** Neither the iteration limit nor the invariant check ever rejects an exact-output quote whose
  arithmetic fits; the quote is the one that three iterations already find. */
  lemma ExactOutputNeverGivesUp(p: Pool, amountOut: nat, reserveIn: nat, reserveOut: nat)
    requires 0 < Sign(amountOut) && 0 < Sign(reserveIn) && 0 < Sign(reserveOut) && amountOut < reserveOut
    requires FeeFits(p, amountOut, reserveIn, reserveOut, 3) && FeeFits(p, amountOut, reserveIn, reserveOut, p.dsFee)
    ensures var found := FeeLoop(p, amountOut, reserveIn, reserveOut, 3, 3);
            found != Err(MaxIterations) && QuoteIn(p, amountOut, reserveIn, reserveOut) != Err(MaxIterations) &&
            (found.Err? ==> QuoteIn(p, amountOut, reserveIn, reserveOut) == found) &&
            (found.Ok? && ProductsFit(found.value.response.amountIn, reserveIn, reserveOut) ==>
              QuoteIn(p, amountOut, reserveIn, reserveOut) == found)
  {
    hide Respond, FeeFits, FeeLoop, KeepsK, ProductsFit, AfterFee, GetAmountIn, TradeLiquidity, TradingFee;
    FeeSettles(p, amountOut, reserveIn, reserveOut);
    MoreFuel(p, amountOut, reserveIn, reserveOut, 3, 3, MAX_ITERATIONS);
    var found := FeeLoop(p, amountOut, reserveIn, reserveOut, 3, 3);
    if found.Ok? && ProductsFit(found.value.response.amountIn, reserveIn, reserveOut) {
      LoopIsFixpoint(p, amountOut, reserveIn, reserveOut, 3, 3);
      ResponseParts(p, amountOut, reserveIn, reserveOut, found.value.fee);
      InputPositive(amountOut, reserveIn, reserveOut, found.value.fee);
      InputCovers(amountOut, reserveIn, reserveOut, found.value.fee);
      CheckPasses(found.value.response.amountIn, amountOut, reserveIn, reserveOut, found.value.fee);
    }
  }

  lemma ResponseParts(p: Pool, amountOut: nat, reserveIn: nat, reserveOut: nat, fee: nat)
    requires Respond(p, amountOut, reserveIn, reserveOut, fee).Ok?
    ensures var r := Respond(p, amountOut, reserveIn, reserveOut, fee).value;
            GetAmountIn(amountOut, reserveIn, reserveOut, fee) == Ok(r.amountIn) &&
            r.tradeLiquidity == TradeLiquidity(r.amountIn, reserveIn, reserveOut) > 0 &&
            r.newFee == TradingFee(p, r.tradeLiquidity)
  {
    hide GetAmountIn, TradeLiquidity, TradingFee;
  }

  /** Whatever an exact-output quote answers, selling that input is charged the same fee and pays at
  least the output asked for. */
  lemma ForwardPaysAtLeast(p: Pool, amountOut: nat, reserveIn: nat, reserveOut: nat)
    requires QuoteIn(p, amountOut, reserveIn, reserveOut).Ok?
    requires ProductsFit(QuoteIn(p, amountOut, reserveIn, reserveOut).value.response.amountIn, reserveIn, reserveOut)
    ensures var x := QuoteIn(p, amountOut, reserveIn, reserveOut).value;
            var forward := QuoteOut(p, x.response.amountIn, reserveIn, reserveOut);
            forward.Ok? && forward.value.fee == x.fee && forward.value.amountOut >= amountOut
  {
    hide Respond, FeeLoop, KeepsK, ProductsFit, GetAmountIn, GetAmountOut, TradeLiquidity, TradingFee, AfterFee, Sign;
    SignPositive(amountOut, reserveIn, reserveOut);
    LoopIsFixpoint(p, amountOut, reserveIn, reserveOut, 3, MAX_ITERATIONS);
    var x := QuoteIn(p, amountOut, reserveIn, reserveOut).value;
    ResponseParts(p, amountOut, reserveIn, reserveOut, x.fee);
    InputCovers(amountOut, reserveIn, reserveOut, x.fee);
    PaysCovered(x.response.amountIn, reserveIn, reserveOut, amountOut, x.fee);
    InputPositive(amountOut, reserveIn, reserveOut, x.fee);
    InputSign(x.response.amountIn, reserveIn, reserveOut);
  }

  lemma SignPositive(x: nat, y: nat, z: nat)
    ensures Sign(x) > 0 ==> x > 0
    ensures Sign(y) > 0 ==> y > 0
    ensures Sign(z) > 0 ==> z > 0
  {
  }

  lemma InputPositive(amountOut: nat, reserveIn: nat, reserveOut: nat, fee: nat)
    requires GetAmountIn(amountOut, reserveIn, reserveOut, fee).Ok?
    ensures GetAmountIn(amountOut, reserveIn, reserveOut, fee).value > 0
  {
    hide IsWord;
  }

  lemma InputSign(amountIn: nat, reserveIn: nat, reserveOut: nat)
    requires amountIn > 0 && reserveOut > 0 && ProductsFit(amountIn, reserveIn, reserveOut)
    ensures Sign(amountIn) > 0
  {
    hide IsWord, Sign;
    FactorsFit((reserveIn + amountIn) * FEE_PRECISION, reserveOut, FEE_PRECISION);
    SmallSign(amountIn, reserveIn);
  }

  lemma SmallSign(amountIn: nat, reserveIn: nat)
    requires amountIn > 0 && IsWord((reserveIn + amountIn) * FEE_PRECISION)
    ensures Sign(amountIn) > 0
  {
  }
}
