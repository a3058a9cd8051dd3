/** Which fee a DeltaSwap quote is charged, and what it pays for it, in plain arithmetic. */
module DeltaSwapFee {
  import opened Arith
  import opened Words
  import opened Outcomes
  import opened DeltaSwap

  /** The trade's liquidity: the root of half the input times its worth on the other side, rounded down. */
  predicate IsTradeLiquidity(liq: nat, amountIn: nat, reserveIn: nat, reserveOut: nat)
    requires reserveIn > 0
  {
    var half := amountIn / 2;
    liq * liq <= half * (half * reserveOut / reserveIn) < (liq + 1) * (liq + 1)
  }

  lemma RootIsUnique(a: nat, b: nat, n: nat)
    requires a * a <= n < (a + 1) * (a + 1) && b * b <= n < (b + 1) * (b + 1)
    ensures a == b
  {
    if a < b {
      SquareMono(a + 1, b);
    } else if b < a {
      SquareMono(b + 1, a);
    }
  }

  lemma TradeLiquidityIs(liq: nat, amountIn: nat, reserveIn: nat, reserveOut: nat)
    requires reserveIn > 0 && SideFits(amountIn, reserveIn, reserveOut)
    ensures IsTradeLiquidity(liq, amountIn, reserveIn, reserveOut) <==>
            liq == TradeLiquidity(amountIn, reserveIn, reserveOut)
  {
    hide IsWord, ISqrt, Div, SingleSideLiquidity, SideFits;
    var half := amountIn / 2;
    NonNegative(half, reserveOut);
    DivIs(half * reserveOut, reserveIn);
    SideIsExact(amountIn, reserveIn, reserveOut);
    NothingMoves(reserveOut, reserveIn);
    NonNegative(half, half * reserveOut / reserveIn);
    ISqrtIs(half * (half * reserveOut / reserveIn));
    var found := TradeLiquidity(amountIn, reserveIn, reserveOut);
    if IsTradeLiquidity(liq, amountIn, reserveIn, reserveOut) {
      RootIsUnique(liq, found, half * (half * reserveOut / reserveIn));
    }
  }

  /** The moving average that a trade brings about: within the block of the last trade the two are added up; a fifth of
      the new weighs against four fifths of the old, unless there is no old one or it is more than 50 blocks old. */
  function Average(p: Pool, liq: nat): nat {
    var blocks := (p.blockNumber - p.lastTradeBlockNumber) % TWO_POW_64;
    if blocks > 50 || p.tradeLiquidityEMA == 0 then if blocks == 0 then p.lastTradeLiquiditySum + liq else liq
    else if blocks == 0 then (p.lastTradeLiquiditySum + liq) * 20 / 100 + p.tradeLiquidityEMA * 80 / 100
    else liq * 20 / 100 + p.tradeLiquidityEMA * 80 / 100
  }

  /** The trade, or the average it brings about, exceeds the pool's share of its liquidity. */
  predicate Charged(p: Pool, liq: nat) {
    var share := p.liquidityEMA * p.dsFeeThreshold / 1000;
    liq > share || Average(p, liq) > share
  }

  lemma AverageIs(p: Pool, liq: nat)
    requires EmaFits(p, liq)
    ensures TradeEMA(p, liq) == Average(p, liq)
  {
    hide CalcEMA, IsWord;
    SumIsTotal(p, liq, liq);
    var ema := if BlockDiff(p) > 50 then 0 else p.tradeLiquidityEMA;
    WordMono(TradeSum(p, liq) * 20 + ema * 80, (p.lastTradeLiquiditySum + liq) * 20 + p.tradeLiquidityEMA * 80);
    EmaIs(TradeSum(p, liq), ema);
  }

  /** The fee is charged exactly when the trade or the average exceeds the share. */
  lemma FeeIs(p: Pool, liq: nat)
    requires EmaFits(p, liq) && IsWord(Times(p.liquidityEMA, p.dsFeeThreshold))
    ensures TradingFee(p, liq) == if Charged(p, liq) then p.dsFee else 0
  {
    hide IsWord, TradeEMA, Average, Times, Mul, EmaFits;
    AverageIs(p, liq);
    TimesIs(p.liquidityEMA, p.dsFeeThreshold);
    ProductFits(p.liquidityEMA, p.dsFeeThreshold, p.liquidityEMA * p.dsFeeThreshold);
  }

  /** What an input buys on the constant product after its fee in thousandths, rounded down. */
  function Bought(amountIn: nat, reserveIn: nat, reserveOut: nat, fee: nat): nat
    requires fee <= FEE_PRECISION && reserveIn > 0
  {
    var w := amountIn * (FEE_PRECISION - fee);
    NonNegative(amountIn, FEE_PRECISION - fee);
    NonNegative(w, reserveOut);
    DivNat(w * reserveOut, reserveIn * FEE_PRECISION + w);
    w * reserveOut / (reserveIn * FEE_PRECISION + w)
  }

  lemma AmountOutIs(amountIn: nat, reserveIn: nat, reserveOut: nat, fee: nat)
    requires fee <= FEE_PRECISION && reserveIn > 0 && reserveOut > 0 && ProductsFit(amountIn, reserveIn, reserveOut)
    ensures GetAmountOut(amountIn, reserveIn, reserveOut, fee) == Bought(amountIn, reserveIn, reserveOut, fee)
  {
    hide Mul, Add, Sub, IsWord, AfterFee, Div;
    var all := (reserveIn + amountIn) * FEE_PRECISION;
    FactorsFit(all, reserveOut, FEE_PRECISION);
    AdjustedIs(amountIn, reserveIn, fee);
    NonNegative(amountIn, FEE_PRECISION - fee);
    var w := AfterFee(amountIn, fee);
    AfterFeeIs(amountIn, fee);
    ProductMono(w, reserveOut, all, reserveOut);
    WordMono(w * reserveOut, all * (reserveOut * FEE_PRECISION));
    ProductFits(w, reserveOut, w * reserveOut);
    DivIs(w * reserveOut, reserveIn * FEE_PRECISION + w);
  }

  lemma AfterFeeIs(amountIn: nat, fee: nat)
    requires fee <= FEE_PRECISION
    ensures AfterFee(amountIn, fee) == amountIn * (FEE_PRECISION - fee)
  {
  }

  /** A forward quote: its fee is charged exactly when the trade or the average exceeds the share, and it pays the exact
      floor for it; it is refused exactly for an amount or a reserve without a positive sign, a trade without
      liquidity, or an output that reaches the reserve. */
  lemma ForwardQuoteIs(p: Pool, amountIn: nat, reserveIn: nat, reserveOut: nat, liq: nat)
    requires reserveIn > 0 && reserveOut > 0 && p.dsFee <= FEE_PRECISION
    requires SideFits(amountIn, reserveIn, reserveOut) && IsTradeLiquidity(liq, amountIn, reserveIn, reserveOut)
    requires EmaFits(p, liq) && IsWord(Times(p.liquidityEMA, p.dsFeeThreshold))
    requires ProductsFit(amountIn, reserveIn, reserveOut)
    ensures var fee := if Charged(p, liq) then p.dsFee else 0;
            var out := Bought(amountIn, reserveIn, reserveOut, fee);
            QuoteOut(p, amountIn, reserveIn, reserveOut) ==
            if amountIn == 0 then Err(InsufficientAmount)
            else if liq == 0 then Err(ZeroTradeLiquidity)
            else if out >= reserveOut then Err(InsufficientLiquidity)
            else Ok(Out(out, fee))
  {
    hide IsWord, SideFits, EmaFits, ProductsFit, TradeLiquidity, TradingFee, GetAmountOut, Charged, IsTradeLiquidity,
      Times, Bought, Sign;
    SignsOf(amountIn, reserveIn, reserveOut);
    TradeLiquidityIs(liq, amountIn, reserveIn, reserveOut);
    FeeIs(p, liq);
    AmountOutIs(amountIn, reserveIn, reserveOut, p.dsFee);
    AmountOutIs(amountIn, reserveIn, reserveOut, 0);
  }

  /** Amounts whose products fit a word are clear of the sign bit. */
  lemma SignsOf(amountIn: nat, reserveIn: nat, reserveOut: nat)
    requires reserveIn > 0 && reserveOut > 0 && ProductsFit(amountIn, reserveIn, reserveOut)
    ensures (Sign(amountIn) > 0 <==> amountIn > 0) && Sign(reserveIn) > 0 && Sign(reserveOut) > 0
  {
    hide IsWord, Sign;
    var all := (reserveIn + amountIn) * FEE_PRECISION;
    FactorsFit(all, reserveOut, FEE_PRECISION);
    MulAtLeast(all, reserveOut * FEE_PRECISION);
    WordMono(reserveOut * FEE_PRECISION, all * (reserveOut * FEE_PRECISION));
    SignOfPart(amountIn, all);
    SignOfPart(reserveIn, all);
    SignOfPart(reserveOut, reserveOut * FEE_PRECISION);
  }

  lemma SignOfPart(x: nat, all: nat)
    requires x * FEE_PRECISION <= all && IsWord(all)
    ensures Sign(x) > 0 <==> x > 0
  {
  }

  // ----- exact output

  /** The input that a fee calls for: one more than the floored quotient. */
  function Needed(amountOut: nat, reserveIn: nat, reserveOut: nat, fee: nat): nat
    requires amountOut < reserveOut && fee < FEE_PRECISION
  {
    var num, den := reserveIn * amountOut * FEE_PRECISION, (reserveOut - amountOut) * (FEE_PRECISION - fee);
    NonNegative(reserveIn, amountOut);
    MulAtLeast(FEE_PRECISION - fee, reserveOut - amountOut);
    DivNat(num, den);
    num / den + 1
  }

  lemma NeededIs(amountOut: nat, reserveIn: nat, reserveOut: nat, fee: nat)
    requires amountOut < reserveOut && fee < FEE_PRECISION && GetAmountIn(amountOut, reserveIn, reserveOut, fee).Ok?
    ensures GetAmountIn(amountOut, reserveIn, reserveOut, fee).value == Needed(amountOut, reserveIn, reserveOut, fee)
  {
    hide IsWord, Div;
    NonNegative(reserveIn, amountOut);
    MulAtLeast(FEE_PRECISION - fee, reserveOut - amountOut);
    DivIs(reserveIn * amountOut * FEE_PRECISION, (reserveOut - amountOut) * (FEE_PRECISION - fee));
  }

  /** The input that assuming a fee calls for is itself charged. */
  ghost predicate ChargedAt(p: Pool, amountOut: nat, reserveIn: nat, reserveOut: nat, fee: nat)
    requires reserveIn > 0 && amountOut < reserveOut && fee < FEE_PRECISION
  {
    forall liq: nat | IsTradeLiquidity(liq, Needed(amountOut, reserveIn, reserveOut, fee), reserveIn, reserveOut) ::
      Charged(p, liq)
  }

  /** The response to an assumed fee, in plain arithmetic. */
  lemma ResponseIs(p: Pool, amountOut: nat, reserveIn: nat, reserveOut: nat, fee: nat)
    requires reserveIn > 0 && amountOut < reserveOut && fee < FEE_PRECISION
    requires Respond(p, amountOut, reserveIn, reserveOut, fee).Ok? && FeeFits(p, amountOut, reserveIn, reserveOut, fee)
    requires IsWord(Times(p.liquidityEMA, p.dsFeeThreshold))
    ensures var r := Respond(p, amountOut, reserveIn, reserveOut, fee).value;
            && r.amountIn == Needed(amountOut, reserveIn, reserveOut, fee)
            && IsTradeLiquidity(r.tradeLiquidity, r.amountIn, reserveIn, reserveOut)
            && r.newFee == if ChargedAt(p, amountOut, reserveIn, reserveOut, fee) then p.dsFee else 0
  {
    hide GetAmountIn, TradeLiquidity, TradingFee, SideFits, EmaFits, IsWord, Times, IsTradeLiquidity, Charged, Needed;
    ResponseParts(p, amountOut, reserveIn, reserveOut, fee);
    NeededIs(amountOut, reserveIn, reserveOut, fee);
    var r := Respond(p, amountOut, reserveIn, reserveOut, fee).value;
    forall liq: nat
      ensures IsTradeLiquidity(liq, r.amountIn, reserveIn, reserveOut) <==> liq == r.tradeLiquidity
    {
      TradeLiquidityIs(liq, r.amountIn, reserveIn, reserveOut);
    }
    FeeIs(p, r.tradeLiquidity);
  }

  /** The fee an exact-output quote ends with is charged exactly when it is both at the first guess of 3 and at itself;
      the answer is the input that this fee calls for. */
  lemma ExactOutputFeeIs(p: Pool, amountOut: nat, reserveIn: nat, reserveOut: nat)
    requires QuoteIn(p, amountOut, reserveIn, reserveOut).Ok? && p.dsFee < FEE_PRECISION
    requires FeeFits(p, amountOut, reserveIn, reserveOut, 3) && FeeFits(p, amountOut, reserveIn, reserveOut, p.dsFee)
    requires FeeFits(p, amountOut, reserveIn, reserveOut, 0) && IsWord(Times(p.liquidityEMA, p.dsFeeThreshold))
    ensures reserveIn > 0 && amountOut < reserveOut
    ensures var x := QuoteIn(p, amountOut, reserveIn, reserveOut).value;
            && x.fee == (if ChargedAt(p, amountOut, reserveIn, reserveOut, 3) &&
                            ChargedAt(p, amountOut, reserveIn, reserveOut, p.dsFee) then p.dsFee else 0)
            && x.response.newFee == x.fee
            && x.response.amountIn == Needed(amountOut, reserveIn, reserveOut, x.fee)
            && IsTradeLiquidity(x.response.tradeLiquidity, x.response.amountIn, reserveIn, reserveOut)
  {
    hide Respond, FeeLoop, KeepsK, Needed, ChargedAt, IsTradeLiquidity, FeeFits, Sign, IsWord, Times;
    SignPositive(amountOut, reserveIn, reserveOut);
    LoopIsFixpoint(p, amountOut, reserveIn, reserveOut, 3, MAX_ITERATIONS);
    var x := QuoteIn(p, amountOut, reserveIn, reserveOut).value;
    LoopSteps(p, amountOut, reserveIn, reserveOut);
    NewFeeKinds(p, amountOut, reserveIn, reserveOut, x.fee);
    ResponseIs(p, amountOut, reserveIn, reserveOut, 3);
    ResponseIs(p, amountOut, reserveIn, reserveOut, x.fee);
    var first := Respond(p, amountOut, reserveIn, reserveOut, 3).value.newFee;
    if first != 3 && first != 0 {
      ResponseIs(p, amountOut, reserveIn, reserveOut, p.dsFee);
    } else if first == 0 {
      NoFeeSettles(p, amountOut, reserveIn, reserveOut, 3);
      EndsAtNone(p, amountOut, reserveIn, reserveOut);
    }
  }

  lemma EndsAtNone(p: Pool, amountOut: nat, reserveIn: nat, reserveOut: nat)
    requires FeeLoop(p, amountOut, reserveIn, reserveOut, 3, MAX_ITERATIONS).Ok?
    requires Respond(p, amountOut, reserveIn, reserveOut, 3).Ok?
    requires Respond(p, amountOut, reserveIn, reserveOut, 3).value.newFee == 0
    requires Settled(p, amountOut, reserveIn, reserveOut, 0)
    ensures FeeLoop(p, amountOut, reserveIn, reserveOut, 3, MAX_ITERATIONS).value.fee == 0
  {
    hide Respond;
  }

  /** A loop that ends with a fee has passed through the responses to 3 and to the fee that 3 entails. */
  lemma LoopSteps(p: Pool, amountOut: nat, reserveIn: nat, reserveOut: nat)
    requires FeeLoop(p, amountOut, reserveIn, reserveOut, 3, MAX_ITERATIONS).Ok?
    ensures var x := FeeLoop(p, amountOut, reserveIn, reserveOut, 3, MAX_ITERATIONS).value;
            var first := Respond(p, amountOut, reserveIn, reserveOut, 3);
            && first.Ok?
            && (first.value.newFee == 3 ==> x.fee == 3)
            && (first.value.newFee != 3 ==>
                  var second := Respond(p, amountOut, reserveIn, reserveOut, first.value.newFee);
                  && second.Ok?
                  && (second.value.newFee == first.value.newFee ==> x.fee == first.value.newFee))
  {
    hide Respond;
  }

  // ----- when an exact output is quoted

  /** The input that a fee calls for can be computed without overflow and moves some liquidity. */
  predicate Answers(amountOut: nat, reserveIn: nat, reserveOut: nat, fee: nat)
    requires reserveIn > 0 && amountOut < reserveOut && fee < FEE_PRECISION
  {
    && reserveIn * amountOut * FEE_PRECISION < TWO_256 && (reserveOut - amountOut) * (FEE_PRECISION - fee) < TWO_256
    && Needed(amountOut, reserveIn, reserveOut, fee) < TWO_256
    && !IsTradeLiquidity(0, Needed(amountOut, reserveIn, reserveOut, fee), reserveIn, reserveOut)
  }

  lemma AmountInIs(amountOut: nat, reserveIn: nat, reserveOut: nat, fee: nat)
    requires amountOut < reserveOut && fee < FEE_PRECISION
    ensures GetAmountIn(amountOut, reserveIn, reserveOut, fee) ==
            if reserveIn * amountOut * FEE_PRECISION < TWO_256 &&
               (reserveOut - amountOut) * (FEE_PRECISION - fee) < TWO_256 &&
               Needed(amountOut, reserveIn, reserveOut, fee) < TWO_256
            then Ok(Needed(amountOut, reserveIn, reserveOut, fee)) else Err(Overflow)
  {
    hide Div;
    NonNegative(reserveIn, amountOut);
    MulAtLeast(FEE_PRECISION - fee, reserveOut - amountOut);
    DivIs(reserveIn * amountOut * FEE_PRECISION, (reserveOut - amountOut) * (FEE_PRECISION - fee));
  }

  lemma AnswersIff(p: Pool, amountOut: nat, reserveIn: nat, reserveOut: nat, fee: nat)
    requires reserveIn > 0 && amountOut < reserveOut && fee < FEE_PRECISION
    requires SideFits(Needed(amountOut, reserveIn, reserveOut, fee), reserveIn, reserveOut)
    ensures Respond(p, amountOut, reserveIn, reserveOut, fee).Ok? <==> Answers(amountOut, reserveIn, reserveOut, fee)
  {
    hide GetAmountIn, TradeLiquidity, TradingFee, SideFits, IsTradeLiquidity, Needed;
    AmountInIs(amountOut, reserveIn, reserveOut, fee);
    TradeLiquidityIs(0, Needed(amountOut, reserveIn, reserveOut, fee), reserveIn, reserveOut);
  }

  lemma {:induction false} LoopUnfolds(p: Pool, amountOut: nat, reserveIn: nat, reserveOut: nat, fee: nat, fuel: nat)
    requires fuel > 0
    ensures var r := Respond(p, amountOut, reserveIn, reserveOut, fee);
            FeeLoop(p, amountOut, reserveIn, reserveOut, fee, fuel).Ok? <==>
              r.Ok? && (r.value.newFee == fee ||
                        FeeLoop(p, amountOut, reserveIn, reserveOut, r.value.newFee, fuel - 1).Ok?)
  {
    hide Respond;
  }

  /** Everything about the inputs that the fees 0, 3 and dsFee call for fits. */
  ghost predicate QuoteFits(p: Pool, amountOut: nat, reserveIn: nat, reserveOut: nat)
    requires reserveIn > 0 && amountOut < reserveOut
  {
    && 3 < FEE_PRECISION && p.dsFee < FEE_PRECISION && IsWord(Times(p.liquidityEMA, p.dsFeeThreshold))
    && forall fee | fee == 0 || fee == 3 || fee == p.dsFee ::
         && FeeFits(p, amountOut, reserveIn, reserveOut, fee)
         && SideFits(Needed(amountOut, reserveIn, reserveOut, fee), reserveIn, reserveOut)
         && ProductsFit(Needed(amountOut, reserveIn, reserveOut, fee), reserveIn, reserveOut)
  }

  /** An exact-output quote is given exactly when every fee that the search passes through has an answer: 3, then dsFee
      if the input for 3 is charged, and none unless both are charged. */
  lemma ExactOutputAcceptedIff(p: Pool, amountOut: nat, reserveIn: nat, reserveOut: nat)
    requires 0 < amountOut < reserveOut < TWO_255 && 0 < reserveIn < TWO_255
    requires QuoteFits(p, amountOut, reserveIn, reserveOut)
    ensures QuoteIn(p, amountOut, reserveIn, reserveOut).Ok? <==>
              && Answers(amountOut, reserveIn, reserveOut, 3)
              && (ChargedAt(p, amountOut, reserveIn, reserveOut, 3) ==>
                    Answers(amountOut, reserveIn, reserveOut, p.dsFee))
              && (!(ChargedAt(p, amountOut, reserveIn, reserveOut, 3) &&
                    ChargedAt(p, amountOut, reserveIn, reserveOut, p.dsFee)) ==>
                    Answers(amountOut, reserveIn, reserveOut, 0))
  {
    hide Respond, FeeLoop, KeepsK, Needed, ChargedAt, IsTradeLiquidity, FeeFits, IsWord, Times, Answers, SideFits,
      ProductsFit;
    FindsIff(p, amountOut, reserveIn, reserveOut);
    ExactOutputNeverGivesUp(p, amountOut, reserveIn, reserveOut);
    var found := FeeLoop(p, amountOut, reserveIn, reserveOut, 3, 3);
    if found.Ok? {
      LoopIsFixpoint(p, amountOut, reserveIn, reserveOut, 3, 3);
      NewFeeKinds(p, amountOut, reserveIn, reserveOut, found.value.fee);
      ResponseIs(p, amountOut, reserveIn, reserveOut, found.value.fee);
    }
  }

  lemma FindsIff(p: Pool, amountOut: nat, reserveIn: nat, reserveOut: nat)
    requires 0 < amountOut < reserveOut && 0 < reserveIn && QuoteFits(p, amountOut, reserveIn, reserveOut)
    ensures FeeLoop(p, amountOut, reserveIn, reserveOut, 3, 3).Ok? <==>
              && Answers(amountOut, reserveIn, reserveOut, 3)
              && (ChargedAt(p, amountOut, reserveIn, reserveOut, 3) ==>
                    Answers(amountOut, reserveIn, reserveOut, p.dsFee))
              && (!(ChargedAt(p, amountOut, reserveIn, reserveOut, 3) &&
                    ChargedAt(p, amountOut, reserveIn, reserveOut, p.dsFee)) ==>
                    Answers(amountOut, reserveIn, reserveOut, 0))
  {
    hide Respond, FeeLoop, Needed, ChargedAt, IsTradeLiquidity, FeeFits, IsWord, Times, Answers, SideFits, ProductsFit;
    forall fee | fee == 0 || fee == 3 || fee == p.dsFee
      ensures var r := Respond(p, amountOut, reserveIn, reserveOut, fee);
              && (r.Ok? <==> Answers(amountOut, reserveIn, reserveOut, fee))
              && (r.Ok? ==>
                    r.value.newFee == if ChargedAt(p, amountOut, reserveIn, reserveOut, fee) then p.dsFee else 0)
    {
      AnswersIff(p, amountOut, reserveIn, reserveOut, fee);
      if Respond(p, amountOut, reserveIn, reserveOut, fee).Ok? {
        ResponseIs(p, amountOut, reserveIn, reserveOut, fee);
      }
    }
    LoopUnfolds(p, amountOut, reserveIn, reserveOut, 3, 3);
    LoopUnfolds(p, amountOut, reserveIn, reserveOut, p.dsFee, 2);
    LoopUnfolds(p, amountOut, reserveIn, reserveOut, 0, 2);
    LoopUnfolds(p, amountOut, reserveIn, reserveOut, 0, 1);
    if Respond(p, amountOut, reserveIn, reserveOut, 3).Ok? {
      if Respond(p, amountOut, reserveIn, reserveOut, 3).value.newFee == 0 {
        NoFeeSettles(p, amountOut, reserveIn, reserveOut, 3);
      }
      if Respond(p, amountOut, reserveIn, reserveOut, p.dsFee).Ok? &&
         Respond(p, amountOut, reserveIn, reserveOut, p.dsFee).value.newFee == 0 {
        NoFeeSettles(p, amountOut, reserveIn, reserveOut, p.dsFee);
      }
    }
  }
}
