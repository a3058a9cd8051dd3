/** The Arena pool object: quotes that read its state, and the update that applies one. */
module ArenaPool {
  import opened Words
  import opened Outcomes
  import opened ArenaBc
  import opened ArenaSolvency
  import Bits

  class PoolSimulator {
    const terms: Pool
    var totalSupply: nat
    var nativeBalance: nat
    var lpDeployed: bool

    constructor (p: Pool)
      ensures State() == p
    {
      terms, totalSupply, nativeBalance, lpDeployed := p, p.totalSupply, p.nativeBalance, p.lpDeployed;
    }

    function State(): Pool
      reads this
    {
      terms.(totalSupply := totalSupply, nativeBalance := nativeBalance, lpDeployed := lpDeployed)
    }

    /** An accepted buy splits the budget into the exact cost with fees, which the balance takes in, and the refund;
        any larger purchase within the limit would have cost at least the budget. */
    method BuyAndCreateLpIfPossible(nativeAmount: nat) returns (r: Result<SwapInfo>)
      ensures r == Buy(State(), nativeAmount)
      ensures var p := State();
              r.Ok? && IsWord(nativeAmount) && CurveFits(p, Max(ScaledSupply(p), ScaledMax(p))) ==>
                var n, limit := r.value.amountOut / GRANULARITY, BuyLimit(p) / GRANULARITY;
                && p.curveScaler > 0 && 0 < n <= limit
                && nativeAmount == TotalCost(p, n) + r.value.remainingIn
                && r.value.nativeBalance == nativeBalance + TotalCost(p, n)
                && r.value.totalSupply == totalSupply + r.value.amountOut <= MaxTokensForSale(p)
                && (limit < Bits.Pow2(MAX_ITERATIONS) ==> NoneCheaper(p, nativeAmount, n, limit))
    {
      hide PurchaseAmount, CalculateCost, FeeOn, LpThresholdReached, MaxTokensForSale, Add, Sub, IsWord, CurveFits,
        TotalCost, NoneCheaper, Bits.Pow2;
      var p := State();
      ghost var answer := Buy(p, nativeAmount);
      if answer.Ok? && IsWord(nativeAmount) && CurveFits(p, Max(ScaledSupply(p), ScaledMax(p))) {
        BuyIs(p, nativeAmount);
        BuyStaysBelowMaximum(p, nativeAmount);
      }
      var tokenAmount := CalculatePurchaseAmount(p, nativeAmount);
      var scaled := tokenAmount / GRANULARITY;
      if scaled == 0 {
        return Err(ZeroSwap);
      }
      var cost := CalculateCost(p, scaled);
      var fee := FeeOn(p, cost);
      cost := Add(cost, fee);
      if !IsWord(nativeBalance + cost) {
        return Err(NativeBalance);
      }
      if !IsWord(totalSupply + tokenAmount) {
        return Err(TotalSupply);
      }
      if LpThresholdReached(p, totalSupply + tokenAmount) && !terms.canDeployLp {
        return Err(LpDeployNotAllowed);
      }
      if Add(ScaledSupply(p), scaled) > MaxTokensForSale(p) / GRANULARITY {
        return Err(SupplyMismatch);
      }
      r := Ok(SwapInfo(true, tokenAmount, nativeAmount, fee, Sub(nativeAmount, cost),
                       totalSupply + tokenAmount, nativeBalance + cost));
    }

    /** Nothing is quoted while paused or once deployed. On a healthy pool a sell is quoted exactly when it is of at
        least a token and at most the supply. */
    method CalcAmountOut(trade: Trade) returns (r: Result<SwapInfo>)
      ensures r == Quote(State(), trade)
      ensures terms.isPaused || lpDeployed ==> r.Err?
      ensures Healthy(State()) && !terms.isPaused && !lpDeployed && trade.SellTokens? ==>
                (r.Ok? <==> GRANULARITY <= trade.tokenAmount <= totalSupply)
    {
      hide Buy, Sell, CurveFits, Solvent;
      if terms.isPaused {
        return Err(PoolPaused);
      }
      if lpDeployed {
        return Err(LpAlreadyDeployed);
      }
      match trade {
        case BuyWith(native) =>
          if native == 0 {
            return Err(ZeroSwap);
          }
          r := BuyAndCreateLpIfPossible(native);
        case SellTokens(amount) =>
          if Healthy(State()) {
            CurveFitsMono(State(), ScaledSupply(State()), Max(ScaledSupply(State()), ScaledMax(State())));
            SellAcceptedIff(State(), amount);
          }
          r := if amount == 0 then Err(ZeroSwap) else Sell(State(), amount);
      }
    }

    /** Applying the quote of `trade` keeps a healthy pool healthy exactly when it is not a buy-out across a token
        boundary that leaves the balance short. Only a buy that meets the threshold deploys. */
    method UpdateBalance(info: SwapInfo, ghost trade: Trade)
      modifies this
      ensures State() == Updated(old(State()), info)
      ensures lpDeployed <==> old(lpDeployed) || (info.isBuy && LpThresholdReached(terms, info.totalSupply))
      ensures old(Quote(State(), trade)) == Ok(info) && old(Healthy(State())) &&
              (trade.BuyWith? ==> IsWord(trade.nativeAmount)) ==>
                && terms.curveScaler > 0
                && (Healthy(State()) <==> (trade.BuyWith? ==> LeavesSolvent(old(State()), trade.nativeAmount)))
    {
      hide Quote, Healthy, LeavesSolvent, IsWord;
      ghost var before := State();
      totalSupply := info.totalSupply;
      nativeBalance := info.nativeBalance;
      if info.isBuy && LpThresholdReached(State(), totalSupply) {
        lpDeployed := true;
      }
      if Quote(before, trade) == Ok(info) && Healthy(before) && (trade.BuyWith? ==> IsWord(trade.nativeAmount)) {
        StepKeepsHealthIff(before, trade);
      }
    }
  }
}
