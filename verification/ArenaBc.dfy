/** Arena bonding-curve pool: a buy spends a native budget on as many tokens as it pays for, a sell
returns tokens to the curve, and reaching the sale limit moves the token to its own liquidity pool. */
module ArenaBc {
  import opened Arith
  import opened Words
  import opened Outcomes
  import opened ArenaMath
  import opened Bits

  /** Amounts carry 18 decimals; the curve counts whole tokens. */
  const GRANULARITY: nat := 1_000_000_000_000_000_000

  /** The purchase search gives up after this many halvings. */
  const MAX_ITERATIONS: nat := 100

  datatype Error =
    | PoolPaused | LpAlreadyDeployed | ZeroSwap | Underflow | NativeBalance | TotalSupply | LpDeployNotAllowed |
    SupplyMismatch

  type Result<T> = Outcome<T, Error>

  datatype Pool = Pool(
    isPaused: bool, canDeployLp: bool, allowedTotalSupply: nat, salePercentage: nat,
    protocolFee: nat, creatorFee: nat, referralFee: nat,
    a: nat, b: nat, curveScaler: nat,
    totalSupply: nat, nativeBalance: nat, lpDeployed: bool)

  datatype SwapInfo = SwapInfo(
    isBuy: bool, amountOut: nat, swapAmount: nat, fee: nat, remainingIn: nat, totalSupply: nat, nativeBalance: nat)

  // ----- costs and limits

  function ScaledSupply(p: Pool): nat {
    p.totalSupply / GRANULARITY
  }

  function MaxTokensForSale(p: Pool): nat {
    NonNegative(p.allowedTotalSupply, p.salePercentage);
    (p.allowedTotalSupply * p.salePercentage / 100) % TWO_256
  }

  /** What may still be bought. A supply already past the maximum leaves the whole maximum. */
  function BuyLimit(p: Pool): nat {
    if MaxTokensForSale(p) < p.totalSupply then MaxTokensForSale(p) else MaxTokensForSale(p) - p.totalSupply
  }

  function CalculateCost(p: Pool, scaledAmount: nat): nat {
    IntegralCeil(Add(scaledAmount, ScaledSupply(p)), ScaledSupply(p), p.a, p.b, p.curveScaler)
  }

  function FeeOn(p: Pool, costs: nat): nat {
    GetFee(costs, p.protocolFee, p.creatorFee, p.referralFee)
  }

  function CalculateCostWithFees(p: Pool, amount: nat): nat {
    var raw := IntegralCeil(Add(ScaledSupply(p), amount / GRANULARITY), ScaledSupply(p), p.a, p.b, p.curveScaler);
    Add(raw, FeeOn(p, raw))
  }

  function CalculateReward(p: Pool, scaledAmount: nat): Result<nat> {
    if ScaledSupply(p) == 0 then Err(ZeroSwap)
    else if scaledAmount > ScaledSupply(p) then Err(Underflow)
    else Ok(IntegralFloor(ScaledSupply(p), ScaledSupply(p) - scaledAmount, p.a, p.b, p.curveScaler))
  }

  predicate LpThresholdReached(p: Pool, totalSupply: nat) {
    Mul(p.allowedTotalSupply, p.salePercentage) == Mul(totalSupply, 100)
  }

  function Middle(low: nat, high: nat): (mid: nat)
    ensures low < high ==> low < mid <= high
  {
    (low + high + 1) / 2
  }

  /** The bisection over whole tokens, with `iterations` left. */
  function Search(p: Pool, nativeAmount: nat, low: nat, high: nat, iterations: nat): nat
    decreases iterations
  {
    if low >= high || iterations == 0 then low
    else
      var mid := Middle(low, high);
      var cost := CalculateCostWithFees(p, mid * GRANULARITY);
      if cost == nativeAmount then mid
      else if cost < nativeAmount then Search(p, nativeAmount, mid, high, iterations - 1)
      else Search(p, nativeAmount, low, mid - 1, iterations - 1)
  }

  function PurchaseAmount(p: Pool, nativeAmount: nat): nat {
    if nativeAmount > CalculateCostWithFees(p, BuyLimit(p)) then BuyLimit(p)
    else Search(p, nativeAmount, 0, BuyLimit(p) / GRANULARITY, MAX_ITERATIONS) * GRANULARITY
  }

  method CalculatePurchaseAmount(p: Pool, nativeAmount: nat) returns (r: nat)
    ensures r == PurchaseAmount(p, nativeAmount)
  {
    hide CalculateCostWithFees, BuyLimit;
    var buyLimit := BuyLimit(p);
    if nativeAmount > CalculateCostWithFees(p, buyLimit) {
      return buyLimit;
    }
    var low, high, maxIterations := 0, buyLimit / GRANULARITY, MAX_ITERATIONS;
    while low < high && maxIterations > 0
      invariant 0 <= low <= high && maxIterations >= 0
      invariant Search(p, nativeAmount, 0, buyLimit / GRANULARITY, MAX_ITERATIONS) ==
                Search(p, nativeAmount, low, high, maxIterations)
      decreases maxIterations
    {
      var mid := (low + high + 1) / 2;
      var cost := CalculateCostWithFees(p, mid * GRANULARITY);
      if cost == nativeAmount {
        return mid * GRANULARITY;
      } else if cost < nativeAmount {
        low := mid;
      } else {
        high := mid - 1;
      }
      maxIterations := maxIterations - 1;
    }
    return low * GRANULARITY;
  }

  // ----- quotes

  function Sell(p: Pool, tokenAmount: nat): Result<SwapInfo> {
    var scaled := tokenAmount / GRANULARITY;
    if scaled == 0 then Err(ZeroSwap)
    else match CalculateReward(p, scaled)
      case Err(e) => Err(e)
      case Ok(reward) =>
        if p.nativeBalance < reward then Err(NativeBalance)
        else if p.totalSupply < tokenAmount then Err(TotalSupply)
        else
          Ok(SwapInfo(false, Sub(reward, FeeOn(p, reward)), tokenAmount - tokenAmount % GRANULARITY, FeeOn(p, reward),
                      tokenAmount % GRANULARITY, p.totalSupply - tokenAmount, p.nativeBalance - reward))
  }

  function Buy(p: Pool, nativeAmount: nat): Result<SwapInfo> {
    var tokenAmount := PurchaseAmount(p, nativeAmount);
    var scaled := tokenAmount / GRANULARITY;
    if scaled == 0 then Err(ZeroSwap)
    else
      var raw := CalculateCost(p, scaled);
      var cost := Add(raw, FeeOn(p, raw));
      if !IsWord(p.nativeBalance + cost) then Err(NativeBalance)
      else if !IsWord(p.totalSupply + tokenAmount) then Err(TotalSupply)
      else if LpThresholdReached(p, p.totalSupply + tokenAmount) && !p.canDeployLp then Err(LpDeployNotAllowed)
      else if Add(ScaledSupply(p), scaled) > MaxTokensForSale(p) / GRANULARITY then Err(SupplyMismatch)
      else
        Ok(SwapInfo(true, tokenAmount, nativeAmount, FeeOn(p, raw), Sub(nativeAmount, cost),
                    p.totalSupply + tokenAmount, p.nativeBalance + cost))
  }

  datatype Trade = BuyWith(nativeAmount: nat) | SellTokens(tokenAmount: nat)

  function Quote(p: Pool, trade: Trade): Result<SwapInfo> {
    if p.isPaused then Err(PoolPaused)
    else if p.lpDeployed then Err(LpAlreadyDeployed)
    else match trade
      case BuyWith(native) => if native == 0 then Err(ZeroSwap) else Buy(p, native)
      case SellTokens(amount) => if amount == 0 then Err(ZeroSwap) else Sell(p, amount)
  }

  function Updated(p: Pool, info: SwapInfo): Pool {
    p.(totalSupply := info.totalSupply, nativeBalance := info.nativeBalance,
       lpDeployed := p.lpDeployed || (info.isBuy && LpThresholdReached(p, info.totalSupply)))
  }

  // ----- what a purchase costs, exactly

  function TotalFeePoints(p: Pool): nat {
    p.protocolFee + p.creatorFee + p.referralFee
  }

  /** The curve up to `scaled` whole tokens stays within words. */
  predicate CurveFits(p: Pool, scaled: nat) {
    p.curveScaler > 0 && Fits(scaled, p.a, p.b, p.curveScaler, TotalFeePoints(p)) && IsWord(scaled)
  }

  function AreaOf(p: Pool, scaled: nat): nat {
    Area(scaled, p.a, p.b)
  }

  /** The curve's price of `n` more tokens, rounded up. */
  function RawCost(p: Pool, n: nat): nat
    requires p.curveScaler > 0
  {
    AreaMono(ScaledSupply(p), ScaledSupply(p) + n, p.a, p.b);
    CeilDiv(AreaOf(p, ScaledSupply(p) + n) - AreaOf(p, ScaledSupply(p)), 6 * p.curveScaler)
  }

  function TotalCost(p: Pool, n: nat): nat
    requires p.curveScaler > 0
  {
    RawCost(p, n) + Fee(RawCost(p, n), p.protocolFee, p.creatorFee, p.referralFee)
  }

  lemma RawCostFits(p: Pool, n: nat)
    requires CurveFits(p, ScaledSupply(p) + n)
    ensures IsWord(RawCost(p, n) * (10000 + TotalFeePoints(p)) + 15000)
  {
    hide Area, IsWord, CeilDiv;
    var k, points := 6 * p.curveScaler, 10000 + TotalFeePoints(p);
    var top := AreaOf(p, ScaledSupply(p) + n);
    AreaMono(ScaledSupply(p), ScaledSupply(p) + n, p.a, p.b);
    var d := top - AreaOf(p, ScaledSupply(p));
    MulAtLeast(k, d);
    CeilAtMost(d, k, d);
    ProductMono(RawCost(p, n), points, top + k, points);
    WordMono(RawCost(p, n) * points + 15000, (top + k) * points + 15000);
  }

  lemma CostIs(p: Pool, n: nat, amount: nat)
    requires CurveFits(p, ScaledSupply(p) + n) && amount / GRANULARITY == n
    ensures CalculateCost(p, n) == RawCost(p, n)
    ensures Add(RawCost(p, n), FeeOn(p, RawCost(p, n))) == TotalCost(p, n)
    ensures CalculateCostWithFees(p, amount) == TotalCost(p, n)
  {
    hide Area, IsWord, CeilDiv, IntegralCeil, Fee, Add, Fits, GetFee;
    SumFits(n, ScaledSupply(p));
    SumFits(ScaledSupply(p), n);
    IntegralsAre(ScaledSupply(p) + n, ScaledSupply(p), p.a, p.b, p.curveScaler, TotalFeePoints(p));
    RawCostFits(p, n);
    FeePoints(p);
    FeeIs(RawCost(p, n), p.protocolFee, p.creatorFee, p.referralFee);
  }

  lemma FeePoints(p: Pool)
    ensures 10000 + TotalFeePoints(p) == 10000 + p.protocolFee + p.creatorFee + p.referralFee
  {
  }

  lemma CostMono(p: Pool, m: nat, n: nat)
    requires m <= n && p.curveScaler > 0
    ensures TotalCost(p, m) <= TotalCost(p, n)
  {
    hide Area, CeilDiv, Fee;
    var s, k := ScaledSupply(p), 6 * p.curveScaler;
    AreaMono(s, s + m, p.a, p.b);
    AreaMono(s, s + n, p.a, p.b);
    AreaMono(s + m, s + n, p.a, p.b);
    CeilMono(AreaOf(p, s + m) - AreaOf(p, s), AreaOf(p, s + n) - AreaOf(p, s), k);
    FeeMono(RawCost(p, m), RawCost(p, n), p.protocolFee, p.creatorFee, p.referralFee);
  }

  lemma FreeOfCost(p: Pool)
    requires p.curveScaler > 0
    ensures TotalCost(p, 0) == 0
  {
    hide Area;
    assert RawCost(p, 0) == CeilDiv(0, 6 * p.curveScaler);
    CeilAtMost(0, 6 * p.curveScaler, 0);
  }

  lemma CurveFitsMono(p: Pool, m: nat, n: nat)
    requires m <= n && CurveFits(p, n)
    ensures CurveFits(p, m)
  {
    hide Fits;
    FitsMono(m, n, p.a, p.b, p.curveScaler, TotalFeePoints(p));
  }

  /** Every purchase larger than `n`, up to the limit, costs at least the budget. */
  ghost predicate NoneCheaper(p: Pool, nativeAmount: nat, n: nat, limit: nat)
    requires p.curveScaler > 0
  {
    forall m :: n < m <= limit ==> TotalCost(p, m) >= nativeAmount
  }

  lemma NoneCheaperFrom(p: Pool, nativeAmount: nat, n: nat, limit: nat)
    requires p.curveScaler > 0 && TotalCost(p, n) >= nativeAmount
    ensures NoneCheaper(p, nativeAmount, n, limit) && (n > 0 ==> NoneCheaper(p, nativeAmount, n - 1, limit))
  {
    hide TotalCost;
    forall m | n <= m ensures TotalCost(p, m) >= nativeAmount {
      CostMono(p, n, m);
    }
  }

  /** One halving of the search. */
  lemma {:induction false} SearchStep(p: Pool, nativeAmount: nat, low: nat, high: nat, iterations: nat, cost: nat)
    requires low < high && iterations > 0 && cost == CalculateCostWithFees(p, Middle(low, high) * GRANULARITY)
    ensures Search(p, nativeAmount, low, high, iterations) ==
            if cost == nativeAmount then Middle(low, high)
            else if cost < nativeAmount then Search(p, nativeAmount, Middle(low, high), high, iterations - 1)
            else Search(p, nativeAmount, low, Middle(low, high) - 1, iterations - 1)
  {
    hide CalculateCostWithFees, Middle;
  }

  lemma {:induction false} HalvesFit(low: nat, high: nat, mid: nat, iterations: nat)
    requires low < high && mid == Middle(low, high) && iterations > 0 && high - low < Pow2(iterations)
    ensures high - mid < Pow2(iterations - 1) && mid - 1 - low < Pow2(iterations - 1)
  {
  }

  lemma {:induction false} SearchEnds(p: Pool, nativeAmount: nat, low: nat, high: nat, iterations: nat)
    requires low == high || (low < high && iterations == 0)
    ensures Search(p, nativeAmount, low, high, iterations) == low
    ensures high - low < Pow2(iterations) ==> low == high
  {
  }

  lemma {:induction false} SearchFinds(p: Pool, nativeAmount: nat, low: nat, high: nat, iterations: nat, limit: nat)
    requires low <= high <= limit && CurveFits(p, ScaledSupply(p) + limit)
    requires p.curveScaler > 0 && TotalCost(p, low) <= nativeAmount && NoneCheaper(p, nativeAmount, high, limit)
    ensures var n := Search(p, nativeAmount, low, high, iterations);
            low <= n <= limit && TotalCost(p, n) <= nativeAmount &&
            (high - low < Pow2(iterations) ==> NoneCheaper(p, nativeAmount, n, limit))
    decreases iterations
  {
    hide Search, TotalCost, NoneCheaper, CurveFits, Pow2, Middle, CalculateCostWithFees, ScaledSupply;
    if low == high || iterations == 0 {
      SearchEnds(p, nativeAmount, low, high, iterations);
      return;
    }
    var mid := Middle(low, high);
    CurveFitsMono(p, ScaledSupply(p) + mid, ScaledSupply(p) + limit);
    assert CalculateCostWithFees(p, mid * GRANULARITY) == TotalCost(p, mid) by {
      WholeTokens(mid);
      CostIs(p, mid, mid * GRANULARITY);
    }
    SearchStep(p, nativeAmount, low, high, iterations, TotalCost(p, mid));
    if high - low < Pow2(iterations) {
      HalvesFit(low, high, mid, iterations);
    }
    if TotalCost(p, mid) < nativeAmount {
      SearchFinds(p, nativeAmount, mid, high, iterations - 1, limit);
    } else {
      NoneCheaperFrom(p, nativeAmount, mid, limit);
      if TotalCost(p, mid) > nativeAmount {
        SearchFinds(p, nativeAmount, low, mid - 1, iterations - 1, limit);
      }
    }
  }

  /** A budget buys an affordable number of tokens, and any larger number within the limit would cost
  at least the whole budget. */
  lemma PurchaseIsBest(p: Pool, nativeAmount: nat)
    requires CurveFits(p, ScaledSupply(p) + BuyLimit(p) / GRANULARITY)
    ensures p.curveScaler > 0
    ensures var n, limit := PurchaseAmount(p, nativeAmount) / GRANULARITY, BuyLimit(p) / GRANULARITY;
            n <= limit && TotalCost(p, n) <= nativeAmount &&
            (limit < Pow2(MAX_ITERATIONS) ==> NoneCheaper(p, nativeAmount, n, limit))
  {
    assert p.curveScaler > 0;
    hide CalculateCostWithFees, TotalCost, CurveFits, Search, BuyLimit, Pow2, NoneCheaper;
    var limit := BuyLimit(p) / GRANULARITY;
    CostIs(p, limit, BuyLimit(p));
    NoneBeyond(p, nativeAmount, limit);
    if nativeAmount <= CalculateCostWithFees(p, BuyLimit(p)) {
      FreeOfCost(p);
      SearchFinds(p, nativeAmount, 0, limit, MAX_ITERATIONS, limit);
      WholeTokens(Search(p, nativeAmount, 0, limit, MAX_ITERATIONS));
    }
  }

  lemma WholeTokens(n: nat)
    ensures n * GRANULARITY / GRANULARITY == n && n * GRANULARITY % GRANULARITY == 0
  {
  }

  lemma NoneBeyond(p: Pool, nativeAmount: nat, limit: nat)
    requires p.curveScaler > 0
    ensures NoneCheaper(p, nativeAmount, limit, limit)
  {
  }
}
