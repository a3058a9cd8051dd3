/** What an Arena trade pays, in plain arithmetic: a seller the area under the curve less the three fees, a buyer
the refund of what the area and the fees leave of the budget; and when a buy is accepted. */
module ArenaPays {
  import opened Arith
  import opened Words
  import opened Outcomes
  import opened ArenaMath
  import opened ArenaBc
  import opened ArenaSolvency
  import Bits

  /** Six times the area under the price line up to `x` whole tokens. */
  function SixAreas(p: Pool, x: nat): (r: nat)
    ensures r == AreaOf(p, x)
  {
    AreaIs(x, p.a, p.b);
    x * x * x * 2 * p.a + x * x * 3 * p.b
  }

  /** One fee, rounded to the nearest unit. */
  function Nearest(costs: nat, basisPoints: nat): nat {
    NonNegative(costs, basisPoints);
    (costs * basisPoints + 5000) / 10000
  }

  function ThreeFees(p: Pool, costs: nat): nat {
    Nearest(costs, p.protocolFee) + Nearest(costs, p.creatorFee) + Nearest(costs, p.referralFee)
  }

  /** The area that the last `n` tokens of the supply take up, rounded down. */
  function Reward(p: Pool, n: nat): nat
    requires p.curveScaler > 0 && n <= p.totalSupply / GRANULARITY
  {
    var s := p.totalSupply / GRANULARITY;
    AreaMono(s - n, s, p.a, p.b);
    DivNat(SixAreas(p, s) - SixAreas(p, s - n), 6 * p.curveScaler);
    (SixAreas(p, s) - SixAreas(p, s - n)) / (6 * p.curveScaler)
  }

  lemma RewardFits(p: Pool, n: nat)
    requires CurveFits(p, ScaledSupply(p)) && n <= ScaledSupply(p)
    ensures CalculateReward(p, n) == if ScaledSupply(p) == 0 then Err(ZeroSwap) else Ok(Reward(p, n))
    ensures FeeOn(p, Reward(p, n)) == ThreeFees(p, Reward(p, n))
  {
    hide Area, IsWord, Fits, IntegralFloor, SixAreas, FeeOn, ThreeFees;
    IntegralsAre(ScaledSupply(p), ScaledSupply(p) - n, p.a, p.b, p.curveScaler, TotalFeePoints(p));
    RewardIsWord(p, n);
    FeesAre(p, Reward(p, n));
  }

  lemma FeesAre(p: Pool, costs: nat)
    requires IsWord(costs * (10000 + TotalFeePoints(p)) + 15000)
    ensures FeeOn(p, costs) == ThreeFees(p, costs) == Fee(costs, p.protocolFee, p.creatorFee, p.referralFee)
  {
    hide IsWord, GetFee;
    FeePoints(p);
    FeeIs(costs, p.protocolFee, p.creatorFee, p.referralFee);
  }

  lemma RewardIsWord(p: Pool, n: nat)
    requires CurveFits(p, ScaledSupply(p)) && n <= ScaledSupply(p)
    ensures IsWord(Reward(p, n) * (10000 + TotalFeePoints(p)) + 15000)
  {
    hide Area, IsWord, SixAreas;
    var s, k, points := ScaledSupply(p), 6 * p.curveScaler, 10000 + TotalFeePoints(p);
    AreaMono(s - n, s, p.a, p.b);
    var d := AreaOf(p, s) - AreaOf(p, s - n);
    DivAtMost(d, k);
    ProductMono(Reward(p, n), points, AreaOf(p, s) + k, points);
    WordMono(Reward(p, n) * points + 15000, (AreaOf(p, s) + k) * points + 15000);
  }

  /** A sell is accepted exactly when it is of at least one whole token, at most the supply, and the balance holds the
      reward. The seller gets the reward less the three fees, which wraps should they exceed it; the balance gives up
      the whole reward, and the fraction of a token is handed back although the supply falls by it too. */
  lemma SellPays(p: Pool, tokenAmount: nat)
    requires CurveFits(p, ScaledSupply(p))
    ensures var n := tokenAmount / GRANULARITY;
            Sell(p, tokenAmount).Ok? <==>
              n > 0 && tokenAmount <= p.totalSupply && n <= ScaledSupply(p) && Reward(p, n) <= p.nativeBalance
    ensures Sell(p, tokenAmount).Ok? ==>
              var info, n := Sell(p, tokenAmount).value, tokenAmount / GRANULARITY;
              var reward := Reward(p, n);
              && info.amountOut == (reward - ThreeFees(p, reward)) % TWO_256 && info.fee == ThreeFees(p, reward)
              && info.nativeBalance == p.nativeBalance - reward && info.totalSupply == p.totalSupply - tokenAmount
              && info.swapAmount == n * GRANULARITY && info.remainingIn == tokenAmount - n * GRANULARITY
              && !info.isBuy
  {
    hide CurveFits, Reward, ThreeFees, FeeOn, CalculateReward;
    var n := tokenAmount / GRANULARITY;
    if tokenAmount <= p.totalSupply {
      ScaledMono(tokenAmount, p.totalSupply);
    }
    if n <= ScaledSupply(p) {
      RewardFits(p, n);
    } else {
      RewardNeedsSupply(p, n);
    }
  }

  lemma RewardNeedsSupply(p: Pool, n: nat)
    requires n > ScaledSupply(p)
    ensures CalculateReward(p, n).Err?
  {
  }

  /** The area that `n` more tokens take up, rounded up. */
  function Cost(p: Pool, n: nat): nat
    requires p.curveScaler > 0
  {
    var s := p.totalSupply / GRANULARITY;
    AreaMono(s, s + n, p.a, p.b);
    DivNat(SixAreas(p, s + n) - SixAreas(p, s) + 6 * p.curveScaler - 1, 6 * p.curveScaler);
    (SixAreas(p, s + n) - SixAreas(p, s) + 6 * p.curveScaler - 1) / (6 * p.curveScaler)
  }

  lemma CostsAre(p: Pool, n: nat)
    requires CurveFits(p, ScaledSupply(p) + n)
    ensures RawCost(p, n) == Cost(p, n) && TotalCost(p, n) == Cost(p, n) + ThreeFees(p, Cost(p, n))
    ensures FeeOn(p, Cost(p, n)) == ThreeFees(p, Cost(p, n))
  {
    hide Area, IsWord, Fits, CeilDiv, SixAreas, FeeOn, ThreeFees, Fee;
    var s := ScaledSupply(p);
    AreaMono(s, s + n, p.a, p.b);
    CeilAsFloor(SixAreas(p, s + n) - SixAreas(p, s), 6 * p.curveScaler);
    RawCostFits(p, n);
    FeesAre(p, Cost(p, n));
  }

  /** On a curve that fits, and with a balance and a sale that do, a buy is accepted exactly when it gets at least one
      whole token and does not complete the sale while deployment is not allowed. The buyer pays the rounded-up area
      and the three fees, all of it into the balance, and is refunded the rest. */
  lemma BuyPays(p: Pool, nativeAmount: nat)
    requires CurveFits(p, Max(ScaledSupply(p), ScaledMax(p))) && p.totalSupply <= MaxTokensForSale(p)
    requires IsWord(p.nativeBalance + nativeAmount)
    requires p.allowedTotalSupply * p.salePercentage < TWO_256
    ensures p.curveScaler > 0
    ensures var bought := PurchaseAmount(p, nativeAmount);
            Buy(p, nativeAmount).Ok? <==>
              && bought >= GRANULARITY
              && (p.allowedTotalSupply * p.salePercentage == (p.totalSupply + bought) * 100 ==> p.canDeployLp)
    ensures Buy(p, nativeAmount).Ok? ==>
              var info, bought := Buy(p, nativeAmount).value, PurchaseAmount(p, nativeAmount);
              var cost := Cost(p, bought / GRANULARITY);
              && info.isBuy && info.amountOut == bought && info.swapAmount == nativeAmount
              && info.fee == ThreeFees(p, cost) && info.remainingIn == nativeAmount - cost - ThreeFees(p, cost)
              && info.nativeBalance == p.nativeBalance + cost + ThreeFees(p, cost)
              && info.totalSupply == p.totalSupply + bought
  {
    hide PurchaseAmount, CalculateCost, FeeOn, LpThresholdReached, MaxTokensForSale, Add, Sub, CurveFits, TotalCost,
      RawCost, NoneCheaper, Bits.Pow2, IsWord, BuyLimit, Cost, ThreeFees;
    CurveScalerPositive(p, Max(ScaledSupply(p), ScaledMax(p)));
    var bought := PurchaseAmount(p, nativeAmount);
    var n := bought / GRANULARITY;
    SearchFits(p);
    PurchaseIsBest(p, nativeAmount);
    CurveFitsMono(p, ScaledSupply(p) + n, ScaledSupply(p) + BuyLimit(p) / GRANULARITY);
    CostIs(p, n, bought);
    CostsAre(p, n);
    WordMono(p.nativeBalance + TotalCost(p, n), p.nativeBalance + nativeAmount);
    WordMono(nativeAmount, p.nativeBalance + nativeAmount);
    DifferenceFits(nativeAmount, TotalCost(p, n));
    BoughtWithinSale(p, nativeAmount);
    MaximumIsWord(p);
    WordMono(p.totalSupply + bought, MaxTokensForSale(p));
    ThresholdIs(p, p.totalSupply + bought);
    ScaledSum(p.totalSupply, bought);
    WordMono(ScaledSupply(p) + n, p.totalSupply + bought);
    SumFits(ScaledSupply(p), n);
  }

  lemma MaximumIsWord(p: Pool)
    ensures IsWord(MaxTokensForSale(p))
  {
    NonNegative(p.allowedTotalSupply, p.salePercentage);
  }

  /** The sale is complete when the supply is the given share of the allowed supply. */
  lemma ThresholdIs(p: Pool, totalSupply: nat)
    requires p.allowedTotalSupply * p.salePercentage < TWO_256
    requires totalSupply <= MaxTokensForSale(p)
    ensures LpThresholdReached(p, totalSupply) <==> p.allowedTotalSupply * p.salePercentage == totalSupply * 100
  {
    hide Mul;
    NonNegative(p.allowedTotalSupply, p.salePercentage);
    FloorAtLeast(p.allowedTotalSupply * p.salePercentage, 100, MaxTokensForSale(p));
    ProductFits(p.allowedTotalSupply, p.salePercentage, p.allowedTotalSupply * p.salePercentage);
    ProductFits(totalSupply, 100, totalSupply * 100);
  }

  lemma BoughtWithinSale(p: Pool, nativeAmount: nat)
    requires p.totalSupply <= MaxTokensForSale(p) && CurveFits(p, ScaledSupply(p) + BuyLimit(p) / GRANULARITY)
    ensures p.totalSupply + PurchaseAmount(p, nativeAmount) <= MaxTokensForSale(p)
  {
    hide CurveFits, TotalCost, MaxTokensForSale, NoneCheaper, Bits.Pow2, CalculateCostWithFees, Search;
    PurchaseIsBest(p, nativeAmount);
    if nativeAmount <= CalculateCostWithFees(p, BuyLimit(p)) {
      WholeTokens(Search(p, nativeAmount, 0, BuyLimit(p) / GRANULARITY, MAX_ITERATIONS));
    }
  }

  /** What a buy gets stays within the share of the allowed supply that is for sale, and every larger number of whole
      tokens within it costs at least the budget. */
  lemma BoughtIsMost(p: Pool, nativeAmount: nat, m: nat)
    requires CurveFits(p, Max(ScaledSupply(p), ScaledMax(p))) && p.allowedTotalSupply * p.salePercentage < TWO_256
    requires p.totalSupply * 100 <= p.allowedTotalSupply * p.salePercentage
    requires p.allowedTotalSupply * p.salePercentage / GRANULARITY < Bits.Pow2(MAX_ITERATIONS)
    requires PurchaseAmount(p, nativeAmount) / GRANULARITY < m
    requires (p.totalSupply + m * GRANULARITY) * 100 <= p.allowedTotalSupply * p.salePercentage
    ensures p.curveScaler > 0
    ensures (p.totalSupply + PurchaseAmount(p, nativeAmount)) * 100 <= p.allowedTotalSupply * p.salePercentage
    ensures Cost(p, m) + ThreeFees(p, Cost(p, m)) >= nativeAmount
  {
    hide PurchaseAmount, CurveFits, TotalCost, RawCost, NoneCheaper, Bits.Pow2, IsWord, Cost, ThreeFees,
      MaxTokensForSale, BuyLimit, ScaledSupply, Max;
    CurveScalerPositive(p, Max(ScaledSupply(p), ScaledMax(p)));
    SaleIs(p, p.totalSupply);
    SaleIs(p, p.totalSupply + m * GRANULARITY);
    SearchFits(p);
    PurchaseIsBest(p, nativeAmount);
    BoughtWithinSale(p, nativeAmount);
    SaleIs(p, p.totalSupply + PurchaseAmount(p, nativeAmount));
    var limit := BuyLimit(p) / GRANULARITY;
    LimitOfSale(p, m);
    LimitBelow(p, p.allowedTotalSupply * p.salePercentage);
    CurveFitsMono(p, ScaledSupply(p) + m, ScaledSupply(p) + limit);
    CostsAre(p, m);
    TotalAtLeast(p, nativeAmount, PurchaseAmount(p, nativeAmount) / GRANULARITY, limit, m);
  }

  lemma SaleIs(p: Pool, supply: nat)
    requires p.allowedTotalSupply * p.salePercentage < TWO_256
    ensures supply <= MaxTokensForSale(p) <==> supply * 100 <= p.allowedTotalSupply * p.salePercentage
    ensures MaxTokensForSale(p) <= p.allowedTotalSupply * p.salePercentage
  {
    var sale := p.allowedTotalSupply * p.salePercentage;
    NonNegative(p.allowedTotalSupply, p.salePercentage);
    FloorAtLeast(sale, 100, supply);
  }

  lemma LimitOfSale(p: Pool, m: nat)
    requires p.totalSupply + m * GRANULARITY <= MaxTokensForSale(p)
    ensures m <= BuyLimit(p) / GRANULARITY
  {
    hide MaxTokensForSale;
  }

  lemma LimitBelow(p: Pool, sale: int)
    requires MaxTokensForSale(p) <= sale
    ensures BuyLimit(p) / GRANULARITY <= sale / GRANULARITY
  {
    hide MaxTokensForSale;
  }

  lemma TotalAtLeast(p: Pool, nativeAmount: nat, n: nat, limit: nat, m: nat)
    requires p.curveScaler > 0 && NoneCheaper(p, nativeAmount, n, limit) && n < m <= limit
    ensures TotalCost(p, m) >= nativeAmount
  {
    hide TotalCost;
  }
}
