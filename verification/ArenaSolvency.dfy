/** What an Arena pool's native balance covers over a run of trades. */
module ArenaSolvency {
  import opened Arith
  import opened Words
  import opened Outcomes
  import opened ArenaMath
  import opened ArenaBc

  /** The balance pays for selling the whole supply back along the curve. */
  predicate Solvent(p: Pool) {
    6 * p.curveScaler * p.nativeBalance >= AreaOf(p, ScaledSupply(p))
  }

  function ScaledMax(p: Pool): nat {
    MaxTokensForSale(p) / GRANULARITY
  }

  predicate Healthy(p: Pool) {
    CurveFits(p, Max(ScaledSupply(p), ScaledMax(p))) && Solvent(p)
  }

  // ----- sells

  /** A sell takes exactly the curve's area, rounded down, out of the balance. */
  lemma SellIs(p: Pool, tokenAmount: nat)
    requires CurveFits(p, ScaledSupply(p)) && Sell(p, tokenAmount).Ok?
    ensures var info, n := Sell(p, tokenAmount).value, tokenAmount / GRANULARITY;
            n <= ScaledSupply(p) && info.totalSupply == p.totalSupply - tokenAmount && !info.isBuy &&
            AreaOf(p, ScaledSupply(p) - n) <= AreaOf(p, ScaledSupply(p)) &&
            info.nativeBalance == p.nativeBalance -
              (AreaOf(p, ScaledSupply(p)) - AreaOf(p, ScaledSupply(p) - n)) / (6 * p.curveScaler)
  {
    hide Fits, IntegralFloor, Area, FeeOn;
    var n := tokenAmount / GRANULARITY;
    IntegralsAre(ScaledSupply(p), ScaledSupply(p) - n, p.a, p.b, p.curveScaler, TotalFeePoints(p));
  }

  lemma RewardCovered(k: nat, balance: nat, before: nat, after: nat)
    requires k > 0 && after <= before <= k * balance
    ensures 0 <= (before - after) / k <= balance
    ensures k * (balance - (before - after) / k) >= after
  {
    var d := before - after;
    DivNat(d, k);
    FloorAtLeast(d, k, d / k);
    FloorAtLeast(d, k, balance + 1);
    assert k * (balance + 1) == k * balance + k;
    assert k * (balance - d / k) == k * balance - k * (d / k);
  }

  /** On a solvent pool a sell fails only for selling less than a token or more than the supply. */
  lemma SellAcceptedIff(p: Pool, tokenAmount: nat)
    requires CurveFits(p, ScaledSupply(p)) && Solvent(p)
    ensures Sell(p, tokenAmount).Ok? <==> GRANULARITY <= tokenAmount <= p.totalSupply
    ensures Sell(p, tokenAmount) != Err(NativeBalance)
  {
    hide Fits, IntegralFloor, Area, FeeOn;
    var n := tokenAmount / GRANULARITY;
    if n <= ScaledSupply(p) {
      IntegralsAre(ScaledSupply(p), ScaledSupply(p) - n, p.a, p.b, p.curveScaler, TotalFeePoints(p));
      RewardCovered(6 * p.curveScaler, p.nativeBalance, AreaOf(p, ScaledSupply(p)), AreaOf(p, ScaledSupply(p) - n));
    }
  }

  lemma SellKeepsSolvent(p: Pool, tokenAmount: nat)
    requires CurveFits(p, ScaledSupply(p)) && Solvent(p) && Sell(p, tokenAmount).Ok?
    ensures Solvent(Updated(p, Sell(p, tokenAmount).value))
    ensures ScaledSupply(Updated(p, Sell(p, tokenAmount).value)) <= ScaledSupply(p)
  {
    hide CurveFits, Area, Sell;
    SellIs(p, tokenAmount);
    var n, q := tokenAmount / GRANULARITY, Updated(p, Sell(p, tokenAmount).value);
    CurveScalerPositive(p, ScaledSupply(p));
    RewardCovered(6 * p.curveScaler, p.nativeBalance, AreaOf(p, ScaledSupply(p)), AreaOf(p, ScaledSupply(p) - n));
    AreaMono(ScaledSupply(q), ScaledSupply(p) - n, p.a, p.b);
  }

  lemma CurveScalerPositive(p: Pool, n: nat)
    requires CurveFits(p, n)
    ensures p.curveScaler > 0
  {
  }

  // ----- buys

  /** Past the maximum every buy is refused, whatever the search returned. */
  lemma BuyPastMaximumFails(p: Pool, nativeAmount: nat)
    requires MaxTokensForSale(p) < p.totalSupply
    ensures Buy(p, nativeAmount).Err?
  {
    hide PurchaseAmount, CalculateCost, FeeOn, LpThresholdReached, MaxTokensForSale, Add;
    var tokenAmount := PurchaseAmount(p, nativeAmount);
    if IsWord(p.totalSupply + tokenAmount) {
      ScaledSum(p.totalSupply, tokenAmount);
      WordMono(ScaledSupply(p) + tokenAmount / GRANULARITY, p.totalSupply + tokenAmount);
      SumFits(ScaledSupply(p), tokenAmount / GRANULARITY);
      ScaledMono(MaxTokensForSale(p), p.totalSupply);
    }
  }

  lemma ScaledSum(x: nat, y: nat)
    ensures (x + y) / GRANULARITY == x / GRANULARITY + y / GRANULARITY + if x % GRANULARITY + y % GRANULARITY >=
            GRANULARITY then 1 else 0
    ensures (x + y) / GRANULARITY <= x + y
  {
  }

  lemma ScaledMono(x: nat, y: nat)
    requires x <= y
    ensures x / GRANULARITY <= y / GRANULARITY
  {
  }

  /** The curve fits everywhere the purchase search looks. */
  lemma SearchFits(p: Pool)
    requires CurveFits(p, Max(ScaledSupply(p), ScaledMax(p))) && p.totalSupply <= MaxTokensForSale(p)
    ensures CurveFits(p, ScaledSupply(p) + BuyLimit(p) / GRANULARITY)
    ensures ScaledSupply(p) + BuyLimit(p) / GRANULARITY <= ScaledMax(p)
  {
    hide CurveFits, MaxTokensForSale;
    ScaledSum(p.totalSupply, BuyLimit(p));
    CurveFitsMono(p, ScaledSupply(p) + BuyLimit(p) / GRANULARITY, Max(ScaledSupply(p), ScaledMax(p)));
  }

  /** An accepted buy pays in the rounded-up cost with fees, refunds the rest of the budget, and could
  not have bought more for less than the budget. */
  lemma BuyIs(p: Pool, nativeAmount: nat)
    requires CurveFits(p, Max(ScaledSupply(p), ScaledMax(p))) && Buy(p, nativeAmount).Ok? && IsWord(nativeAmount)
    ensures p.curveScaler > 0 && p.totalSupply <= MaxTokensForSale(p)
    ensures var info := Buy(p, nativeAmount).value;
            var n, limit := info.amountOut / GRANULARITY, BuyLimit(p) / GRANULARITY;
            info.amountOut == PurchaseAmount(p, nativeAmount) && info.isBuy && 0 < n <= limit &&
            info.totalSupply == p.totalSupply + info.amountOut &&
            info.nativeBalance == p.nativeBalance + TotalCost(p, n) &&
            nativeAmount == TotalCost(p, n) + info.remainingIn &&
            ScaledSupply(p) + limit <= ScaledMax(p) &&
            (limit < Bits.Pow2(MAX_ITERATIONS) ==> NoneCheaper(p, nativeAmount, n, limit))
  {
    hide PurchaseAmount, CalculateCost, FeeOn, LpThresholdReached, MaxTokensForSale, Add, Sub, CurveFits, TotalCost,
      RawCost, NoneCheaper, Bits.Pow2, IsWord, BuyLimit;
    if MaxTokensForSale(p) < p.totalSupply {
      BuyPastMaximumFails(p, nativeAmount);
    }
    SearchFits(p);
    PurchaseIsBest(p, nativeAmount);
    var tokenAmount := PurchaseAmount(p, nativeAmount);
    var n := tokenAmount / GRANULARITY;
    CurveFitsMono(p, ScaledSupply(p) + n, ScaledSupply(p) + BuyLimit(p) / GRANULARITY);
    CostIs(p, n, tokenAmount);
    DifferenceFits(nativeAmount, TotalCost(p, n));
  }

  lemma BuyStaysBelowMaximum(p: Pool, nativeAmount: nat)
    requires CurveFits(p, Max(ScaledSupply(p), ScaledMax(p))) && IsWord(nativeAmount) && Buy(p, nativeAmount).Ok?
    ensures p.totalSupply + PurchaseAmount(p, nativeAmount) <= MaxTokensForSale(p)
  {
    hide CurveFits, Buy, TotalCost, RawCost, IsWord, MaxTokensForSale, NoneCheaper, Bits.Pow2, CalculateCostWithFees,
      Search;
    BuyIs(p, nativeAmount);
    SearchFits(p);
    if nativeAmount <= CalculateCostWithFees(p, BuyLimit(p)) {
      WholeTokens(Search(p, nativeAmount, 0, BuyLimit(p) / GRANULARITY, MAX_ITERATIONS));
    }
  }

  /** The fractions of a token in the supply and in the purchase make up a whole one, which the curve has
  not been paid for. */
  predicate Carries(p: Pool, tokenAmount: nat) {
    p.totalSupply % GRANULARITY + tokenAmount % GRANULARITY >= GRANULARITY
  }

  /** The maximum has a smaller fraction of a token than the supply, and the budget exceeds buying it out. */
  predicate BuysOutAcross(p: Pool, nativeAmount: nat) {
    nativeAmount > CalculateCostWithFees(p, BuyLimit(p)) &&
      MaxTokensForSale(p) % GRANULARITY < p.totalSupply % GRANULARITY
  }

  lemma CarriesIff(p: Pool, nativeAmount: nat)
    requires p.totalSupply <= MaxTokensForSale(p)
    ensures Carries(p, PurchaseAmount(p, nativeAmount)) <==> BuysOutAcross(p, nativeAmount)
  {
    hide CalculateCostWithFees, MaxTokensForSale, Search;
    if nativeAmount > CalculateCostWithFees(p, BuyLimit(p)) {
      DifferenceFraction(p.totalSupply, MaxTokensForSale(p));
    } else {
      WholeTokens(Search(p, nativeAmount, 0, BuyLimit(p) / GRANULARITY, MAX_ITERATIONS));
    }
  }

  lemma DifferenceFraction(x: nat, y: nat)
    requires x <= y
    ensures x % GRANULARITY + (y - x) % GRANULARITY >= GRANULARITY <==> y % GRANULARITY < x % GRANULARITY
  {
  }

  lemma CostCovers(p: Pool, n: nat)
    requires p.curveScaler > 0
    ensures 6 * p.curveScaler * RawCost(p, n) >= AreaOf(p, ScaledSupply(p) + n) - AreaOf(p, ScaledSupply(p)) >= 0
    ensures 6 * p.curveScaler * RawCost(p, n) <
            AreaOf(p, ScaledSupply(p) + n) - AreaOf(p, ScaledSupply(p)) + 6 * p.curveScaler
    ensures RawCost(p, n) <= TotalCost(p, n)
  {
    hide Area, CeilDiv, Fee;
    var k := 6 * p.curveScaler;
    AreaMono(ScaledSupply(p), ScaledSupply(p) + n, p.a, p.b);
    var d, c := AreaOf(p, ScaledSupply(p) + n) - AreaOf(p, ScaledSupply(p)), RawCost(p, n);
    CeilAtMost(d, k, c);
    CeilAtMost(d, k, c - 1);
    assert k * (c - 1) == k * c - k;
  }

  lemma BalanceGrows(k: nat, balance: nat, raw: nat, paid: nat)
    requires raw <= paid
    ensures k * (balance + paid) >= k * balance + k * raw
  {
    MulMono(raw, paid, k);
    assert k * (balance + paid) == k * balance + k * paid;
  }

  /** Without a carry the supply grows by the whole tokens bought. */
  lemma SupplyAfter(p: Pool, info: SwapInfo)
    requires info.totalSupply == p.totalSupply + info.amountOut
    ensures var q := Updated(p, info);
            && ScaledSupply(q) == ScaledSupply(p) + info.amountOut / GRANULARITY +
              (if Carries(p, info.amountOut) then 1 else 0)
            && q.nativeBalance == info.nativeBalance && q.curveScaler == p.curveScaler && q.a == p.a && q.b == p.b
            && AreaOf(q, ScaledSupply(q)) == AreaOf(p, ScaledSupply(q)) && MaxTokensForSale(q) == MaxTokensForSale(p)
  {
    hide LpThresholdReached, Area;
    ScaledSum(p.totalSupply, info.amountOut);
  }

  /** Balance and price of buying out the maximum cover the token that the two fractions complete as well. */
  predicate CoversCarry(p: Pool)
    requires p.curveScaler > 0
  {
    var n := BuyLimit(p) / GRANULARITY;
    6 * p.curveScaler * (p.nativeBalance + TotalCost(p, n)) >= AreaOf(p, ScaledSupply(p) + n + 1)
  }

  predicate LeavesSolvent(p: Pool, nativeAmount: nat)
    requires p.curveScaler > 0
  {
    BuysOutAcross(p, nativeAmount) ==> CoversCarry(p)
  }

  /** A buy keeps the pool solvent exactly when it does not buy out the maximum across a token boundary, or the
      balance pays for the token completed there. */
  lemma BuyKeepsSolventIff(p: Pool, nativeAmount: nat)
    requires Healthy(p) && IsWord(nativeAmount) && Buy(p, nativeAmount).Ok?
    ensures p.curveScaler > 0
    ensures Solvent(Updated(p, Buy(p, nativeAmount).value)) <==> LeavesSolvent(p, nativeAmount)
    ensures ScaledSupply(Updated(p, Buy(p, nativeAmount).value)) <= ScaledMax(p)
  {
    hide CurveFits, Area, Buy, TotalCost, RawCost, IsWord, BuysOutAcross, LpThresholdReached, MaxTokensForSale,
      NoneCheaper, Bits.Pow2, Carries, PurchaseAmount, BuyLimit;
    BuyIs(p, nativeAmount);
    CarriesIff(p, nativeAmount);
    var info := Buy(p, nativeAmount).value;
    var n := info.amountOut / GRANULARITY;
    SupplyAfter(p, info);
    BuyStaysBelowMaximum(p, nativeAmount);
    ScaledMono(info.totalSupply, MaxTokensForSale(p));
    if BuysOutAcross(p, nativeAmount) {
      BoughtOut(p, nativeAmount);
    } else {
      CostCovers(p, n);
      BalanceGrows(6 * p.curveScaler, p.nativeBalance, RawCost(p, n), TotalCost(p, n));
    }
  }

  lemma BoughtOut(p: Pool, nativeAmount: nat)
    requires BuysOutAcross(p, nativeAmount)
    ensures PurchaseAmount(p, nativeAmount) == BuyLimit(p)
  {
    hide CalculateCostWithFees, MaxTokensForSale, Search, BuyLimit;
  }

  /** With no fees and no surplus beyond rounding no such buy-out is covered, once the next token is worth more
      than two units of rounding. */
  lemma TightBuyOutBreaks(p: Pool, nativeAmount: nat)
    requires Healthy(p) && IsWord(nativeAmount) && Buy(p, nativeAmount).Ok? && BuysOutAcross(p, nativeAmount)
    requires TotalFeePoints(p) == 0 &&
             6 * p.curveScaler * p.nativeBalance < AreaOf(p, ScaledSupply(p)) + 6 * p.curveScaler
    requires var n := BuyLimit(p) / GRANULARITY;
             AreaOf(p, ScaledSupply(p) + n) + 12 * p.curveScaler <= AreaOf(p, ScaledSupply(p) + n + 1)
    ensures !Solvent(Updated(p, Buy(p, nativeAmount).value))
  {
    hide Healthy, Solvent, Area, Buy, RawCost, IsWord, BuysOutAcross, BuyLimit, Fee, Updated;
    BuyKeepsSolventIff(p, nativeAmount);
    var n := BuyLimit(p) / GRANULARITY;
    CostCovers(p, n);
    NoFee(RawCost(p, n));
    ShortBalance(6 * p.curveScaler, p.nativeBalance, RawCost(p, n), AreaOf(p, ScaledSupply(p)),
      AreaOf(p, ScaledSupply(p) + n));
  }

  lemma ShortBalance(k: nat, balance: nat, raw: nat, before: nat, after: nat)
    requires k * balance < before + k && k * raw < after - before + k
    ensures k * (balance + raw) < after + 2 * k
  {
    assert k * (balance + raw) == k * balance + k * raw;
  }

  lemma NoFee(costs: nat)
    ensures Fee(costs, 0, 0, 0) == 0
  {
  }

  // ----- runs

  /** One trade: quoted, and applied when the quote succeeds. */
  function After(p: Pool, trade: Trade): Pool {
    var quote := Quote(p, trade);
    if quote.Ok? then Updated(p, quote.value) else p
  }

  function Run(p: Pool, trades: seq<Trade>): Pool
    decreases |trades|
  {
    if trades == [] then p else Run(After(p, trades[0]), trades[1..])
  }

  lemma HealthyScaler(p: Pool)
    requires Healthy(p)
    ensures p.curveScaler > 0
  {
  }

  /** One trade keeps the pool healthy exactly when it is not a buy that leaves the balance short. */
  lemma StepKeepsHealthIff(p: Pool, trade: Trade)
    requires Healthy(p) && (trade.BuyWith? ==> IsWord(trade.nativeAmount))
    ensures p.curveScaler > 0
    ensures Healthy(After(p, trade)) <==>
            (trade.BuyWith? && Quote(p, trade).Ok? ==> LeavesSolvent(p, trade.nativeAmount))
  {
    hide CurveFits, Solvent, Buy, Sell, IsWord, LeavesSolvent, MaxTokensForSale;
    HealthyScaler(p);
    var top, q := Max(ScaledSupply(p), ScaledMax(p)), After(p, trade);
    SameMaximum(p, q, top);
    CurveFitsMono(p, ScaledSupply(p), top);
    if Quote(p, trade).Ok? {
      match trade
      case BuyWith(native) =>
        BuyKeepsSolventIff(p, native);
      case SellTokens(amount) =>
        SellKeepsSolvent(p, amount);
    }
    CurveFitsMono(q, Max(ScaledSupply(q), ScaledMax(q)), top);
  }

  /** Nothing but supply, balance and deployment ever changes. */
  lemma SameMaximum(p: Pool, q: Pool, top: nat)
    requires q == p.(totalSupply := q.totalSupply, nativeBalance := q.nativeBalance, lpDeployed := q.lpDeployed)
    ensures MaxTokensForSale(q) == MaxTokensForSale(p) && (CurveFits(q, top) <==> CurveFits(p, top))
  {
  }

  predicate Budgets(trades: seq<Trade>) {
    forall k :: 0 <= k < |trades| && trades[k].BuyWith? ==> IsWord(trades[k].nativeAmount)
  }

  /** No accepted buy of the run leaves the balance of the pool it meets short. */
  predicate BuysCovered(p: Pool, trades: seq<Trade>)
    requires p.curveScaler > 0
    decreases |trades|
  {
    trades == [] ||
      ((trades[0].BuyWith? && Quote(p, trades[0]).Ok? ==> LeavesSolvent(p, trades[0].nativeAmount)) &&
       BuysCovered(After(p, trades[0]), trades[1..]))
  }

  /** Every pool that the run passes through is healthy. */
  predicate HealthyThroughout(p: Pool, trades: seq<Trade>)
    decreases |trades|
  {
    Healthy(p) && (trades == [] || HealthyThroughout(After(p, trades[0]), trades[1..]))
  }

  /** Over any run, fractional sells included, the pool stays healthy exactly when every accepted buy is covered. */
  lemma {:induction false} RunStaysHealthyIff(p: Pool, trades: seq<Trade>)
    requires Healthy(p) && Budgets(trades)
    ensures p.curveScaler > 0
    ensures HealthyThroughout(p, trades) <==> BuysCovered(p, trades)
    decreases |trades|
  {
    hide Healthy, After, LeavesSolvent, IsWord, Quote;
    HealthyScaler(p);
    if trades != [] {
      var q, rest := After(p, trades[0]), trades[1..];
      assert trades[0].BuyWith? ==> IsWord(trades[0].nativeAmount);
      assert forall k :: 0 <= k < |rest| ==> rest[k] == trades[k + 1];
      StepKeepsHealthIff(p, trades[0]);
      if Healthy(q) {
        RunStaysHealthyIff(q, rest);
      } else {
        Unhealthy(q, rest);
      }
    }
  }

  lemma Unhealthy(p: Pool, trades: seq<Trade>)
    requires !Healthy(p)
    ensures !HealthyThroughout(p, trades)
  {
    hide Healthy;
  }

  predicate WholeTokenSells(trades: seq<Trade>) {
    forall k :: 0 <= k < |trades| ==>
      match trades[k]
      case BuyWith(native) => IsWord(native)
      case SellTokens(amount) => amount % GRANULARITY == 0
  }

  /** The supply's fraction of a token is at most the maximum's. */
  predicate Aligned(p: Pool) {
    p.totalSupply % GRANULARITY <= MaxTokensForSale(p) % GRANULARITY
  }

  lemma StepKeepsAligned(p: Pool, trade: Trade)
    requires CurveFits(p, Max(ScaledSupply(p), ScaledMax(p))) && Aligned(p)
    requires trade.BuyWith? ==> IsWord(trade.nativeAmount)
    requires trade.SellTokens? ==> trade.tokenAmount % GRANULARITY == 0
    ensures Aligned(After(p, trade))
  {
    hide CurveFits, Buy, Sell, CalculateCostWithFees, IsWord, Search, MaxTokensForSale, LpThresholdReached,
      NoneCheaper, Bits.Pow2, TotalCost;
    var q := After(p, trade);
    SameMaximum(p, q, 0);
    if Quote(p, trade).Ok? {
      match trade
      case BuyWith(native) =>
        BuyIs(p, native);
        if native <= CalculateCostWithFees(p, BuyLimit(p)) {
          WholeTokens(Search(p, native, 0, BuyLimit(p) / GRANULARITY, MAX_ITERATIONS));
          SameFraction(p.totalSupply, Search(p, native, 0, BuyLimit(p) / GRANULARITY, MAX_ITERATIONS));
        }
      case SellTokens(amount) =>
        CurveFitsMono(p, ScaledSupply(p), Max(ScaledSupply(p), ScaledMax(p)));
        SellIs(p, amount);
        SameFraction(p.totalSupply, -(amount / GRANULARITY));
    }
  }

  lemma SameFraction(x: int, n: int)
    ensures (x + n * GRANULARITY) % GRANULARITY == x % GRANULARITY
  {
  }

  /** From a solvent, aligned pool no run of buys with any budgets and whole-token sells loses solvency. */
  lemma {:induction false} RunKeepsSolvency(p: Pool, trades: seq<Trade>)
    requires Healthy(p) && Aligned(p) && WholeTokenSells(trades)
    ensures Healthy(Run(p, trades)) && Aligned(Run(p, trades))
    decreases |trades|
  {
    if trades != [] {
      assert trades[0].BuyWith? ==> IsWord(trades[0].nativeAmount);
      assert trades[0].SellTokens? ==> trades[0].tokenAmount % GRANULARITY == 0;
      var rest := trades[1..];
      assert WholeTokenSells(rest) by {
        assert forall k :: 0 <= k < |rest| ==> rest[k] == trades[k + 1];
      }
      hide CurveFits, Solvent, After, MaxTokensForSale, CalculateCostWithFees, IsWord, WholeTokenSells, CoversCarry;
      StepKeepsHealthIff(p, trades[0]);
      StepKeepsAligned(p, trades[0]);
      RunKeepsSolvency(After(p, trades[0]), rest);
    }
  }

  /** Along such a run every sell of at least a token and at most the supply is quoted. */
  lemma SellsAlwaysQuoted(p: Pool, trades: seq<Trade>, tokenAmount: nat)
    requires Healthy(p) && Aligned(p) && WholeTokenSells(trades)
    ensures var q := Run(p, trades);
            !q.isPaused && !q.lpDeployed ==>
              (Quote(q, SellTokens(tokenAmount)).Ok? <==> GRANULARITY <= tokenAmount <= q.totalSupply)
  {
    hide CurveFits, Solvent, Run, Sell, Aligned, WholeTokenSells;
    RunKeepsSolvency(p, trades);
    var q := Run(p, trades);
    CurveFitsMono(q, ScaledSupply(q), Max(ScaledSupply(q), ScaledMax(q)));
    SellAcceptedIff(q, tokenAmount);
  }

  // ----- selling fractions first can lose it

  /** No fees, the price line x², and a maximum of four tokens that does not deploy the pool. */
  function Sample(totalSupply: nat, nativeBalance: nat): Pool {
    Pool(false, true, 8 * GRANULARITY + 1, 50, 0, 0, 0, 1, 0, 1, totalSupply, nativeBalance, false)
  }

  lemma SampleArea(x: nat, square: nat, cube: nat)
    requires square == x * x && cube == square * x
    ensures Area(x, 1, 0) == 2 * cube
  {
    hide Area;
    AreaIs(x, 1, 0);
  }

  lemma SampleFits(x: nat)
    requires x <= 4
    ensures Fits(x, 1, 0, 1, 0)
  {
    hide Area;
    SampleArea(4, 16, 64);
    assert Fits(4, 1, 0, 1, 0);
    FitsMono(x, 4, 1, 0, 1, 0);
  }

  lemma SampleIntegrals()
    ensures IntegralCeil(4, 0, 1, 0, 1) == 22 && IntegralCeil(3, 2, 1, 0, 1) == 7
    ensures IntegralFloor(4, 3, 1, 0, 1) == 12 && IntegralFloor(4, 0, 1, 0, 1) == 21
  {
    hide Area, Fits, IntegralCeil, IntegralFloor;
    SampleArea(0, 0, 0);
    SampleArea(2, 4, 8);
    SampleArea(3, 9, 27);
    SampleArea(4, 16, 64);
    SampleFits(3);
    SampleFits(4);
    IntegralsAre(4, 0, 1, 0, 1, 0);
    IntegralsAre(3, 2, 1, 0, 1, 0);
    IntegralsAre(4, 3, 1, 0, 1, 0);
  }

  lemma SampleTerms(totalSupply: nat, nativeBalance: nat, costs: nat)
    ensures var p := Sample(totalSupply, nativeBalance);
            MaxTokensForSale(p) == 4 * GRANULARITY && FeeOn(p, costs) == 0 && !LpThresholdReached(p, 4 * GRANULARITY)
  {
    TimesIs(8 * GRANULARITY + 1, 50);
    TimesIs(4 * GRANULARITY, 100);
  }

  lemma SampleBuy(totalSupply: nat, nativeBalance: nat, nativeAmount: nat, cost: nat)
    requires totalSupply <= 3 * GRANULARITY && nativeBalance < 1000 && 0 < cost < nativeAmount < 1000
    requires var s, n := totalSupply / GRANULARITY, (4 * GRANULARITY - totalSupply) / GRANULARITY;
             IntegralCeil(s + n, s, 1, 0, 1) == cost
    ensures After(Sample(totalSupply, nativeBalance), BuyWith(nativeAmount)) ==
            Sample(4 * GRANULARITY, nativeBalance + cost)
  {
    hide MaxTokensForSale, FeeOn, LpThresholdReached, IntegralCeil, Search;
    var p := Sample(totalSupply, nativeBalance);
    SampleTerms(totalSupply, nativeBalance, cost);
    assert BuyLimit(p) == 4 * GRANULARITY - totalSupply;
    assert CalculateCostWithFees(p, BuyLimit(p)) == cost;
    assert PurchaseAmount(p, nativeAmount) == 4 * GRANULARITY - totalSupply;
    assert CalculateCost(p, BuyLimit(p) / GRANULARITY) == cost;
    assert Buy(p, nativeAmount).Ok?;
  }

  lemma SampleSell(nativeBalance: nat, tokenAmount: nat, reward: nat)
    requires GRANULARITY <= tokenAmount <= 4 * GRANULARITY &&
             IntegralFloor(4, 4 - tokenAmount / GRANULARITY, 1, 0, 1) == reward
    ensures reward <= nativeBalance ==>
              After(Sample(4 * GRANULARITY, nativeBalance), SellTokens(tokenAmount)) ==
                Sample(4 * GRANULARITY - tokenAmount, nativeBalance - reward)
    ensures reward > nativeBalance ==>
              Quote(Sample(4 * GRANULARITY, nativeBalance), SellTokens(tokenAmount)) == Err(NativeBalance)
  {
    hide IntegralFloor, FeeOn;
    assert ScaledSupply(Sample(4 * GRANULARITY, nativeBalance)) == 4;
  }

  lemma SampleHealth()
    ensures Healthy(Sample(0, 0)) && Aligned(Sample(0, 0)) && !Solvent(Sample(4 * GRANULARITY, 17))
  {
    hide MaxTokensForSale, Fits, Area;
    SampleTerms(0, 0, 0);
    SampleArea(0, 0, 0);
    SampleArea(4, 16, 64);
    SampleFits(4);
    assert ScaledSupply(Sample(0, 0)) == 0 && ScaledSupply(Sample(4 * GRANULARITY, 17)) == 4;
  }

  /** One and a half tokens sold are paid as one; bought back to the maximum they are paid as one again,
  but the supply has grown by two. The balance then cannot pay a sell that is within the supply. */
  lemma FractionalSellThenBuyOutBreaks()
    ensures var p := Sample(0, 0);
            var q := Run(p, [BuyWith(23), SellTokens(3 * GRANULARITY / 2), BuyWith(100)]);
            Healthy(p) && Aligned(p) && !Solvent(q) && !q.lpDeployed &&
            q.totalSupply == 4 * GRANULARITY && Quote(q, SellTokens(4 * GRANULARITY)) == Err(NativeBalance)
  {
    hide After, Quote, Healthy, Aligned, Solvent, Run, IntegralCeil, IntegralFloor;
    SampleIntegrals();
    SampleBuy(0, 0, 23, 22);
    SampleSell(22, 3 * GRANULARITY / 2, 12);
    SampleBuy(5 * GRANULARITY / 2, 10, 100, 7);
    SampleSell(17, 4 * GRANULARITY, 21);
    SampleHealth();
    RunOfThree(Sample(0, 0), BuyWith(23), SellTokens(3 * GRANULARITY / 2), BuyWith(100));
  }

  lemma RunOfThree(p: Pool, t0: Trade, t1: Trade, t2: Trade)
    ensures Run(p, [t0, t1, t2]) == After(After(After(p, t0), t1), t2)
  {
    hide After;
    assert [t0, t1, t2][1..] == [t1, t2] && [t1, t2][1..] == [t2] && [t2][1..] == [];
    var q := After(After(p, t0), t1);
    assert Run(q, [t2]) == Run(After(q, t2), []);
    assert Run(After(p, t0), [t1, t2]) == Run(q, [t2]);
  }
}
