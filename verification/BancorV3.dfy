/** Bancor v3 pool collection: a trade between BNT and a base token by source amount, with a trading fee left
in the pool and a network fee taken out of it in BNT, by a second trade when the fee is in base tokens. */
module BancorV3 {
  import opened Arith
  import opened Words
  import opened Outcomes
  import opened BancorMath

  const PPM: nat := 1_000_000

  const INSUFFICIENT_LIQUIDITY := "insufficient liquidity"
  const INSUFFICIENT_TARGET := "insufficient target amount"
  const TRADE_DISABLED := "trade disabled"

  datatype Liquidity = Liquidity(bnt: nat, base: nat, staked: nat)

  datatype Pool = Pool(tradingFeePPM: nat, tradingEnabled: bool, networkFeePPM: nat, liquidity: Liquidity)

  /** The amounts and balances a trade works on, seen from its source and target side. */
  datatype Trade = Trade(
    sourceAmount: nat, targetAmount: nat, limit: nat, tradingFeeAmount: nat, networkFeeAmount: nat,
    sourceBalance: nat, targetBalance: nat, stakedBalance: nat, isSourceBNT: bool, tradingFeePPM: nat)

  datatype AmountAndFee = AmountAndFee(amount: nat, tradingFee: nat)

  // ----- the trade

  function AmountAndFeeBySource(source: nat, target: nat, feePPM: nat, sourceAmount: nat): Result<AmountAndFee> {
    if source == 0 || target == 0 then Err(INSUFFICIENT_LIQUIDITY)
    else
      var full := FloorDivided(target, sourceAmount, Add(source, sourceAmount));
      if full.Err? then Err(full.error)
      else
        var fee := FloorDivided(full.value, feePPM, PPM);
        if fee.Err? then Err(fee.error) else Ok(AmountAndFee(Sub(full.value, fee.value), fee.value))
  }

  function WithNetworkFee(t: Trade, networkFeePPM: nat): Result<Trade> {
    if networkFeePPM == 0 then Ok(t)
    else
      var share := FloorDivided(t.tradingFeeAmount, networkFeePPM, PPM);
      if share.Err? then Err(share.error)
      else
        var target := Sub(t.targetBalance, share.value);
        if !t.isSourceBNT then Ok(t.(targetBalance := target, networkFeeAmount := share.value))
        else
          var inBNT := AmountAndFeeBySource(target, t.sourceBalance, 0, share.value);
          if inBNT.Err? then Err(inBNT.error)
          else
            Ok(t.(networkFeeAmount := inBNT.value.amount,
                  targetBalance := Add(target, share.value),
                  sourceBalance := Sub(t.sourceBalance, inBNT.value.amount),
                  stakedBalance := Sub(t.stakedBalance, share.value)))
  }

  function Traded(t: Trade, networkFeePPM: nat): Result<Trade> {
    var r := AmountAndFeeBySource(t.sourceBalance, t.targetBalance, t.tradingFeePPM, t.sourceAmount);
    if r.Err? then Err(r.error)
    else if r.value.amount < t.limit then Err(INSUFFICIENT_TARGET)
    else
      WithNetworkFee(
        t.(targetAmount := r.value.amount, tradingFeeAmount := r.value.tradingFee,
           sourceBalance := Add(t.sourceBalance, t.sourceAmount),
           targetBalance := Sub(t.targetBalance, r.value.amount),
           stakedBalance := if t.isSourceBNT then Add(t.stakedBalance, r.value.tradingFee) else t.stakedBalance),
        networkFeePPM)
  }

  predicate AreWords(t: Trade) {
    IsWord(t.sourceAmount) && IsWord(t.targetAmount) && IsWord(t.tradingFeeAmount) && IsWord(t.sourceBalance) &&
    IsWord(t.targetBalance) && IsWord(t.stakedBalance) && IsWord(t.tradingFeePPM)
  }

  lemma WordResults(x: nat, y: nat)
    ensures IsWord(Add(x, y)) && IsWord(Sub(x, y)) && IsWord(PPM) && IsWord(0)
  {
  }

  lemma QuotientIsWord(x: nat, y: nat, z: nat)
    ensures FloorDivided(x, y, z).Ok? ==> IsWord(FloorDivided(x, y, z).value)
  {
    hide IsWord, Div, Times;
    if z == 0 {
      WordResults(0, 0);
    }
  }

  method TradeAmountAndFeeBySource(source: nat, target: nat, feePPM: nat,
      sourceAmount: nat) returns (r: Result<AmountAndFee>)
    requires IsWord(source) && IsWord(target) && IsWord(feePPM) && IsWord(sourceAmount)
    ensures r == AmountAndFeeBySource(source, target, feePPM, sourceAmount)
    ensures r.Ok? ==> IsWord(r.value.amount) && IsWord(r.value.tradingFee)
  {
    hide IsWord, FloorDivided, Add, Sub;
    if source == 0 || target == 0 {
      return Err(INSUFFICIENT_LIQUIDITY);
    }
    WordResults(source, sourceAmount);
    var full := MulDivF(target, sourceAmount, Add(source, sourceAmount));
    if full.Err? {
      return Err(full.error);
    }
    QuotientIsWord(target, sourceAmount, Add(source, sourceAmount));
    var fee := MulDivF(full.value, feePPM, PPM);
    if fee.Err? {
      return Err(fee.error);
    }
    QuotientIsWord(full.value, feePPM, PPM);
    WordResults(full.value, fee.value);
    return Ok(AmountAndFee(Sub(full.value, fee.value), fee.value));
  }

  /** The working record of one trade, updated step by step. */
  class TradeResult {
    var sourceAmount: nat
    var targetAmount: nat
    var limit: nat
    var tradingFeeAmount: nat
    var networkFeeAmount: nat
    var sourceBalance: nat
    var targetBalance: nat
    var stakedBalance: nat
    const isSourceBNT: bool
    const tradingFeePPM: nat

    constructor (t: Trade)
      ensures State() == t
    {
      sourceAmount, targetAmount, limit := t.sourceAmount, t.targetAmount, t.limit;
      tradingFeeAmount, networkFeeAmount := t.tradingFeeAmount, t.networkFeeAmount;
      sourceBalance, targetBalance, stakedBalance := t.sourceBalance, t.targetBalance, t.stakedBalance;
      isSourceBNT, tradingFeePPM := t.isSourceBNT, t.tradingFeePPM;
    }

    function State(): Trade
      reads this
    {
      Trade(sourceAmount, targetAmount, limit, tradingFeeAmount, networkFeeAmount,
            sourceBalance, targetBalance, stakedBalance, isSourceBNT, tradingFeePPM)
    }

    method ProcessNetworkFee(networkFeePPM: nat) returns (error: Result<()>)
      requires AreWords(State()) && IsWord(networkFeePPM)
      modifies this
      ensures match WithNetworkFee(old(State()), networkFeePPM)
              case Ok(t) => error.Ok? && State() == t
              case Err(e) => error == Err(e)
    {
      hide FloorDivided, AmountAndFeeBySource, Add, Sub, IsWord;
      if networkFeePPM == 0 {
        return Ok(());
      }
      WordResults(0, 0);
      var share := MulDivF(tradingFeeAmount, networkFeePPM, PPM);
      if share.Err? {
        return Err(share.error);
      }
      QuotientIsWord(tradingFeeAmount, networkFeePPM, PPM);
      WordResults(targetBalance, share.value);
      targetBalance := Sub(targetBalance, share.value);
      if !isSourceBNT {
        networkFeeAmount := share.value;
        return Ok(());
      }
      var inBNT := TradeAmountAndFeeBySource(targetBalance, sourceBalance, 0, share.value);
      if inBNT.Err? {
        return Err(inBNT.error);
      }
      networkFeeAmount := inBNT.value.amount;
      targetBalance := Add(targetBalance, share.value);
      sourceBalance := Sub(sourceBalance, networkFeeAmount);
      stakedBalance := Sub(stakedBalance, share.value);
      return Ok(());
    }

    method ProcessTrade(networkFeePPM: nat) returns (error: Result<()>)
      requires AreWords(State()) && IsWord(networkFeePPM)
      modifies this
      ensures match Traded(old(State()), networkFeePPM)
              case Ok(t) => error.Ok? && State() == t
              case Err(e) => error == Err(e)
    {
      hide AmountAndFeeBySource, Add, Sub, WithNetworkFee, IsWord;
      var r := TradeAmountAndFeeBySource(sourceBalance, targetBalance, tradingFeePPM, sourceAmount);
      if r.Err? {
        return Err(r.error);
      }
      targetAmount := r.value.amount;
      if targetAmount < limit {
        return Err(INSUFFICIENT_TARGET);
      }
      tradingFeeAmount := r.value.tradingFee;
      WordResults(sourceBalance, sourceAmount);
      WordResults(targetBalance, targetAmount);
      WordResults(stakedBalance, tradingFeeAmount);
      sourceBalance := Add(sourceBalance, sourceAmount);
      targetBalance := Sub(targetBalance, targetAmount);
      if isSourceBNT {
        stakedBalance := Add(stakedBalance, tradingFeeAmount);
      }
      error := ProcessNetworkFee(networkFeePPM);
    }
  }

  // ----- what a trade keeps

  /** The floored share of an amount at a rate of at most one. */
  lemma ShareWithin(amount: nat, rate: nat)
    requires rate <= PPM && IsWord(amount)
    ensures amount * rate >= 0 && 0 <= amount * rate / PPM <= amount
    ensures FloorDivided(amount, rate, PPM) == Ok(amount * rate / PPM)
  {
    hide IsWord, FloorDivided;
    NonNegative(amount, rate);
    MulMono(rate, PPM, amount);
    FloorAtLeast(amount * rate, PPM, amount + 1);
    FloorDividedIs(amount, rate, PPM, amount * rate);
    WordMono(amount * rate / PPM, amount);
  }

  /** Paying out the floored quotient keeps the product of the balances, and never the whole target. */
  lemma PayoutKeepsProduct(source: nat, target: nat, x: nat)
    requires source > 0 && target > 0
    ensures target * x >= 0 && 0 <= target * x / (source + x) < target
    ensures (source + x) * (target - target * x / (source + x)) >= source * target
  {
    var n, d := target * x, source + x;
    NonNegative(target, x);
    DivNat(n, d);
    var full := n / d;
    FloorAtLeast(n, d, full);
    MulAtLeast(target, source);
    assert d * target == source * target + target * x;
    FloorAtLeast(n, d, target);
    assert d * (target - full) == d * target - d * full;
  }

  lemma BySourceIs(source: nat, target: nat, feePPM: nat, x: nat)
    requires source > 0 && target > 0 && IsWord(source + x) && IsWord(target) && feePPM <= PPM
    ensures var r := AmountAndFeeBySource(source, target, feePPM, x);
            r.Ok? && r.value.amount + r.value.tradingFee < target && (feePPM == 0 ==> r.value.tradingFee == 0) &&
            r.value.amount + r.value.tradingFee == target * x / (source + x) &&
            r.value.tradingFee == (r.value.amount + r.value.tradingFee) * feePPM / PPM &&
            (source + x) * (target - (r.value.amount + r.value.tradingFee)) >= source * target
  {
    hide IsWord, Add, Sub, FloorDivided;
    SumFits(source, x);
    PayoutKeepsProduct(source, target, x);
    var full := target * x / (source + x);
    WordMono(full, target);
    QuotientIs(target, x, source + x);
    ShareWithin(full, feePPM);
    DifferenceFits(full, full * feePPM / PPM);
  }

  lemma QuotientIs(x: nat, y: nat, z: nat)
    requires z > 0 && x * y / z >= 0 && IsWord(x * y / z)
    ensures FloorDivided(x, y, z) == Ok(x * y / z)
  {
    hide IsWord, FloorDivided;
    NonNegative(x, y);
    FloorDividedIs(x, y, z, x * y);
  }

  /** A trade whose balances fit words, at rates of at most one. */
  predicate TradeFits(t: Trade, networkFeePPM: nat) {
    IsWord(t.sourceBalance + t.sourceAmount) && IsWord(t.targetBalance) && IsWord(t.stakedBalance + t.targetBalance) &&
    t.tradingFeePPM <= PPM && networkFeePPM <= PPM
  }

  /** The two fees and the payment are the exact floored shares. */
  ghost predicate PaysExactly(t: Trade, r: Trade, networkFeePPM: nat)
    requires t.sourceBalance > 0
  {
    var full, share := r.targetAmount + r.tradingFeeAmount, r.tradingFeeAmount * networkFeePPM / PPM;
    && full == t.targetBalance * t.sourceAmount / (t.sourceBalance + t.sourceAmount)
    && r.tradingFeeAmount == full * t.tradingFeePPM / PPM
    && (if t.isSourceBNT
        then r.stakedBalance + share == t.stakedBalance + r.tradingFeeAmount && r.targetBalance > 0 &&
             r.networkFeeAmount == (t.sourceBalance + t.sourceAmount) * share / r.targetBalance
        else r.networkFeeAmount == share)
  }

  /** The balances account for every amount, and neither their product nor the stake falls. */
  ghost predicate Keeps(t: Trade, r: Trade) {
    && r.sourceBalance * r.targetBalance >= t.sourceBalance * t.targetBalance
    && r.stakedBalance >= t.stakedBalance
    && r.sourceAmount == t.sourceAmount && t.limit <= r.targetAmount && r.isSourceBNT == t.isSourceBNT
    && (if t.isSourceBNT
        then r.sourceBalance + r.networkFeeAmount == t.sourceBalance + t.sourceAmount &&
             r.targetBalance + r.targetAmount == t.targetBalance
        else r.sourceBalance == t.sourceBalance + t.sourceAmount &&
             r.targetBalance + r.targetAmount + r.networkFeeAmount == t.targetBalance &&
               r.stakedBalance == t.stakedBalance)
    && r.sourceBalance > 0 && r.targetBalance > 0
  }

  /** Taking the network fee costs the product at most what the trading fee had added. */
  ghost predicate FeeTaken(t: Trade, r: Trade, share: nat) {
    && r.sourceBalance > 0 && r.targetBalance > 0
    && r.sourceBalance * r.targetBalance >= t.sourceBalance * (t.targetBalance - t.tradingFeeAmount)
    && r == t.(networkFeeAmount := r.networkFeeAmount, sourceBalance := r.sourceBalance,
               targetBalance := r.targetBalance, stakedBalance := r.stakedBalance)
    && (if t.isSourceBNT
        then r.sourceBalance + r.networkFeeAmount == t.sourceBalance && r.targetBalance == t.targetBalance &&
             r.stakedBalance + share == t.stakedBalance &&
               r.networkFeeAmount == t.sourceBalance * share / t.targetBalance
        else r.sourceBalance == t.sourceBalance && r.targetBalance + share == t.targetBalance &&
             r.stakedBalance == t.stakedBalance && r.networkFeeAmount == share)
    && share <= t.tradingFeeAmount
  }

  function NetworkShare(t: Trade, networkFeePPM: nat): nat {
    NonNegative(t.tradingFeeAmount, networkFeePPM);
    DivNat(t.tradingFeeAmount * networkFeePPM, PPM);
    t.tradingFeeAmount * networkFeePPM / PPM
  }

  lemma NoShare(s: nat, d: nat)
    requires d > 0
    ensures s * 0 / d == 0
  {
    DivModUnique(0, d, 0, 0);
  }

  lemma NetworkFeeKeeps(t: Trade, networkFeePPM: nat)
    requires t.sourceBalance > 0 && t.tradingFeeAmount < t.targetBalance && networkFeePPM <= PPM &&
             t.networkFeeAmount == 0
    requires IsWord(t.sourceBalance) && IsWord(t.targetBalance) && IsWord(t.stakedBalance)
    requires t.isSourceBNT ==> t.tradingFeeAmount <= t.stakedBalance
    ensures WithNetworkFee(t, networkFeePPM).Ok? &&
            FeeTaken(t, WithNetworkFee(t, networkFeePPM).value, NetworkShare(t, networkFeePPM))
  {
    hide IsWord, Add, Sub, FloorDivided, AmountAndFeeBySource;
    if networkFeePPM == 0 {
      MulMono(t.targetBalance - t.tradingFeeAmount, t.targetBalance, t.sourceBalance);
      NoShare(t.sourceBalance, t.targetBalance);
    } else if t.isSourceBNT {
      FeeThroughTrade(t, networkFeePPM);
    } else {
      FeeTakenDirectly(t, networkFeePPM);
    }
  }

  lemma FeeTakenDirectly(t: Trade, networkFeePPM: nat)
    requires t.sourceBalance > 0 && t.tradingFeeAmount < t.targetBalance && 0 < networkFeePPM <= PPM
    requires IsWord(t.targetBalance) && !t.isSourceBNT
    ensures WithNetworkFee(t, networkFeePPM).Ok?
    ensures FeeTaken(t, WithNetworkFee(t, networkFeePPM).value, NetworkShare(t, networkFeePPM))
  {
    hide IsWord, Sub, FloorDivided, AmountAndFeeBySource;
    WordMono(t.tradingFeeAmount, t.targetBalance);
    ShareWithin(t.tradingFeeAmount, networkFeePPM);
    var share := NetworkShare(t, networkFeePPM);
    DifferenceFits(t.targetBalance, share);
    MulMono(t.targetBalance - t.tradingFeeAmount, t.targetBalance - share, t.sourceBalance);
  }

  lemma FeeThroughTrade(t: Trade, networkFeePPM: nat)
    requires t.sourceBalance > 0 && t.tradingFeeAmount < t.targetBalance && 0 < networkFeePPM <= PPM && t.isSourceBNT
    requires IsWord(t.sourceBalance) && IsWord(t.targetBalance) && IsWord(t.stakedBalance)
    requires t.tradingFeeAmount <= t.stakedBalance
    ensures WithNetworkFee(t, networkFeePPM).Ok?
    ensures FeeTaken(t, WithNetworkFee(t, networkFeePPM).value, NetworkShare(t, networkFeePPM))
  {
    hide IsWord, Add, Sub, FloorDivided, AmountAndFeeBySource;
    var fee, S, T := t.tradingFeeAmount, t.sourceBalance, t.targetBalance;
    WordMono(fee, T);
    ShareWithin(fee, networkFeePPM);
    var share := NetworkShare(t, networkFeePPM);
    hide NetworkShare;
    DifferenceFits(T, share);
    BySourceIs(T - share, S, 0, share);
    var paid := AmountAndFeeBySource(T - share, S, 0, share).value.amount;
    SumFits(T - share, share);
    DifferenceFits(S, paid);
    DifferenceFits(t.stakedBalance, share);
    MulMono(T - fee, T - share, S);
    assert (S - paid) * T == T * (S - paid);
    assert (T - share) * S == S * (T - share);
  }

  /** A trade goes through exactly when both sides hold liquidity and it pays the limit; the nested trade of
  the network fee never fails. It keeps the product and the stake and accounts for every amount. */
  lemma TradeKeeps(t: Trade, networkFeePPM: nat)
    requires TradeFits(t, networkFeePPM) && t.networkFeeAmount == 0
    ensures Traded(t, networkFeePPM).Ok? ==>
              t.sourceBalance > 0 && Keeps(t, Traded(t, networkFeePPM).value) &&
                PaysExactly(t, Traded(t, networkFeePPM).value, networkFeePPM)
    ensures var quoted := AmountAndFeeBySource(t.sourceBalance, t.targetBalance, t.tradingFeePPM, t.sourceAmount);
            (quoted.Ok? <==> t.sourceBalance > 0 && t.targetBalance > 0) &&
            (Traded(t, networkFeePPM).Ok? <==> quoted.Ok? && quoted.value.amount >= t.limit)
  {
    hide IsWord, Add, Sub, FloorDivided, WithNetworkFee;
    if t.sourceBalance == 0 || t.targetBalance == 0 {
      return;
    }
    var S, T, x := t.sourceBalance, t.targetBalance, t.sourceAmount;
    BySourceIs(S, T, t.tradingFeePPM, x);
    var r := AmountAndFeeBySource(S, T, t.tradingFeePPM, x).value;
    hide AmountAndFeeBySource;
    SumFits(S, x);
    DifferenceFits(T, r.amount);
    WordMono(T - r.amount, T);
    WordMono(t.stakedBalance + r.tradingFee, t.stakedBalance + T);
    WordMono(t.stakedBalance, t.stakedBalance + T);
    SumFits(t.stakedBalance, r.tradingFee);
    var mid := t.(targetAmount := r.amount, tradingFeeAmount := r.tradingFee, sourceBalance := S + x,
      targetBalance := T - r.amount,
                  stakedBalance := if t.isSourceBNT then t.stakedBalance + r.tradingFee else t.stakedBalance);
    if r.amount >= t.limit {
      NetworkFeeKeeps(mid, networkFeePPM);
    }
  }

  // ----- the pool

  function TradeOf(p: Pool, isSourceBNT: bool, amount: nat, limit: nat, ignoreFees: bool): Trade {
    Trade(amount, 0, limit, 0, 0,
          if isSourceBNT then p.liquidity.bnt else p.liquidity.base,
          if isSourceBNT then p.liquidity.base else p.liquidity.bnt,
          p.liquidity.staked, isSourceBNT, if ignoreFees then 0 else p.tradingFeePPM)
  }

  function LiquidityOf(t: Trade): Liquidity {
    if t.isSourceBNT then Liquidity(t.sourceBalance, t.targetBalance, t.stakedBalance)
    else Liquidity(t.targetBalance, t.sourceBalance, t.stakedBalance)
  }

  function TradeBySourceAmount(p: Pool, isSourceBNT: bool, amount: nat, limit: nat, ignoreFees: bool): Result<Trade> {
    if !p.tradingEnabled then Err(TRADE_DISABLED)
    else Traded(TradeOf(p, isSourceBNT, amount, limit, ignoreFees), p.networkFeePPM)
  }

  datatype Order = Order(isSourceBNT: bool, amount: nat, limit: nat, ignoreFees: bool)

  /** The pool after one order: the new liquidity when the trade succeeds. */
  function After(p: Pool, o: Order): Pool {
    var r := TradeBySourceAmount(p, o.isSourceBNT, o.amount, o.limit, o.ignoreFees);
    if r.Ok? then p.(liquidity := LiquidityOf(r.value)) else p
  }

  // ----- what a trade on the pool pays, in the pool's own terms

  /** BNT in, base token out: the payment with its trading fee is the exact share of the base side. The BNT side grows
      by the amount less the network fee, which is the trading fee's share sold back for BNT; the base side pays
      out; the rest of the trading fee is staked. */
  lemma BntBuysBase(p: Pool, x: nat, limit: nat, ignoreFees: bool)
    requires IsWord(p.liquidity.bnt + x) && IsWord(p.liquidity.staked + p.liquidity.base) && IsWord(p.liquidity.base)
    requires p.tradingFeePPM <= PPM && p.networkFeePPM <= PPM
    requires TradeBySourceAmount(p, true, x, limit, ignoreFees).Ok?
    ensures p.tradingEnabled && p.liquidity.bnt > 0 && p.liquidity.base > 0
    ensures var r := TradeBySourceAmount(p, true, x, limit, ignoreFees).value;
            var full := r.targetAmount + r.tradingFeeAmount;
            var share := r.tradingFeeAmount * p.networkFeePPM / PPM;
            var q := After(p, Order(true, x, limit, ignoreFees)).liquidity;
            && full == p.liquidity.base * x / (p.liquidity.bnt + x)
            && r.tradingFeeAmount == full * (if ignoreFees then 0 else p.tradingFeePPM) / PPM
            && r.targetAmount >= limit
            && q.base + r.targetAmount == p.liquidity.base && q.base > 0
            && r.networkFeeAmount == (p.liquidity.bnt + x) * share / q.base
            && q.bnt + r.networkFeeAmount == p.liquidity.bnt + x
            && q.staked + share == p.liquidity.staked + r.tradingFeeAmount
  {
    hide Traded, FloorDivided, IsWord;
    TradeKeeps(TradeOf(p, true, x, limit, ignoreFees), p.networkFeePPM);
  }

  /** Base token in, BNT out: the mirror, with the network fee taken out of the BNT side and no change of stake. */
  lemma BaseBuysBnt(p: Pool, x: nat, limit: nat, ignoreFees: bool)
    requires IsWord(p.liquidity.base + x) && IsWord(p.liquidity.staked + p.liquidity.bnt) && IsWord(p.liquidity.bnt)
    requires p.tradingFeePPM <= PPM && p.networkFeePPM <= PPM
    requires TradeBySourceAmount(p, false, x, limit, ignoreFees).Ok?
    ensures p.tradingEnabled && p.liquidity.bnt > 0 && p.liquidity.base > 0
    ensures var r := TradeBySourceAmount(p, false, x, limit, ignoreFees).value;
            var full := r.targetAmount + r.tradingFeeAmount;
            var q := After(p, Order(false, x, limit, ignoreFees)).liquidity;
            && full == p.liquidity.bnt * x / (p.liquidity.base + x)
            && r.tradingFeeAmount == full * (if ignoreFees then 0 else p.tradingFeePPM) / PPM
            && r.targetAmount >= limit
            && r.networkFeeAmount == r.tradingFeeAmount * p.networkFeePPM / PPM
            && q.base == p.liquidity.base + x
            && q.bnt + r.targetAmount + r.networkFeeAmount == p.liquidity.bnt
            && q.staked == p.liquidity.staked
  {
    hide Traded, FloorDivided, IsWord;
    TradeKeeps(TradeOf(p, false, x, limit, ignoreFees), p.networkFeePPM);
  }

  /** A trade is accepted exactly when trading is enabled, both sides hold liquidity and the limit is met by the share
      less the fee on it. */
  lemma AcceptedIff(p: Pool, isSourceBNT: bool, x: nat, limit: nat, ignoreFees: bool)
    requires var source, target := if isSourceBNT then p.liquidity.bnt else p.liquidity.base,
                                   if isSourceBNT then p.liquidity.base else p.liquidity.bnt;
             IsWord(source + x) && IsWord(p.liquidity.staked + target) && IsWord(target)
    requires p.tradingFeePPM <= PPM && p.networkFeePPM <= PPM
    ensures var source, target := if isSourceBNT then p.liquidity.bnt else p.liquidity.base,
                                  if isSourceBNT then p.liquidity.base else p.liquidity.bnt;
            TradeBySourceAmount(p, isSourceBNT, x, limit, ignoreFees).Ok? <==>
              && p.tradingEnabled && source > 0 && target > 0
              && var full := target * x / (source + x);
                 full - full * (if ignoreFees then 0 else p.tradingFeePPM) / PPM >= limit
  {
    hide Traded, FloorDivided, IsWord, AmountAndFeeBySource;
    var t := TradeOf(p, isSourceBNT, x, limit, ignoreFees);
    TradeKeeps(t, p.networkFeePPM);
    if t.sourceBalance > 0 && t.targetBalance > 0 {
      BySourceIs(t.sourceBalance, t.targetBalance, t.tradingFeePPM, x);
    }
  }

  function Run(p: Pool, orders: seq<Order>): Pool
    decreases |orders|
  {
    if orders == [] then p else Run(After(p, orders[0]), orders[1..])
  }

  predicate OrderFits(p: Pool, o: Order) {
    TradeFits(TradeOf(p, o.isSourceBNT, o.amount, o.limit, o.ignoreFees), p.networkFeePPM)
  }

  ghost predicate RunFits(p: Pool, orders: seq<Order>)
    decreases |orders|
  {
    orders == [] || (OrderFits(p, orders[0]) && RunFits(After(p, orders[0]), orders[1..]))
  }

  lemma StepKeepsProduct(p: Pool, o: Order)
    requires OrderFits(p, o)
    ensures var q := After(p, o).liquidity;
            q.bnt * q.base >= p.liquidity.bnt * p.liquidity.base && q.staked >= p.liquidity.staked
  {
    hide Traded, TradeFits;
    TradeKeeps(TradeOf(p, o.isSourceBNT, o.amount, o.limit, o.ignoreFees), p.networkFeePPM);
  }

  /** Over any run of trades in either direction neither the product nor the stake ever falls. */
  lemma {:induction false} RunKeepsProduct(p: Pool, orders: seq<Order>)
    requires RunFits(p, orders)
    ensures var q := Run(p, orders).liquidity;
            q.bnt * q.base >= p.liquidity.bnt * p.liquidity.base && q.staked >= p.liquidity.staked
    decreases |orders|
  {
    hide After, OrderFits;
    if orders != [] {
      StepKeepsProduct(p, orders[0]);
      RunKeepsProduct(After(p, orders[0]), orders[1..]);
    }
  }

  /** No run can take liquidity from one side of a pool without adding to the other. */
  lemma NoSideFallsAlone(p: Pool, orders: seq<Order>)
    requires RunFits(p, orders) && p.liquidity.bnt > 0 && p.liquidity.base > 0
    ensures var q := Run(p, orders).liquidity;
            (q.bnt <= p.liquidity.bnt ==> q.base >= p.liquidity.base) &&
              (q.base <= p.liquidity.base ==> q.bnt >= p.liquidity.bnt)
  {
    hide Run, RunFits;
    RunKeepsProduct(p, orders);
    var q := Run(p, orders).liquidity;
    OtherSide(p.liquidity.bnt, p.liquidity.base, q.bnt, q.base);
    OtherSide(p.liquidity.base, p.liquidity.bnt, q.base, q.bnt);
  }

  lemma OtherSide(a: nat, b: nat, c: nat, d: nat)
    requires a > 0 && c <= a ==> c * d >= a * b
    requires a > 0
    ensures c <= a ==> d >= b
  {
    if c <= a && d < b {
      MulMono(c, a, d);
      MulMono(d + 1, b, a);
    }
  }
}
