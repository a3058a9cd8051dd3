/** What an accepted Alt-Fun quote pays, charges and books, in plain arithmetic. */
module AltFunPays {
  import opened Arith
  import opened Words
  import opened Outcomes
  import opened BounceTech
  import opened AltFun

  // ----- selling

  /** No product of a sell leaves the word range. */
  predicate SellFits(s: Pool, tokenIn: nat) {
    && IsWord(s.reserveToken + tokenIn) && s.reserveToken + tokenIn > 0 && IsWord(s.reserveAsset)
    && IsWord(Times(s.reserveAsset, s.bt.exchangeRate))
    && IsWord(Times(s.bt.usdcReserve, s.bt.redemptionFee))
    && IsWord(Times(Times(s.bt.usdcReserve, s.bt.redemptionFee) / PRECISION, s.bt.targetLeverage))
    && IsWord(Times(s.bt.usdcReserve, s.sellFeeBps)) && IsWord(s.bt.usdcReserve) && s.sellFeeBps <= BPS
  }

  lemma GrossOf(p: BouncePool, lt: nat, most: nat)
    requires lt <= most && IsWord(Times(most, p.exchangeRate))
    ensures lt * p.exchangeRate >= 0 && GrossUsdc(p, lt) == lt * p.exchangeRate / MINT_SCALE
  {
    hide IsWord, Times, GrossUsdc;
    TimesIs(most, p.exchangeRate);
    ProductMono(lt, p.exchangeRate, most, p.exchangeRate);
    WordMono(lt * p.exchangeRate, most * p.exchangeRate);
    GrossIsExact(p, lt, lt * p.exchangeRate);
  }

  lemma RedeemFeeOf(p: BouncePool, gross: nat)
    requires gross <= p.usdcReserve && IsWord(Times(p.usdcReserve, p.redemptionFee))
    requires IsWord(Times(Times(p.usdcReserve, p.redemptionFee) / PRECISION, p.targetLeverage))
    ensures 0 <= gross * p.redemptionFee && 0 <= gross * p.redemptionFee / PRECISION * p.targetLeverage
    ensures RedeemFee(p, gross) == Min(gross, gross * p.redemptionFee / PRECISION * p.targetLeverage / PRECISION)
  {
    hide IsWord, Times, Mul;
    var most := p.usdcReserve * p.redemptionFee;
    TimesIs(p.usdcReserve, p.redemptionFee);
    ProductMono(gross, p.redemptionFee, p.usdcReserve, p.redemptionFee);
    WordMono(gross * p.redemptionFee, most);
    ProductFits(gross, p.redemptionFee, gross * p.redemptionFee);
    var part := gross * p.redemptionFee / PRECISION;
    DivMono(gross * p.redemptionFee, most, PRECISION);
    TimesIs(most / PRECISION, p.targetLeverage);
    ProductMono(part, p.targetLeverage, most / PRECISION, p.targetLeverage);
    WordMono(part * p.targetLeverage, most / PRECISION * p.targetLeverage);
    ProductFits(part, p.targetLeverage, part * p.targetLeverage);
  }

  lemma ZapFeeOf(net: nat, most: nat, bps: nat)
    requires net <= most && IsWord(Times(most, bps)) && bps <= BPS && IsWord(most)
    ensures 0 <= net * bps && 0 <= net * bps / BPS <= net && Mul(net, bps) / BPS == net * bps / BPS
    ensures Sub(net, net * bps / BPS) == net - net * bps / BPS
  {
    hide IsWord, Times, Mul, Sub;
    TimesIs(most, bps);
    ProductMono(net, bps, most, bps);
    WordMono(net * bps, most * bps);
    ProductFits(net, bps, net * bps);
    MulMono(bps, BPS, net);
    WordMono(net, most);
    DifferenceFits(net, net * bps / BPS);
  }

  function Least(x: int, y: int): int {
    if x < y then x else y
  }

  lemma NewReserve(s: Pool, d: nat)
    requires d > 0
    ensures s.k / d >= 0 && Div(s.k, d) == s.k / d
  {
    DivIs(s.k, d);
  }

  /** A sell is quoted exactly when the pool is on its curve, the curve and the redemption pay something, within
      Bounce-Tech's bounds and from 10 USDC on; it is paid the redemption of the LT it frees less the zap fee on it, and
      charged both fees. */
  lemma SellPays(s: Pool, tokenIn: nat)
    requires SellFits(s, tokenIn)
    ensures var lt := s.reserveAsset - s.k / (s.reserveToken + tokenIn);
            var gross := lt * s.bt.exchangeRate / MINT_SCALE;
            var btFee := Least(gross, gross * s.bt.redemptionFee / PRECISION * s.bt.targetLeverage / PRECISION);
            var net := gross - btFee;
            var zapFee := net * s.sellFeeBps / BPS;
            && (QuoteSell(s, tokenIn).Ok? <==>
                  && s.lifecycle == Curve && s.k > 0 && lt > 0 && s.bt.exchangeRate > 0
                  && s.bt.minTxSize <= gross <= s.bt.usdcReserve && net >= MIN_USDC && net - zapFee > 0)
            && (QuoteSell(s, tokenIn).Ok? ==>
                  && QuoteSell(s, tokenIn).value.usdcOut == net - zapFee
                  && QuoteSell(s, tokenIn).value.fee == btFee + zapFee)
  {
    hide IsWord, Times, GrossUsdc, RedeemFee, Mul, Sub, Add, Div;
    SumFits(s.reserveToken, tokenIn);
    var d := s.reserveToken + tokenIn;
    NewReserve(s, d);
    var lt := s.reserveAsset - s.k / d;
    if lt > 0 {
      GrossOf(s.bt, lt, s.reserveAsset);
      var gross := GrossUsdc(s.bt, lt);
      if gross <= s.bt.usdcReserve {
        RedeemFeeOf(s.bt, gross);
        var btFee := RedeemFee(s.bt, gross);
        ZapFeeOf(gross - btFee, s.bt.usdcReserve, s.sellFeeBps);
        var zapFee := (gross - btFee) * s.sellFeeBps / BPS;
        WordMono(btFee + zapFee, s.bt.usdcReserve);
        SumFits(btFee, zapFee);
      }
    }
  }

  // ----- what is left to raise

  /** The LT left to raise is the least amount whose value, on top of what has been raised, meets the threshold; it is
      zero where the threshold is met, not set, or cannot be told. */
  lemma LtUntilGradIsLeast(s: Pool)
    requires IsWord(Times(s.graduationThresholdUsd, PRECISION) + s.bt.exchangeRate)
    ensures var lt, raised := ComputeLtUntilGrad(s), s.reserveAsset - s.k / TOTAL_SUPPLY;
            var usd, rate := s.graduationThresholdUsd * PRECISION, s.bt.exchangeRate;
            && (lt == 0 <==> usd == 0 || rate == 0 || raised < 0 || raised * rate >= usd)
            && (lt > 0 ==> (raised + lt) * rate >= usd && (raised + lt - 1) * rate < usd)
  {
    hide IsWord, Times, Mul, Add, Sub, Div, CeilDiv;
    var usd, rate := s.graduationThresholdUsd * PRECISION, s.bt.exchangeRate;
    if s.graduationThresholdUsd != 0 && rate != 0 {
      ThresholdIs(s, usd);
      var raised := s.reserveAsset - s.k / TOTAL_SUPPLY;
      var threshold := Threshold(s);
      CeilAtMost(usd, rate, threshold);
      CeilAtMost(usd, rate, threshold - 1);
      CeilAtMost(usd, rate, raised);
      TimesRate(rate, raised);
      TimesRate(rate, threshold);
      TimesRate(rate, threshold - 1);
    }
  }

  lemma TimesRate(rate: int, x: int)
    ensures rate * x == x * rate
  {
  }

  lemma ThresholdIs(s: Pool, usd: nat)
    requires usd == s.graduationThresholdUsd * PRECISION && s.bt.exchangeRate > 0
    requires IsWord(Times(s.graduationThresholdUsd, PRECISION) + s.bt.exchangeRate)
    ensures Threshold(s) == CeilDiv(usd, s.bt.exchangeRate)
  {
    hide IsWord, Times, Mul, Add, Sub, Div, CeilDiv;
    TimesIs(s.graduationThresholdUsd, PRECISION);
    WordMono(usd, usd + s.bt.exchangeRate);
    ProductFits(s.graduationThresholdUsd, PRECISION, usd);
    SumFits(usd, s.bt.exchangeRate);
    DifferenceFits(usd + s.bt.exchangeRate, 1);
    FlooredCeil(usd, s.bt.exchangeRate);
  }

  // ----- buying

  lemma FeeOnGrossIs(s: Pool, usdcIn: nat)
    requires FeeFits(s, usdcIn)
    ensures usdcIn * s.buyFeeBps >= 0 && FeeOnGross(s, usdcIn) == usdcIn * s.buyFeeBps / BPS
  {
    hide IsWord, Times, Mul;
    TimesIs(usdcIn, s.buyFeeBps);
    ProductFits(usdcIn, s.buyFeeBps, usdcIn * s.buyFeeBps);
  }

  lemma ActualFeeIs(s: Pool, usdcIn: nat, net: nat, used: nat, base: nat, minted: nat, most: nat)
    requires 0 < net <= usdcIn && base <= net && 0 < minted <= most && used <= minted
    requires FeeFits(s, usdcIn) && IsWord(Times(most, usdcIn)) && IsWord(BPS * usdcIn)
    ensures 0 <= used * base / minted <= base
    ensures ActualFee(s, usdcIn, net, used, base, minted) ==
            usdcIn * s.buyFeeBps * (used * base / minted) / (BPS * net)
  {
    hide Mul, Div, IsWord, Times;
    var gross := Times(usdcIn, s.buyFeeBps);
    TimesIs(usdcIn, s.buyFeeBps);
    TimesIs(gross, usdcIn);
    TimesIs(most, usdcIn);
    ProductFits(usdcIn, s.buyFeeBps, gross);
    ProductMono(used, base, most, usdcIn);
    WordMono(used * base, most * usdcIn);
    ProductFits(used, base, used * base);
    EffectiveAtMostBase(used, base, minted);
    DivIs(used * base, minted);
    var eff := used * base / minted;
    ProductMono(gross, eff, gross, usdcIn);
    WordMono(gross * eff, gross * usdcIn);
    ProductFits(gross, eff, gross * eff);
    WordMono(BPS * net, BPS * usdcIn);
    ProductFits(BPS, net, BPS * net);
    DivIs(gross * eff, BPS * net);
  }

  /** How much USDC an accepted buy converts: all of it after the up-front fee, or, where that mints more than is left
      to raise, the least amount that mints what is left, but no less than the minimum. */
  ghost predicate ConvertsRightly(s: Pool, net: nat, base: nat)
    requires s.bt.exchangeRate > 0
  {
    var lt, rate := ComputeLtUntilGrad(s), s.bt.exchangeRate;
    if lt == 0 || lt >= net * MINT_SCALE / rate then base == net
    else
      && MIN_USDC <= base <= net && base * MINT_SCALE / rate >= lt
      && (base > MIN_USDC ==> (base - 1) * MINT_SCALE / rate < lt)
  }

  lemma LeastToMint(p: BouncePool, lt: nat, x: nat)
    requires p.exchangeRate > 0 && lt > 0 && Mintable(x + 1) && IsWord(lt * p.exchangeRate) && x == GrossUsdc(p, lt)
    ensures CalcMintOut(p, x + 1) >= lt && (CalcMintOut(p, x) < lt || x == 0 || CalcMintOut(p, x - 1) < lt)
  {
    hide CalcMintOut, Mintable, GrossUsdc, IsWord;
    NonNegative(lt, p.exchangeRate);
    OneMoreSuffices(p, lt, lt * p.exchangeRate);
    GrossIsExact(p, lt, lt * p.exchangeRate);
    if x > 0 {
      MintableBelow(x, x + 1);
      MintableBelow(x - 1, x + 1);
      MintOutIsExact(p, x - 1);
      FloorAtLeast((x - 1) * MINT_SCALE, p.exchangeRate, lt);
      FloorAtLeast(lt * p.exchangeRate, MINT_SCALE, x);
    }
  }

  lemma BaseIs(s: Pool, net: nat)
    requires Mintable(net) && net >= MIN_USDC && Mint(s.bt, net).Ok?
    requires PreSized(s, net, Mint(s.bt, net).value).Ok?
    requires Mint(s.bt, PreSized(s, net, Mint(s.bt, net).value).value).Ok?
    ensures s.bt.exchangeRate > 0 && ConvertsRightly(s, net, PreSized(s, net, Mint(s.bt, net).value).value)
  {
    hide ComputeLtUntilGrad, GrossUsdc, Mint, CalcMintOut, Mintable, IsWord, Add;
    var p, lt := s.bt, ComputeLtUntilGrad(s);
    MintsItsOutput(p, net);
    MintOutIsExact(p, net);
    if 0 < lt < Mint(p, net).value {
      var base := PreSized(s, net, Mint(p, net).value).value;
      PreSizedMintsEnough(s, net);
      PreSizedWithinNet(s, net, Mint(p, net).value);
      MintsItsOutput(p, base);
      MintableBelow(base, net);
      MintOutIsExact(p, base);
      NonNegative(lt, p.exchangeRate);
      FlooredCostBelowNet(p, net, lt, lt * p.exchangeRate);
      var floored := GrossUsdc(p, lt);
      MintableBelow(floored + 1, net);
      NetIsWord(floored + 1, net);
      SumFits(floored, 1);
      LeastToMint(p, lt, floored);
      if base > MIN_USDC {
        MintableBelow(base - 1, net);
        MintOutIsExact(p, base - 1);
        MintedBelow(p, floored, lt);
      }
    }
  }

  lemma MintedBelow(p: BouncePool, x: nat, lt: nat)
    ensures Mint(p, x).Ok? ==> Mint(p, x).value == CalcMintOut(p, x)
  {
    hide CalcMintOut;
  }

  /** An accepted buy: the fee up front is the floored share of the input; the rest, or just what graduation needs, is
      minted at the exchange rate; the curve gives the tokens that the LT frees, but no more than are held; the fee
      finally charged is pro-rated to the LT used, and everything else is refunded. */
  lemma BuyPays(s: Pool, usdcIn: nat)
    requires Sound(s) && BuyFits(s, usdcIn) && QuoteBuy(s, usdcIn).Ok?
    ensures s.bt.exchangeRate > 0 && s.lifecycle == Curve && s.tokenBalance > 0
    ensures var b, rate := QuoteBuy(s, usdcIn).value, s.bt.exchangeRate;
            var feeOnGross := usdcIn * s.buyFeeBps / BPS;
            var net := usdcIn - feeOnGross;
            && net >= MIN_USDC && 0 < b.baseToConvert && 0 < b.baseToConvert * MINT_SCALE / rate
            && ConvertsRightly(s, net, b.baseToConvert)
            && var minted := b.baseToConvert * MINT_SCALE / rate;
               var offered := s.reserveToken - s.k / (s.reserveAsset + minted);
               && b.tokensOut == Least(offered, s.tokenBalance) && b.tokensOut > 0
               && (offered <= s.tokenBalance ==> b.amountInUsed == minted)
               && (offered > s.tokenBalance ==>
                     && s.reserveToken > s.tokenBalance
                     && s.reserveAsset + b.amountInUsed == CeilDiv(s.k, s.reserveToken - s.tokenBalance))
               && b.fee == usdcIn * s.buyFeeBps * (b.amountInUsed * b.baseToConvert / minted) / (BPS * net)
               && b.refund == (net - b.baseToConvert) + (feeOnGross - b.fee)
  {
    hide OnCurve, Mint, PreSized, ComputeBuy, CalcMintOut, ActualFee, FeeOnGross, Mintable, IsWord, Add, Sub,
      CeilDiv, ConvertsRightly;
    BuyAccounts(s, usdcIn);
    MintableFits(usdcIn);
    NetOfFee(s, usdcIn);
    FeeOnGrossIs(s, usdcIn);
    var net := usdcIn - FeeOnGross(s, usdcIn);
    MintableBelow(net, usdcIn);
    MintsItsOutput(s.bt, net);
    PreSizedWithinNet(s, net, Mint(s.bt, net).value);
    BaseIs(s, net);
    var base := PreSized(s, net, Mint(s.bt, net).value).value;
    MintableBelow(base, net);
    MintsItsOutput(s.bt, base);
    MintOutIsExact(s.bt, base);
    MintOutMono(s.bt, base, usdcIn);
    var minted, most := CalcMintOut(s.bt, base), CalcMintOut(s.bt, usdcIn);
    WordMono(s.reserveAsset + minted, s.reserveAsset + most);
    CurveBuySound(s, minted);
    CappedUseIs(s, minted);
    ActualFeeIs(s, usdcIn, net, ComputeBuy(s, minted).value.amountInUsed, base, minted, most);
  }

  /** USDC that a buy of `net` converts: all of it, or where that mints more than is left to raise the floored cost of
      what is left, one unit more if minting that much is possible and falls short, and no less than the minimum. */
  function Converted(s: Pool, net: nat): nat
    requires s.bt.exchangeRate > 0
  {
    var lt, rate := ComputeLtUntilGrad(s), s.bt.exchangeRate;
    if lt == 0 || lt >= NaturalQuotient(net * MINT_SCALE, rate) then net
    else
      NonNegative(lt, rate);
      var floored := NaturalQuotient(lt * rate, MINT_SCALE);
      var minted := NaturalQuotient(floored * MINT_SCALE, rate);
      Max(MIN_USDC, if floored >= s.bt.minTxSize && 0 < minted < lt then floored + 1 else floored)
  }

  /** A mint succeeds exactly for amounts of at least the minimum that mint something, while minting is open. */
  lemma MintAcceptedIff(p: BouncePool, x: nat)
    requires Mintable(x)
    ensures Mint(p, x).Ok? <==>
              && p.exchangeRate > 0 && !p.mintPaused && x >= p.minTxSize
              && NaturalQuotient(x * MINT_SCALE, p.exchangeRate) > 0
    ensures Mint(p, x).Ok? ==> Mint(p, x).value == NaturalQuotient(x * MINT_SCALE, p.exchangeRate)
  {
    hide CalcMintOut, Mintable;
    if p.exchangeRate > 0 {
      MintOutIsExact(p, x);
      if x == 0 {
        DivModUnique(0, p.exchangeRate, 0, 0);
      }
    }
  }

  lemma ConvertedIs(s: Pool, net: nat)
    requires Mintable(net) && net >= MIN_USDC && Mint(s.bt, net).Ok?
    ensures s.bt.exchangeRate > 0
    ensures PreSized(s, net, Mint(s.bt, net).value) == Ok(Converted(s, net)) && Converted(s, net) <= net
  {
    hide ComputeLtUntilGrad, GrossUsdc, Mint, CalcMintOut, Mintable, IsWord, Add, NaturalQuotient;
    var p, lt := s.bt, ComputeLtUntilGrad(s);
    MintAcceptedIff(p, net);
    if 0 < lt < Mint(p, net).value {
      NonNegative(lt, p.exchangeRate);
      var n := lt * p.exchangeRate;
      MintsItsOutput(p, net);
      FlooredCostBelowNet(p, net, lt, n);
      GrossIsExact(p, lt, n);
      var floored := GrossUsdc(p, lt);
      QuotientIs(n, MINT_SCALE, floored);
      MintableBelow(floored, net);
      MintAcceptedIff(p, floored);
      NetIsWord(floored + 1, net);
      MintableBelow(floored + 1, net);
      SumFits(floored, 1);
    }
  }

  lemma QuotientIs(n: nat, d: nat, q: nat)
    requires d > 0 && q == n / d
    ensures NaturalQuotient(n, d) == q
  {
  }

  /** A buy is accepted exactly when the pool is on its curve and minting is open, the amount after its fee and what is
      converted of it can be minted, and there are tokens to pay. */
  lemma BuyAcceptedIff(s: Pool, usdcIn: nat)
    requires Sound(s) && BuyFits(s, usdcIn)
    ensures usdcIn - usdcIn * s.buyFeeBps / BPS >= 0
    ensures var net, rate := usdcIn - usdcIn * s.buyFeeBps / BPS, s.bt.exchangeRate;
            QuoteBuy(s, usdcIn).Ok? <==>
              && s.lifecycle == Curve && rate > 0 && !s.bt.mintPaused
              && net >= MIN_USDC && net >= s.bt.minTxSize && net * MINT_SCALE / rate > 0
              && Converted(s, net) >= s.bt.minTxSize && Converted(s, net) * MINT_SCALE / rate > 0
              && s.reserveToken > s.k / (s.reserveAsset + Converted(s, net) * MINT_SCALE / rate) && s.tokenBalance > 0
  {
    hide OnCurve, Mint, PreSized, ComputeBuy, CalcMintOut, ActualFee, FeeOnGross, Mintable, IsWord, Add, Sub,
      CeilDiv, Converted, Times;
    MintableFits(usdcIn);
    NetOfFee(s, usdcIn);
    FeeOnGrossIs(s, usdcIn);
    var net := usdcIn - FeeOnGross(s, usdcIn);
    MintableBelow(net, usdcIn);
    MintAcceptedIff(s.bt, net);
    if Mint(s.bt, net).Ok? && net >= MIN_USDC {
      ConvertedIs(s, net);
      var base := Converted(s, net);
      MintableBelow(base, net);
      MintAcceptedIff(s.bt, base);
      if Mint(s.bt, base).Ok? {
        var minted := Mint(s.bt, base).value;
        MintsItsOutput(s.bt, base);
        MintOutMono(s.bt, base, usdcIn);
        WordMono(s.reserveAsset + minted, s.reserveAsset + CalcMintOut(s.bt, usdcIn));
        SumFits(s.reserveAsset, minted);
        DivIs(s.k, s.reserveAsset + minted);
        CurveFalls(s.reserveToken, s.reserveAsset, s.k, minted);
        OfferedOrHeld(s, minted, s.k / (s.reserveAsset + minted));
      }
    }
  }

  /** A buy cut to the tokens held uses the LT that brings the asset reserve to the ceiling of the curve. */
  lemma CappedUseIs(s: Pool, lt: nat)
    requires Sound(s) && lt > 0 && IsWord(s.reserveAsset + lt) && IsWord(s.k + s.reserveToken)
    requires ComputeBuy(s, lt).Ok? && ComputeBuy(s, lt).value.tokensOut > 0
    ensures s.reserveToken - s.k / (s.reserveAsset + lt) > s.tokenBalance ==>
              && s.reserveToken > s.tokenBalance
              && s.reserveAsset + ComputeBuy(s, lt).value.amountInUsed ==
                CeilDiv(s.k, s.reserveToken - s.tokenBalance)
  {
    hide OnCurve, Add, Sub, Div, CeilDiv, IsWord, ComputeBuy;
    CurveBuySound(s, lt);
    CurveFalls(s.reserveToken, s.reserveAsset, s.k, lt);
    SumFits(s.reserveAsset, lt);
    DivIs(s.k, s.reserveAsset + lt);
    var q := s.k / (s.reserveAsset + lt);
    OfferedOrHeld(s, lt, q);
    if s.reserveToken - q > s.tokenBalance {
      CappedUse(s.reserveToken, s.reserveAsset, s.k, lt, s.tokenBalance);
      WordMono(CeilDiv(s.k, s.reserveToken - s.tokenBalance), s.reserveAsset + lt);
      DifferenceFits(CeilDiv(s.k, s.reserveToken - s.tokenBalance), s.reserveAsset);
    }
  }

  // ----- what the updates book

  /** After an accepted buy the asset reserve has taken in the LT used, the token reserve is the curve's, and the pool
      holds fewer tokens by what was paid; without a cap those are what the token reserve lost. */
  lemma BuyBooks(s: Pool, usdcIn: nat)
    requires Sound(s) && BuyFits(s, usdcIn) && QuoteBuy(s, usdcIn).Ok?
    ensures var b := QuoteBuy(s, usdcIn).value;
            var q := Step(s, BuyOp(usdcIn));
            && q.reserveAsset == s.reserveAsset + b.amountInUsed && q.reserveAsset > 0
            && q.reserveToken == s.k / q.reserveAsset
            && q.tokenBalance + b.tokensOut == s.tokenBalance
            && (b.tokensOut < s.tokenBalance ==> q.reserveToken + b.tokensOut == s.reserveToken)
            && (q.lifecycle == Graduating <==> ComputeLtUntilGrad(q) == 0)
            && q == s.(reserveAsset := q.reserveAsset, reserveToken := q.reserveToken, tokenBalance := q.tokenBalance,
                       lifecycle := q.lifecycle)
  {
    hide QuoteBuy, Add, Div, ComputeLtUntilGrad, IsWord, OnCurve, BuyFits, ConvertsRightly, CeilDiv;
    BuyAccounts(s, usdcIn);
    BuyPays(s, usdcIn);
    var b := QuoteBuy(s, usdcIn).value;
    SumFits(s.reserveAsset, b.amountInUsed);
    NewReserve(s, s.reserveAsset + b.amountInUsed);
    var t := s.(reserveAsset := s.reserveAsset + b.amountInUsed,
      reserveToken := s.k / (s.reserveAsset + b.amountInUsed),
      tokenBalance := s.tokenBalance - b.tokensOut);
    PhaseDoesNotCount(t, Graduating);
  }

  /** After an accepted sell the reserves are the ones it was priced at, and the tokens are held. */
  lemma SellBooks(s: Pool, tokenIn: nat)
    requires SellFits(s, tokenIn) && QuoteSell(s, tokenIn).Ok? && IsWord(s.tokenBalance + tokenIn)
    ensures Step(s, SellOp(tokenIn)) ==
            s.(reserveToken := s.reserveToken + tokenIn,
               reserveAsset := NaturalQuotient(s.k, s.reserveToken + tokenIn),
               tokenBalance := s.tokenBalance + tokenIn)
  {
    hide IsWord, QuoteSell, Add, Div, Times;
    SumFits(s.reserveToken, tokenIn);
    SumFits(s.tokenBalance, tokenIn);
    NewReserve(s, s.reserveToken + tokenIn);
  }

  function NaturalQuotient(n: nat, d: nat): nat
    requires d > 0
  {
    DivNat(n, d);
    n / d
  }

  /** The LT an update books when the quote recorded none is what the input less its fee would mint. */
  lemma FallbackMints(s: Pool, usdcIn: nat)
    requires s.buyFeeBps <= BPS && Mintable(usdcIn) && FeeFits(s, usdcIn)
    ensures usdcIn - usdcIn * s.buyFeeBps / BPS >= 0
    ensures FallbackLt(s, usdcIn) == if s.bt.exchangeRate == 0 then 0
            else NaturalQuotient((usdcIn - usdcIn * s.buyFeeBps / BPS) * MINT_SCALE, s.bt.exchangeRate)
  {
    hide IsWord, Times, Mul, Sub, FeeOnGross, Mintable;
    MintableFits(usdcIn);
    NetOfFee(s, usdcIn);
    FeeOnGrossIs(s, usdcIn);
    var net := usdcIn - FeeOnGross(s, usdcIn);
    MintableBelow(net, usdcIn);
    if s.bt.exchangeRate > 0 {
      MintOutIsExact(s.bt, net);
    }
  }
}
