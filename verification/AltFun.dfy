/** Alt-Fun bonding curves: USDC buys a meme token through a Bounce-Tech mint and a floored constant-product
curve, until the raised amount graduates the pool. */
module AltFun {
  import opened Arith
  import opened Words
  import opened Outcomes
  import opened BounceTech

  const BPS: nat := 10_000
  const MIN_USDC: nat := 10_000_000
  const TOTAL_SUPPLY: nat := 1_000_000_000_000_000_000_000_000_000

  datatype Lifecycle = Curve | Graduating | Graduated

  datatype Pool = Pool(
    reserveToken: nat, reserveAsset: nat, k: nat, tokenBalance: nat,
    buyFeeBps: nat, sellFeeBps: nat, lifecycle: Lifecycle, graduationThresholdUsd: nat, bt: BouncePool)

  datatype Buy = Buy(tokensOut: nat, fee: nat, refund: nat, amountInUsed: nat, baseToConvert: nat)

  // ----- graduation

  /** LT still to be raised before the pool graduates; 0 when it has or when it cannot be told. */
  function ComputeLtUntilGrad(s: Pool): nat {
    if s.graduationThresholdUsd == 0 || s.bt.exchangeRate == 0 then 0
    else
      var launchVirtual := s.k / TOTAL_SUPPLY;
      if s.reserveAsset < launchVirtual then 0
      else
        var raised := s.reserveAsset - launchVirtual;
        var threshold := Threshold(s);
        if raised >= threshold then 0 else threshold - raised
  }

  function Threshold(s: Pool): nat {
    Div(Sub(Add(Mul(s.graduationThresholdUsd, PRECISION), s.bt.exchangeRate), 1), s.bt.exchangeRate)
  }

  // ----- buying

  function FeeOnGross(s: Pool, usdcIn: nat): nat {
    Mul(usdcIn, s.buyFeeBps) / BPS
  }

  /** USDC to mint: all of it, or just enough to reach graduation. */
  function PreSized(s: Pool, netUsdc: nat, ltIfFull: nat): Result<nat> {
    var ltUntilGrad := ComputeLtUntilGrad(s);
    if ltUntilGrad == 0 || ltUntilGrad >= ltIfFull then Ok(netUsdc)
    else
      var floored := GrossUsdc(s.bt, ltUntilGrad);
      var check := Mint(s.bt, floored);
      var bumped := if check.Ok? && check.value < ltUntilGrad then Add(floored, 1) else floored;
      var capped := Min(netUsdc, bumped);
      if capped >= MIN_USDC then Ok(capped)
      else if MIN_USDC > netUsdc then Err("below min amount")
      else Ok(MIN_USDC)
  }

  datatype CurveBuy = CurveBuy(tokensOut: nat, amountInUsed: nat)

  /** The curve's answer to an amount of LT, cut to the tokens the pool holds. */
  function ComputeBuy(s: Pool, ltMinted: nat): Result<CurveBuy> {
    var newReserveToken := Div(s.k, Add(s.reserveAsset, ltMinted));
    var tokensOut := Sub(s.reserveToken, newReserveToken);
    if tokensOut <= s.tokenBalance then Ok(CurveBuy(tokensOut, ltMinted))
    else
      var cappedReserveToken := Sub(s.reserveToken, s.tokenBalance);
      if cappedReserveToken == 0 then Err("insufficient liquidity")
      else
        var cappedReserveAsset := Div(Sub(Add(s.k, cappedReserveToken), 1), cappedReserveToken);
        Ok(CurveBuy(s.tokenBalance, Sub(cappedReserveAsset, s.reserveAsset)))
  }

  function ActualFee(s: Pool, usdcIn: nat, netUsdc: nat, used: nat, base: nat, minted: nat): nat {
    var effectiveBase := Div(Mul(used, base), minted);
    Div(Mul(Mul(usdcIn, s.buyFeeBps), effectiveBase), Mul(BPS, netUsdc))
  }

  function CalcBuyOut(s: Pool, usdcIn: nat): Result<Buy> {
    if usdcIn < MIN_USDC then Err("below min amount")
    else
      var feeOnGross := FeeOnGross(s, usdcIn);
      var netUsdc := Sub(usdcIn, feeOnGross);
      if netUsdc < MIN_USDC then Err("below min amount")
      else match Mint(s.bt, netUsdc)
        case Err(e) => Err(e)
        case Ok(ltIfFull) =>
          match PreSized(s, netUsdc, ltIfFull)
          case Err(e) => Err(e)
          case Ok(base) =>
            match Mint(s.bt, base)
            case Err(e) => Err(e)
            case Ok(ltMinted) =>
              match ComputeBuy(s, ltMinted)
              case Err(e) => Err(e)
              case Ok(curve) =>
                var actualFee := ActualFee(s, usdcIn, netUsdc, curve.amountInUsed, base, ltMinted);
                var feeRefund := if feeOnGross > actualFee then feeOnGross - actualFee else 0;
                var usdcLeft := if netUsdc > base then netUsdc - base else 0;
                Ok(Buy(curve.tokensOut, actualFee, Add(usdcLeft, feeRefund), curve.amountInUsed, base))
  }

  // ----- selling

  datatype Sell = Sell(usdcOut: nat, fee: nat)

  function CalcSellOut(s: Pool, tokenIn: nat): Result<Sell> {
    var newReserveAsset := Div(s.k, Add(s.reserveToken, tokenIn));
    if newReserveAsset > s.reserveAsset then Err("insufficient liquidity")
    else
      var ltOut := s.reserveAsset - newReserveAsset;
      match Redeem(s.bt, ltOut)
      case Err(e) => Err(e)
      case Ok((gross, btFee)) =>
        if gross < MIN_USDC then Err("below min amount")
        else
          var zapFee := Mul(gross, s.sellFeeBps) / BPS;
          Ok(Sell(Sub(gross, zapFee), Add(btFee, zapFee)))
  }

  // ----- quotes and updates

  function QuoteBuy(s: Pool, usdcIn: nat): Result<Buy> {
    if s.lifecycle != Curve then Err("pool is graduated or graduating")
    else if s.k == 0 then Err("zero K invariant")
    else match CalcBuyOut(s, usdcIn)
      case Err(e) => Err(e)
      case Ok(b) => if b.tokensOut == 0 then Err("zero amount") else Ok(b)
  }

  function QuoteSell(s: Pool, tokenIn: nat): Result<Sell> {
    if s.lifecycle != Curve then Err("pool is graduated or graduating")
    else if s.k == 0 then Err("zero K invariant")
    else match CalcSellOut(s, tokenIn)
      case Err(e) => Err(e)
      case Ok(x) => if x.usdcOut == 0 then Err("zero amount") else Ok(x)
  }

  /** LT an update books when the quote recorded none. */
  function FallbackLt(s: Pool, amountIn: nat): nat {
    var netUsdc := Sub(amountIn, FeeOnGross(s, amountIn));
    if s.bt.exchangeRate == 0 then 0 else Div(Mul(Mul(netUsdc, SCALE_UP), PRECISION), s.bt.exchangeRate)
  }

  function AfterBuy(s: Pool, usdcIn: nat, tokensOut: nat, amountInUsed: nat): Pool {
    var ltIn := if amountInUsed == 0 then FallbackLt(s, usdcIn) else amountInUsed;
    var reserveAsset := Add(s.reserveAsset, ltIn);
    var t := s.(
      reserveAsset := reserveAsset,
      reserveToken := Div(s.k, reserveAsset),
      tokenBalance := if tokensOut < s.tokenBalance then s.tokenBalance - tokensOut else 0);
    if ComputeLtUntilGrad(t) == 0 then t.(lifecycle := Graduating) else t
  }

  function AfterSell(s: Pool, tokenIn: nat): Pool {
    var reserveToken := Add(s.reserveToken, tokenIn);
    s.(reserveToken := reserveToken, reserveAsset := Div(s.k, reserveToken),
      tokenBalance := Add(s.tokenBalance, tokenIn))
  }

  // ----- the floored constant product

  /** The reserves sit on the floored curve of k. */
  predicate OnCurve(rt: nat, ra: nat, k: nat) {
    Times(rt, ra) <= k < Times(rt + 1, ra + 1)
  }

  lemma OnCurveIs(rt: nat, ra: nat, k: nat)
    ensures OnCurve(rt, ra, k) <==> rt * ra <= k < (rt + 1) * (ra + 1)
  {
    hide Times;
    TimesIs(rt, ra);
    TimesIs(rt + 1, ra + 1);
  }

  /** Recomputing one reserve from the other puts the pair back on the curve. */
  lemma FlooredIsOnCurve(k: nat, ra: nat)
    requires ra > 0
    ensures OnCurve(k / ra, ra, k) && OnCurve(ra, k / ra, k)
  {
    hide OnCurve;
    var q := k / ra;
    DivNat(k, ra);
    OnCurveIs(q, ra, k);
    OnCurveIs(ra, q, k);
    FloorAtLeast(k, ra, q);
    FloorAtLeast(k, ra, q + 1);
    MulMono(ra, ra + 1, q + 1);
    assert q * ra == ra * q;
  }

  /** Adding to one reserve never raises the other. */
  lemma CurveFalls(rt: nat, ra: nat, k: nat, lt: nat)
    requires OnCurve(rt, ra, k) && lt > 0
    ensures 0 <= k / (ra + lt) <= rt
  {
    hide OnCurve;
    OnCurveIs(rt, ra, k);
    FloorAtLeast(k, ra + lt, rt + 1);
    MulMono(ra + 1, ra + lt, rt + 1);
    DivNat(k, ra + lt);
  }

  lemma CappedBounds(rt: nat, ra: nat, k: nat, m: nat, q: nat, held: nat)
    requires rt * ra <= k && k > 0 && k < m * (q + 1) && 0 < held && held + q < rt
    ensures (rt - held) * ra < k <= (rt - held) * m
  {
    var n := rt - held;
    MulMono(q + 1, n, m);
    MulMono(n, rt - 1, ra);
    assert (rt - 1) * ra == rt * ra - ra;
    if ra == 0 {
      assert n * ra == 0;
    }
  }

  /** Cutting the tokens paid out to `held`, fewer than the curve offers: the LT then used is positive and at
      most what was minted. */
  lemma CappedUse(rt: nat, ra: nat, k: nat, lt: nat, held: nat)
    requires OnCurve(rt, ra, k) && lt > 0 && k > 0 && 0 < held < rt - k / (ra + lt)
    ensures rt - held > 0
    ensures ra < CeilDiv(k, rt - held) <= ra + lt
  {
    hide CeilDiv, OnCurve;
    OnCurveIs(rt, ra, k);
    CurveFalls(rt, ra, k, lt);
    FloorAtLeast(k, ra + lt, k / (ra + lt) + 1);
    CappedBounds(rt, ra, k, ra + lt, k / (ra + lt), held);
    CeilAtMost(k, rt - held, ra + lt);
    CeilAtMost(k, rt - held, ra);
  }

  // ----- what a buy does, inside the word range

  ghost predicate Sound(s: Pool) {
    s.k > 0 && OnCurve(s.reserveToken, s.reserveAsset, s.k)
  }

  /** Bounds a caller can check before buying: no intermediate product leaves the word range. */
  predicate BuyFits(s: Pool, usdcIn: nat) {
    var most := CalcMintOut(s.bt, usdcIn);
    && s.buyFeeBps <= BPS && Mintable(usdcIn) && FeeFits(s, usdcIn)
    && IsWord(s.reserveAsset + most) && IsWord(s.k + s.reserveToken) && IsWord(Times(most, usdcIn))
  }

  /** The products of the fee stay within words. */
  predicate FeeFits(s: Pool, usdcIn: nat) {
    IsWord(Times(usdcIn, s.buyFeeBps)) && IsWord(Times(Times(usdcIn, s.buyFeeBps), usdcIn))
  }

  lemma FlooredCeil(k: nat, c: nat)
    requires c > 0
    ensures Div(k + c - 1, c) == CeilDiv(k, c)
  {
    hide Div, CeilDiv;
    DivIs(k + c - 1, c);
    CeilAsFloor(k, c);
  }

  /** The curve part of a buy: no subtraction underflows, and a buy cut to the tokens held uses some but no
      more LT than was minted. */
  lemma CurveBuySound(s: Pool, lt: nat)
    requires Sound(s) && lt > 0 && IsWord(s.reserveAsset + lt) && IsWord(s.k + s.reserveToken)
    requires var r := ComputeBuy(s, lt); r.Ok? && r.value.tokensOut > 0
    ensures var c := ComputeBuy(s, lt).value;
            var offered := s.reserveToken - s.k / (s.reserveAsset + lt);
            && offered >= 0
            && c.tokensOut == (if offered <= s.tokenBalance then offered else s.tokenBalance)
            && 0 < c.amountInUsed <= lt && (offered <= s.tokenBalance ==> c.amountInUsed == lt)
            && IsWord(s.reserveAsset + c.amountInUsed)
  {
    hide OnCurve, Add, Sub, Div, CeilDiv, IsWord, ComputeBuy;
    var rt, ra := s.reserveToken, s.reserveAsset;
    CurveFalls(rt, ra, s.k, lt);
    SumFits(ra, lt);
    DivIs(s.k, ra + lt);
    var q := s.k / (ra + lt);
    WordMono(rt, s.k + rt);
    DifferenceFits(rt, q);
    OfferedOrHeld(s, lt, q);
    if rt - q > s.tokenBalance {
      CappedUse(rt, ra, s.k, lt, s.tokenBalance);
      WordMono(CeilDiv(s.k, rt - s.tokenBalance), ra + lt);
      DifferenceFits(CeilDiv(s.k, rt - s.tokenBalance), ra);
    }
  }

  /** The two outcomes of the curve, given the token reserve q it would leave. */
  lemma OfferedOrHeld(s: Pool, lt: nat, q: nat)
    requires q <= s.reserveToken && IsWord(s.k + s.reserveToken)
    requires Div(s.k, Add(s.reserveAsset, lt)) == q
    ensures var offered := s.reserveToken - q;
            ComputeBuy(s, lt) ==
            if offered <= s.tokenBalance then Ok(CurveBuy(offered, lt))
            else Ok(CurveBuy(s.tokenBalance, Sub(CeilDiv(s.k, s.reserveToken - s.tokenBalance), s.reserveAsset)))
  {
    hide Add, Sub, Div, CeilDiv, IsWord;
    var rt := s.reserveToken;
    WordMono(rt, s.k + rt);
    DifferenceFits(rt, q);
    if rt - q > s.tokenBalance {
      var c := rt - s.tokenBalance;
      DifferenceFits(rt, s.tokenBalance);
      WordMono(s.k + c, s.k + rt);
      SumFits(s.k, c);
      DifferenceFits(s.k + c, 1);
      FlooredCeil(s.k, c);
    }
  }

  /** A fee pro-rated to what was effectively spent is at most the fee on the whole. */
  lemma ProRatedFee(gross: nat, eff: nat, net: nat, bps: nat)
    requires eff <= net && net > 0 && bps > 0
    ensures gross * eff / (bps * net) <= gross / bps
  {
    var q := gross * eff / (bps * net);
    FloorAtLeast(gross * eff, bps * net, q);
    MulMono(eff, net, gross);
    assert (bps * net) * q == (bps * q) * net;
    MulCancel(bps * q, gross, net);
    FloorAtLeast(gross, bps, q);
  }

  lemma EffectiveAtMostBase(used: nat, base: nat, minted: nat)
    requires used <= minted && minted > 0
    ensures 0 <= used * base / minted <= base
  {
    MulMono(used, minted, base);
    FloorAtLeast(used * base, minted, base + 1);
    assert minted * (base + 1) == minted * base + minted;
    NonNegative(used, base);
    DivNat(used * base, minted);
  }

  /** The fee finally charged never exceeds the fee taken up front. */
  lemma ActualFeeWithinGross(s: Pool, usdcIn: nat, net: nat, used: nat, base: nat, minted: nat, most: nat)
    requires 0 < net <= usdcIn && base <= net && 0 < minted <= most && used <= minted
    requires FeeFits(s, usdcIn) && IsWord(Times(most, usdcIn)) && IsWord(BPS * usdcIn)
    ensures ActualFee(s, usdcIn, net, used, base, minted) <= FeeOnGross(s, usdcIn)
  {
    hide Mul, Div, IsWord, Times;
    var gross := Times(usdcIn, s.buyFeeBps);
    TimesIs(usdcIn, s.buyFeeBps);
    TimesIs(gross, usdcIn);
    TimesIs(most, usdcIn);
    ProductFits(usdcIn, s.buyFeeBps, gross);
    ProductMono(used, base, most, usdcIn);
    WordMono(used * base, most * usdcIn);
    ProductFits(used, base, used * base);
    EffectiveAtMostBase(used, base, minted);
    DivIs(used * base, minted);
    var eff := used * base / minted;
    ProductMono(gross, eff, gross, usdcIn);
    WordMono(gross * eff, gross * usdcIn);
    ProductFits(gross, eff, gross * eff);
    WordMono(BPS * net, BPS * usdcIn);
    ProductFits(BPS, net, BPS * net);
    DivIs(gross * eff, BPS * net);
    ProRatedFee(gross, eff, net, BPS);
  }

  lemma NetOfFee(s: Pool, usdcIn: nat)
    requires s.buyFeeBps <= BPS && IsWord(Times(usdcIn, s.buyFeeBps)) && IsWord(usdcIn)
    ensures FeeOnGross(s, usdcIn) <= usdcIn && Sub(usdcIn, FeeOnGross(s, usdcIn)) == usdcIn - FeeOnGross(s, usdcIn)
  {
    hide Mul, IsWord, Times;
    TimesIs(usdcIn, s.buyFeeBps);
    ProductFits(usdcIn, s.buyFeeBps, usdcIn * s.buyFeeBps);
    MulMono(s.buyFeeBps, BPS, usdcIn);
    DifferenceFits(usdcIn, FeeOnGross(s, usdcIn));
  }

  lemma PreSizedWithinNet(s: Pool, net: nat, ltIfFull: nat)
    requires PreSized(s, net, ltIfFull).Ok? && net >= MIN_USDC
    ensures MIN_USDC <= PreSized(s, net, ltIfFull).value <= net
  {
    hide ComputeLtUntilGrad, GrossUsdc, Mint;
  }

  lemma MintsItsOutput(p: BouncePool, x: nat)
    requires Mint(p, x).Ok?
    ensures p.exchangeRate > 0 && Mint(p, x).value == CalcMintOut(p, x) > 0
  {
    hide CalcMintOut;
  }

  /** Everything a buy paid in comes out again: as the base converted, the fee, or the refund. A buy that pays
      out tokens uses some LT, at most what it minted. */
  lemma BuyAccounts(s: Pool, usdcIn: nat)
    requires Sound(s) && BuyFits(s, usdcIn) && QuoteBuy(s, usdcIn).Ok?
    ensures var b := QuoteBuy(s, usdcIn).value;
            && usdcIn == b.baseToConvert + b.fee + b.refund
            && 0 < b.amountInUsed <= CalcMintOut(s.bt, b.baseToConvert)
            && b.tokensOut <= s.tokenBalance && IsWord(s.reserveAsset + b.amountInUsed)
  {
    hide OnCurve, Mint, PreSized, ComputeBuy, CalcMintOut, ActualFee, FeeOnGross, Mintable, IsWord, Add, Sub;
    var fee := FeeOnGross(s, usdcIn);
    MintableFits(usdcIn);
    NetOfFee(s, usdcIn);
    var net := usdcIn - fee;
    MintsItsOutput(s.bt, net);
    var ltIfFull := Mint(s.bt, net).value;
    PreSizedWithinNet(s, net, ltIfFull);
    var base := PreSized(s, net, ltIfFull).value;
    MintsItsOutput(s.bt, base);
    var minted := Mint(s.bt, base).value;
    var most := CalcMintOut(s.bt, usdcIn);
    MintOutMono(s.bt, base, usdcIn);
    WordMono(s.reserveAsset + minted, s.reserveAsset + most);
    CurveBuySound(s, minted);
    var used := ComputeBuy(s, minted).value.amountInUsed;
    ActualFeeWithinGross(s, usdcIn, net, used, base, minted, most);
    var actual := ActualFee(s, usdcIn, net, used, base, minted);
    WordMono(net - base + (fee - actual), usdcIn);
    SumFits(net - base, fee - actual);
  }

  lemma MintableFits(usdcIn: nat)
    requires Mintable(usdcIn)
    ensures IsWord(usdcIn) && IsWord(BPS * usdcIn)
  {
  }

  // ----- graduation pre-sizing

  lemma FlooredCostBelowNet(p: BouncePool, net: nat, lt: nat, n: nat)
    requires p.exchangeRate > 0 && Mintable(net) && lt < CalcMintOut(p, net) && n == lt * p.exchangeRate
    ensures IsWord(n) && GrossUsdc(p, lt) < net
  {
    hide CalcMintOut, GrossUsdc;
    MintOutIsExact(p, net);
    var full := net * MINT_SCALE / p.exchangeRate;
    FloorAtLeast(net * MINT_SCALE, p.exchangeRate, full);
    MulMono(lt, full - 1, p.exchangeRate);
    assert (full - 1) * p.exchangeRate == p.exchangeRate * full - p.exchangeRate;
    NonNegative(lt, p.exchangeRate);
    GrossIsExact(p, lt, n);
  }

  lemma MintableBelow(x: nat, y: nat)
    requires x <= y && Mintable(y)
    ensures Mintable(x)
  {
  }

  lemma MintFailureKinds(p: BouncePool, x: nat, y: nat)
    requires Mint(p, x).Err? && Mint(p, y).Ok?
    ensures x != y
  {
    hide CalcMintOut;
  }

  /** A buy that sizes its mint to graduation mints at least what graduation needs: one unit of USDC on top of
      the floored cost always suffices. */
  lemma PreSizedMintsEnough(s: Pool, net: nat)
    requires Mintable(net) && net >= MIN_USDC && Mint(s.bt, net).Ok?
    requires 0 < ComputeLtUntilGrad(s) < Mint(s.bt, net).value
    requires PreSized(s, net, Mint(s.bt, net).value).Ok?
    requires Mint(s.bt, PreSized(s, net, Mint(s.bt, net).value).value).Ok?
    ensures Mint(s.bt, PreSized(s, net, Mint(s.bt, net).value).value).value >= ComputeLtUntilGrad(s)
  {
    hide ComputeLtUntilGrad, GrossUsdc, Mint, CalcMintOut, Mintable, IsWord, Add;
    var p, lt := s.bt, ComputeLtUntilGrad(s);
    var base := PreSized(s, net, Mint(p, net).value).value;
    MintsItsOutput(p, net);
    MintsItsOutput(p, base);
    NonNegative(lt, p.exchangeRate);
    FlooredCostBelowNet(p, net, lt, lt * p.exchangeRate);
    var floored := GrossUsdc(p, lt);
    MintableBelow(floored + 1, net);
    OneMoreSuffices(p, lt, lt * p.exchangeRate);
    NetIsWord(floored + 1, net);
    SumFits(floored, 1);
    PreSizedWithinNet(s, net, Mint(p, net).value);
    MintableBelow(base, net);
    if base >= floored + 1 {
      MintOutMono(p, floored + 1, base);
    } else {
      assert base == floored;
      if Mint(p, floored).Err? {
        MintFailureKinds(p, floored, base);
      }
    }
  }

  lemma NetIsWord(x: nat, net: nat)
    requires Mintable(net) && x <= net
    ensures IsWord(x)
  {
  }

  /** Whether a buy sizes its mint to graduation. */
  predicate TakesPreSizing(s: Pool, usdcIn: nat) {
    var net := Sub(usdcIn, FeeOnGross(s, usdcIn));
    0 < ComputeLtUntilGrad(s) && Mint(s.bt, net).Ok? && ComputeLtUntilGrad(s) < Mint(s.bt, net).value
  }

  /** Raising the asset reserve by at least what is missing leaves nothing missing. */
  lemma RaisedEnough(s: Pool, t: Pool)
    requires t.k == s.k && t.bt == s.bt && t.graduationThresholdUsd == s.graduationThresholdUsd
    requires ComputeLtUntilGrad(s) > 0 && t.reserveAsset >= s.reserveAsset + ComputeLtUntilGrad(s)
    ensures ComputeLtUntilGrad(t) == 0
  {
    hide Threshold;
    assert Threshold(t) == Threshold(s) by { SameThreshold(s, t); }
  }

  lemma SameThreshold(s: Pool, t: Pool)
    requires t.bt == s.bt && t.graduationThresholdUsd == s.graduationThresholdUsd
    ensures Threshold(t) == Threshold(s)
  {
  }

  /** A buy sized to graduation and not cut to the tokens held moves the pool out of its curve phase. */
  lemma PreSizedBuyGraduates(s: Pool, usdcIn: nat)
    requires Sound(s) && BuyFits(s, usdcIn) && QuoteBuy(s, usdcIn).Ok? && TakesPreSizing(s, usdcIn)
    requires QuoteBuy(s, usdcIn).value.amountInUsed == CalcMintOut(s.bt, QuoteBuy(s, usdcIn).value.baseToConvert)
    ensures var b := QuoteBuy(s, usdcIn).value;
            AfterBuy(s, usdcIn, b.tokensOut, b.amountInUsed).lifecycle == Graduating
  {
    hide OnCurve, Mint, PreSized, ComputeBuy, CalcMintOut, ActualFee, FeeOnGross, Mintable, IsWord, Add, Sub, Div,
      ComputeLtUntilGrad;
    BuyAccounts(s, usdcIn);
    var b := QuoteBuy(s, usdcIn).value;
    MintableFits(usdcIn);
    NetOfFee(s, usdcIn);
    var net := usdcIn - FeeOnGross(s, usdcIn);
    MintableBelow(net, usdcIn);
    PreSizedMintsEnough(s, net);
    MintsItsOutput(s.bt, b.baseToConvert);
    SumFits(s.reserveAsset, b.amountInUsed);
    var t := s.(reserveAsset := s.reserveAsset + b.amountInUsed,
      reserveToken := Div(s.k, s.reserveAsset + b.amountInUsed),
                tokenBalance := if b.tokensOut < s.tokenBalance then s.tokenBalance - b.tokensOut else 0);
    RaisedEnough(s, t);
  }

  // ----- runs

  datatype Op = BuyOp(usdcIn: nat) | SellOp(tokenIn: nat)

  /** A quote followed by its update; a refused quote changes nothing. */
  function Step(s: Pool, op: Op): Pool {
    match op
    case BuyOp(usdcIn) =>
      (match QuoteBuy(s, usdcIn)
       case Err(_) => s
       case Ok(b) => AfterBuy(s, usdcIn, b.tokensOut, b.amountInUsed))
    case SellOp(tokenIn) =>
      if QuoteSell(s, tokenIn).Ok? then AfterSell(s, tokenIn) else s
  }

  predicate OpFits(s: Pool, op: Op) {
    match op
    case BuyOp(usdcIn) => BuyFits(s, usdcIn)
    case SellOp(tokenIn) => IsWord(s.reserveToken + tokenIn) && s.reserveToken + tokenIn > 0
  }

  function Run(s: Pool, ops: seq<Op>): Pool
    decreases |ops|
  {
    if ops == [] then s else Run(Step(s, ops[0]), ops[1..])
  }

  ghost predicate RunFits(s: Pool, ops: seq<Op>)
    decreases |ops|
  {
    ops == [] || (OpFits(s, ops[0]) && RunFits(Step(s, ops[0]), ops[1..]))
  }

  lemma BuyKeepsCurve(s: Pool, usdcIn: nat)
    requires Sound(s) && BuyFits(s, usdcIn) && QuoteBuy(s, usdcIn).Ok?
    ensures Sound(Step(s, BuyOp(usdcIn)))
  {
    hide OnCurve, QuoteBuy, BuyFits, Add, Div, ComputeLtUntilGrad, IsWord;
    BuyAccounts(s, usdcIn);
    var b := QuoteBuy(s, usdcIn).value;
    SumFits(s.reserveAsset, b.amountInUsed);
    DivIs(s.k, s.reserveAsset + b.amountInUsed);
    FlooredIsOnCurve(s.k, s.reserveAsset + b.amountInUsed);
  }

  /** A sell's update puts the reserves back on the curve exactly when there are tokens to divide by. */
  lemma SellKeepsCurveIff(s: Pool, tokenIn: nat)
    requires Sound(s) && IsWord(s.reserveToken + tokenIn)
    ensures Sound(AfterSell(s, tokenIn)) <==> s.reserveToken + tokenIn > 0
  {
    hide Add, Div, IsWord;
    SumFits(s.reserveToken, tokenIn);
    if s.reserveToken + tokenIn > 0 {
      DivIs(s.k, s.reserveToken + tokenIn);
      FlooredIsOnCurve(s.k, s.reserveToken + tokenIn);
    } else {
      DivByZero(s.k);
    }
  }

  lemma DivByZero(x: nat)
    ensures Div(x, 0) == 0
  {
  }

  /** With an empty token reserve, a sell of zero tokens is quoted the whole asset reserve and breaks the curve. */
  lemma ZeroSellDrains()
    ensures var bt := BouncePool(1_000_000_000_000_000_000, 0, 0, 0, false, 1_000_000_000);
            var s := Pool(0, 100_000_000_000_000_000_000, 100_000_000_000_000_000_000, 0, 0, 0, Curve, 0, bt);
            Sound(s) && QuoteSell(s, 0) == Ok(Sell(100_000_000, 0)) && !Sound(AfterSell(s, 0))
  {
    var bt := BouncePool(1_000_000_000_000_000_000, 0, 0, 0, false, 1_000_000_000);
    var s := Pool(0, 100_000_000_000_000_000_000, 100_000_000_000_000_000_000, 0, 0, 0, Curve, 0, bt);
    hide GrossUsdc, RedeemFee, Mul, OnCurve;
    OnCurveIs(0, s.reserveAsset, s.k);
    DrainedGross(bt);
    ProductFits(100_000_000, 0, 0);
    SellKeepsCurveIff(s, 0);
  }

  lemma DrainedGross(bt: BouncePool)
    requires bt.exchangeRate == 1_000_000_000_000_000_000 && bt.redemptionFee == 0
    ensures GrossUsdc(bt, 100_000_000_000_000_000_000) == 100_000_000 && RedeemFee(bt, 100_000_000) == 0
  {
    hide Mul;
    ProductFits(100_000_000_000_000_000_000, bt.exchangeRate, 100_000_000_000_000_000_000_000_000_000_000_000_000);
    ProductFits(100_000_000, 0, 0);
    ProductFits(0, bt.targetLeverage, 0);
  }

  /** Every run of buys and sells keeps the reserves on the floored curve. */
  lemma {:induction false} RunKeepsCurve(s: Pool, ops: seq<Op>)
    requires Sound(s) && RunFits(s, ops)
    ensures Sound(Run(s, ops))
    decreases |ops|
  {
    hide Sound, Step, OpFits;
    if ops != [] {
      StepKeepsCurve(s, ops[0]);
      RunKeepsCurve(Step(s, ops[0]), ops[1..]);
    }
  }

  lemma StepKeepsCurve(s: Pool, op: Op)
    requires Sound(s) && OpFits(s, op)
    ensures Sound(Step(s, op))
  {
    hide QuoteBuy, QuoteSell, AfterBuy, AfterSell, BuyFits, Sound, IsWord;
    match op
    case BuyOp(usdcIn) =>
      if QuoteBuy(s, usdcIn).Ok? {
        BuyKeepsCurve(s, usdcIn);
      }
    case SellOp(tokenIn) =>
      if QuoteSell(s, tokenIn).Ok? {
        SellKeepsCurveIff(s, tokenIn);
      }
  }

  /** Once a pool has left its curve phase, every later quote is refused and nothing changes any more. */
  lemma {:induction false} GraduationIsFinal(s: Pool, ops: seq<Op>)
    requires s.lifecycle != Curve
    ensures Run(s, ops) == s
    ensures forall amount: nat :: QuoteBuy(s, amount).Err? && QuoteSell(s, amount).Err?
    decreases |ops|
  {
    hide CalcBuyOut, CalcSellOut;
    if ops != [] {
      GraduationIsFinal(s, ops[1..]);
    }
  }

  // ----- the simulator object

  /** Recomputing a reserve puts a pool with a positive product back on its curve exactly when there is something to
      divide by. */
  lemma FlooredPairIff(k: nat, divisor: nat)
    requires k > 0
    ensures OnCurve(Div(k, divisor), divisor, k) <==> divisor > 0
    ensures OnCurve(divisor, Div(k, divisor), k) <==> divisor > 0
  {
    if divisor > 0 {
      hide Div;
      DivIs(k, divisor);
      FlooredIsOnCurve(k, divisor);
    }
  }

  class PoolSimulator {
    var reserveToken: nat
    var reserveAsset: nat
    var tokenBalance: nat
    var lifecycle: Lifecycle
    const base: Pool

    function Value(): Pool
      reads this
    {
      base.(reserveToken := reserveToken, reserveAsset := reserveAsset, tokenBalance := tokenBalance,
        lifecycle := lifecycle)
    }

    constructor (s: Pool)
      ensures Value() == s
    {
      base := s;
      reserveToken, reserveAsset, tokenBalance, lifecycle := s.reserveToken, s.reserveAsset, s.tokenBalance,
        s.lifecycle;
    }

    /** The pool stays on its curve exactly when the reserve it divides by is not empty, and a buy after which nothing
        is left to raise starts graduation. */
    method UpdateBalance(isSell: bool, amountIn: nat, amountOut: nat, amountInUsed: nat)
      modifies this
      ensures Value() == if isSell then AfterSell(old(Value()), amountIn)
                         else AfterBuy(old(Value()), amountIn, amountOut, amountInUsed)
      ensures base.k > 0 ==> (Sound(Value()) <==> (if isSell then reserveToken else reserveAsset) > 0)
      ensures !isSell && ComputeLtUntilGrad(Value()) == 0 ==> lifecycle == Graduating
      ensures isSell || ComputeLtUntilGrad(Value()) > 0 ==> lifecycle == old(lifecycle)
    {
      hide ComputeLtUntilGrad, FallbackLt, OnCurve, Div, Add;
      if !isSell {
        var ltIn := amountInUsed;
        if ltIn == 0 {
          ltIn := FallbackLt(Value(), amountIn);
        }
        reserveAsset := Add(reserveAsset, ltIn);
        reserveToken := Div(base.k, reserveAsset);
        if amountOut < tokenBalance {
          tokenBalance := tokenBalance - amountOut;
        } else {
          tokenBalance := 0;
        }
        ghost var before := Value();
        if ComputeLtUntilGrad(Value()) == 0 {
          lifecycle := Graduating;
        }
        PhaseDoesNotCount(before, lifecycle);
        if base.k > 0 {
          FlooredPairIff(base.k, reserveAsset);
        }
      } else {
        reserveToken := Add(reserveToken, amountIn);
        reserveAsset := Div(base.k, reserveToken);
        tokenBalance := Add(tokenBalance, amountIn);
        if base.k > 0 {
          FlooredPairIff(base.k, reserveToken);
        }
      }
    }
  }

  lemma PhaseDoesNotCount(s: Pool, phase: Lifecycle)
    ensures ComputeLtUntilGrad(s.(lifecycle := phase)) == ComputeLtUntilGrad(s)
  {
    hide Div, Add, Sub, Mul;
  }
}
