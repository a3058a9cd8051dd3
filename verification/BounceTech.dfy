/** Bounce-Tech leveraged tokens: USDC is minted into and redeemed from LT at a fixed exchange rate. */
module BounceTech {
  import opened Arith
  import opened Words
  import opened Outcomes

  const SCALE_UP: nat := 1_000_000_000_000
  const PRECISION: nat := 1_000_000_000_000_000_000
  const MINT_SCALE: nat := SCALE_UP * PRECISION

  type Result<T> = Outcome<T, string>

  datatype BouncePool = BouncePool(
    exchangeRate: nat, redemptionFee: nat, targetLeverage: nat, minTxSize: nat, mintPaused: bool, usdcReserve: nat)

  /** usdcIn * 10^30 / exchangeRate, rounded down. */
  function CalcMintOut(p: BouncePool, usdcIn: nat): nat {
    Div(Mul(Mul(usdcIn, SCALE_UP), PRECISION), p.exchangeRate)
  }

  function Mint(p: BouncePool, usdcIn: nat): Result<nat> {
    if usdcIn == 0 then Err("zero amount")
    else if p.exchangeRate == 0 then Err("zero exchange rate")
    else if p.mintPaused then Err("mint is paused")
    else if p.minTxSize != 0 && usdcIn < p.minTxSize then Err("below min transaction size")
    else if CalcMintOut(p, usdcIn) == 0 then Err("zero amount")
    else Ok(CalcMintOut(p, usdcIn))
  }

  /** Gross USDC of an LT amount. */
  function GrossUsdc(p: BouncePool, ltIn: nat): nat {
    Mul(ltIn, p.exchangeRate) / PRECISION / SCALE_UP
  }

  function RedeemFee(p: BouncePool, gross: nat): (fee: nat)
    ensures fee <= gross
  {
    Min(gross, Mul(Mul(gross, p.redemptionFee) / PRECISION, p.targetLeverage) / PRECISION)
  }

  /** Net USDC and fee of a redemption. */
  function Redeem(p: BouncePool, ltIn: nat): Result<(nat, nat)> {
    if ltIn == 0 then Err("zero amount")
    else if p.exchangeRate == 0 then Err("zero exchange rate")
    else PayOut(p, GrossUsdc(p, ltIn), RedeemFee(p, GrossUsdc(p, ltIn)))
  }

  function PayOut(p: BouncePool, gross: nat, fee: nat): Result<(nat, nat)>
    requires fee <= gross
  {
    if p.minTxSize != 0 && gross < p.minTxSize then Err("below min transaction size")
    else if gross > p.usdcReserve then Err("insufficient base asset balance")
    else if gross == fee then Err("zero amount")
    else Ok((gross - fee, fee))
  }

  /** Amounts that can be scaled to 10^30 inside a word. */
  predicate Mintable(usdcIn: nat) {
    IsWord(usdcIn * MINT_SCALE)
  }

  lemma MintOutIsExact(p: BouncePool, usdcIn: nat)
    requires Mintable(usdcIn) && p.exchangeRate > 0
    ensures CalcMintOut(p, usdcIn) == usdcIn * MINT_SCALE / p.exchangeRate
  {
    hide Div, Mul, IsWord;
    WordMono(usdcIn * SCALE_UP, usdcIn * MINT_SCALE);
    ProductFits(usdcIn, SCALE_UP, usdcIn * SCALE_UP);
    ProductFits(usdcIn * SCALE_UP, PRECISION, usdcIn * MINT_SCALE);
    DivIs(usdcIn * MINT_SCALE, p.exchangeRate);
  }

  /** More USDC never mints less LT. */
  lemma MintOutMono(p: BouncePool, x: nat, y: nat)
    requires x <= y && Mintable(y) && p.exchangeRate > 0
    ensures CalcMintOut(p, x) <= CalcMintOut(p, y)
  {
    hide CalcMintOut;
    MintOutIsExact(p, x);
    MintOutIsExact(p, y);
    DivMono(x * MINT_SCALE, y * MINT_SCALE, p.exchangeRate);
  }

  lemma GrossIsExact(p: BouncePool, lt: nat, n: nat)
    requires n == lt * p.exchangeRate && IsWord(n)
    ensures GrossUsdc(p, lt) == n / MINT_SCALE
  {
    hide Mul;
    ProductFits(lt, p.exchangeRate, n);
  }

  /** One unit more than the floored cost of an LT amount always mints at least that amount. */
  lemma OneMoreSuffices(p: BouncePool, lt: nat, n: nat)
    requires p.exchangeRate > 0 && n == lt * p.exchangeRate && IsWord(n) && Mintable(GrossUsdc(p, lt) + 1)
    ensures CalcMintOut(p, GrossUsdc(p, lt) + 1) >= lt
  {
    hide CalcMintOut, GrossUsdc;
    GrossIsExact(p, lt, n);
    var base := GrossUsdc(p, lt) + 1;
    MintOutIsExact(p, base);
    FloorAtLeast(base * MINT_SCALE, p.exchangeRate, lt);
  }
}
