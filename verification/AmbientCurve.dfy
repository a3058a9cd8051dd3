/** One leg of an Ambient swap: moving the curve toward a limit price, charging fees on the output
side, and shaving a rounding buffer when a tick is crossed. */
module AmbientCurve {
  import opened Arith
  import opened Words

  const MIN_TICK: int := -665454
  const MAX_TICK: int := 831818
  const MIN_SQRT_RATIO: nat := 65538
  const MAX_SQRT_RATIO: nat := 21267430153580247136652501917186561138
  const ROUND_PRECISION_WEI: nat := 4
  const FEE_BP_MULT: nat := 1_000_000

  datatype Curve = Curve(priceRoot: nat, ambientSeeds: nat, concLiq: nat, seedDeflator: nat, concGrowth: nat)

  /** What booking liquidity fees into the curve may change: everything but the concentrated liquidity. */
  datatype Assimilated = Assimilated(priceRoot: nat, ambientSeeds: nat, seedDeflator: nat, concGrowth: nat)

  /** The arithmetic a swap takes from outside: tick and price conversion, and fee assimilation. */
  datatype Engine = Engine(
    ratioAtTick: int -> nat,
    tickAtRatio: nat -> int,
    assimilate: (Curve, nat, bool) -> Assimilated)

  datatype PoolParams = PoolParams(feeRate: nat, protocolTake: nat)

  datatype Direction = Direction(inBaseQty: bool, isBuy: bool, limitPrice: nat)

  datatype Flows = Flows(baseFlow: nat, quoteFlow: nat, protoFees: nat)

  // ----- liquidity and reserves

  function InflateLiqSeed(seed: nat, growth: nat): nat {
    Min(Mul(seed, TWO_48 + growth) / TWO_48, TWO_128 - 1)
  }

  function ActiveLiquidity(c: Curve): nat {
    Add(InflateLiqSeed(c.ambientSeeds, c.seedDeflator), c.concLiq)
  }

  function MulQ64(x: nat, y: nat): nat {
    Mul(x, y) / TWO_64
  }

  function DivQ64(x: nat, y: nat): nat {
    Div(Mul(x, TWO_64), y)
  }

  function RecipQ64(x: nat): nat {
    Div(TWO_128, x)
  }

  function DeltaBase(liq: nat, priceX: nat, priceY: nat): nat {
    MulQ64(liq, if priceX > priceY then priceX - priceY else priceY - priceX)
  }

  function DeltaQuote(liq: nat, price: nat, limitPrice: nat): nat {
    if limitPrice > price then QuoteDelta(liq, limitPrice, price) else QuoteDelta(liq, price, limitPrice)
  }

  function QuoteDelta(liq: nat, priceBig: nat, priceSmall: nat): nat {
    Div(Mul(DivQ64(liq, priceSmall), Sub(priceBig, priceSmall)), priceBig)
  }

  function ReserveAtPrice(liq: nat, price: nat, inBaseQty: bool): nat {
    if inBaseQty then MulQ64(liq, price) else DivQ64(liq, price)
  }

  // ----- limits

  function BoundLimit(e: Engine, bumpTick: int, limitPrice: nat, isBuy: bool): nat {
    if bumpTick <= MIN_TICK || bumpTick >= MAX_TICK then limitPrice
    else if isBuy then
      var bumpPrice := Sub(e.ratioAtTick(bumpTick), 1);
      if bumpPrice < limitPrice then bumpPrice else limitPrice
    else
      var bumpPrice := e.ratioAtTick(bumpTick);
      if bumpPrice > limitPrice then bumpPrice else limitPrice
  }

  function DetermineLimit(e: Engine, bumpTick: int, limitPrice: nat, isBuy: bool): (p: nat)
    ensures MIN_SQRT_RATIO <= p < MAX_SQRT_RATIO
  {
    var bounded := BoundLimit(e, bumpTick, limitPrice, isBuy);
    if bounded < MIN_SQRT_RATIO then MIN_SQRT_RATIO
    else if bounded >= MAX_SQRT_RATIO then MAX_SQRT_RATIO - 1
    else bounded
  }

  function LimitFlow(c: Curve, inBaseQty: bool, limitPrice: nat): nat {
    if inBaseQty then DeltaBase(ActiveLiquidity(c), c.priceRoot, limitPrice)
    else DeltaQuote(ActiveLiquidity(c), c.priceRoot, limitPrice)
  }

  function CalcLimitFlows(c: Curve, swapQty: nat, inBaseQty: bool, limitPrice: nat): nat {
    Min(swapQty, LimitFlow(c, inBaseQty, limitPrice))
  }

  // ----- fees

  function InvertFlow(liq: nat, price: nat, denomFlow: nat, isBuy: bool, inBaseQty: bool): nat {
    if liq == 0 then 0
    else
      var invertReserve := ReserveAtPrice(liq, price, !inBaseQty);
      var initReserve := ReserveAtPrice(liq, price, inBaseQty);
      var endReserve := if isBuy == inBaseQty then Add(initReserve, denomFlow) else Sub(initReserve, denomFlow);
      if endReserve == 0 then TWO_128 - 1
      else
        var endInvert := Div(Mul(liq, liq), endReserve);
        if endInvert > invertReserve then endInvert - invertReserve else invertReserve - endInvert
  }

  function CalcLimitCounter(c: Curve, swapQty: nat, inBaseQty: bool, limitPrice: nat): nat {
    InvertFlow(ActiveLiquidity(c), c.priceRoot, CalcLimitFlows(c, swapQty, inBaseQty, limitPrice),
               limitPrice > c.priceRoot, inBaseQty)
  }

  function CalcFeeOverFlow(flow: nat, feeRate: nat, protoProp: nat): (nat, nat) {
    var total := Mul(flow, feeRate) / FEE_BP_MULT;
    var proto := Mul(total, protoProp) / 256;
    (Sub(total, proto), proto)
  }

  function AssignFees(liqFees: nat, exchFees: nat, inBaseQty: bool): Flows {
    var total := Add(liqFees, exchFees);
    if inBaseQty then Flows(0, total, exchFees) else Flows(total, 0, exchFees)
  }

  function BookedFees(c: Curve, swapQty: nat, pool: PoolParams, inBaseQty: bool, limitPrice: nat): (nat, nat) {
    CalcFeeOverFlow(CalcLimitCounter(c, swapQty, inBaseQty, limitPrice), pool.feeRate, pool.protocolTake)
  }

  function WithFees(e: Engine, c: Curve, liqFees: nat, inBaseQty: bool): Curve {
    var a := e.assimilate(c, liqFees, inBaseQty);
    c.(priceRoot := a.priceRoot, ambientSeeds := a.ambientSeeds, seedDeflator := a.seedDeflator,
      concGrowth := a.concGrowth)
  }

  // ----- rolling the curve

  function CalcBaseFlowPrice(price: nat, liq: nat, flow: nat, isBuy: bool): nat {
    if liq == 0 then MAX_SQRT_RATIO - 1
    else
      var delta := DivQ64(flow, liq);
      if delta > TWO_128 - 1 then MAX_SQRT_RATIO - 1
      else if isBuy then Add(price, delta)
      else if delta >= price then 0
      else Sub(price - delta, 1)
  }

  function CalcQuoteFlowPrice(price: nat, liq: nat, flow: nat, isBuy: bool): nat {
    var invNext := CalcBaseFlowPrice(RecipQ64(price), liq, flow, !isBuy);
    if invNext == 0 then MAX_SQRT_RATIO else Add(RecipQ64(invNext), 1)
  }

  function DeriveFlowPrice(price: nat, liq: nat, flow: nat, inBaseQty: bool, isBuy: bool): nat {
    var p := if inBaseQty then CalcBaseFlowPrice(price, liq, flow, isBuy)
      else CalcQuoteFlowPrice(price, liq, flow, isBuy);
    if p >= MAX_SQRT_RATIO then MAX_SQRT_RATIO - 1 else if p < MIN_SQRT_RATIO then MIN_SQRT_RATIO else p
  }

  /** The paying side is positive, the receiving side negative. */
  function SignMagn(flowMagn: nat, counterMagn: nat, inBaseQty: bool, isBuy: bool): (nat, nat) {
    if inBaseQty == isBuy then (flowMagn, Neg(counterMagn)) else (Neg(flowMagn), counterMagn)
  }

  function FlowToSpent(paidFlow: nat, inBaseQty: bool, isBuy: bool): nat {
    if (inBaseQty == isBuy) == (Sign(paidFlow) > 0)
    then if Sign(paidFlow) < 0 then Neg(paidFlow) else paidFlow
    else 0
  }

  datatype Rolled = Rolled(price: nat, paidBase: nat, paidQuote: nat, qtyLeft: nat)

  function CurvePos(d: Direction, swapQty: nat, price: nat, paidFlow: nat, paidCounter: nat): Rolled {
    var spent := FlowToSpent(paidFlow, d.inBaseQty, d.isBuy);
    var left := if spent < swapQty then swapQty - spent else 0;
    if d.inBaseQty then Rolled(price, paidFlow, paidCounter, left) else Rolled(price, paidCounter, paidFlow, left)
  }

  function RollFlow(c: Curve, d: Direction, flow: nat, swapQty: nat): Rolled {
    var liq := ActiveLiquidity(c);
    var nextPrice := DeriveFlowPrice(c.priceRoot, liq, flow, d.inBaseQty, d.isBuy);
    var counter := if d.inBaseQty then DeltaQuote(liq, c.priceRoot, nextPrice)
      else DeltaBase(liq, c.priceRoot, nextPrice);
    var (paidFlow, paidCounter) := SignMagn(flow, counter, d.inBaseQty, d.isBuy);
    CurvePos(d, swapQty, nextPrice, paidFlow, Add(paidCounter, ROUND_PRECISION_WEI))
  }

  function RollPrice(c: Curve, d: Direction, price: nat, swapQty: nat): Rolled {
    var (paidFlow, paidCounter) :=
      SignMagn(LimitFlow(c, d.inBaseQty, price), LimitFlow(c, !d.inBaseQty, price), d.inBaseQty, d.isBuy);
    CurvePos(d, swapQty, price, Add(paidFlow, ROUND_PRECISION_WEI), Add(paidCounter, ROUND_PRECISION_WEI))
  }

  function SwapOverCurve(c: Curve, d: Direction, swapQty: nat, limitPrice: nat): Rolled {
    var realFlows := CalcLimitFlows(c, swapQty, d.inBaseQty, limitPrice);
    if realFlows < swapQty then RollPrice(c, d, limitPrice, swapQty) else RollFlow(c, d, realFlows, swapQty)
  }

  // ----- a leg, with the quantity fixed on the input or on the output side

  /** The flow up to a valid limit price is far from the sign bit. */
  lemma LimitFlowIsSmall(c: Curve, inBaseQty: bool, limitPrice: nat)
    requires limitPrice >= MIN_SQRT_RATIO
    ensures LimitFlow(c, inBaseQty, limitPrice) < TWO_255 - ROUND_PRECISION_WEI
  {
    hide ActiveLiquidity, DivQ64, Div, Times;
    if !inBaseQty {
      var liq := ActiveLiquidity(c);
      var big := if limitPrice > c.priceRoot then limitPrice else c.priceRoot;
      var small := if limitPrice > c.priceRoot then c.priceRoot else limitPrice;
      var n := Mul(DivQ64(liq, small), Sub(big, small));
      assert LimitFlow(c, inBaseQty, limitPrice) == Div(n, big);
      DivIs(n, big);
      FloorAtLeast(n, big, TWO_255 - ROUND_PRECISION_WEI);
      MulMono(MIN_SQRT_RATIO, big, TWO_255 - ROUND_PRECISION_WEI);
    }
  }

  /** What a leg charges on the side the quantity is fixed on: positive when that is the input. */
  function PaidOnQty(d: Direction, r: Rolled): nat {
    if d.inBaseQty then r.paidBase else r.paidQuote
  }

  /** What ends a leg: with the quantity as the input it charges what it takes off it, up to 3 wei more when it
      runs out; with the quantity as the output it pays out what it takes off, up to 4 wei less. */
  predicate Settles(d: Direction, swapQty: nat, r: Rolled) {
    && r.qtyLeft <= swapQty
    && if d.inBaseQty == d.isBuy
       then
         && 0 <= PaidOnQty(d, r) + r.qtyLeft - swapQty <= 3
         && (r.qtyLeft > 0 ==> PaidOnQty(d, r) + r.qtyLeft == swapQty)
         && PaidOnQty(d, r) < TWO_255
       else (swapQty - r.qtyLeft + PaidOnQty(d, r)) % TWO_256 <= ROUND_PRECISION_WEI
  }

  /** The two's complement of a quantity clear of the sign bit. */
  lemma NegIs(y: nat)
    requires 0 < y < TWO_255
    ensures Neg(y) == TWO_256 - y && Sign(Neg(y)) < 0 && Neg(Neg(y)) == y
  {
  }

  lemma SpentInput(d: Direction, paid: nat)
    requires d.inBaseQty == d.isBuy && paid < TWO_255
    ensures FlowToSpent(paid, d.inBaseQty, d.isBuy) == paid
  {
  }

  /** `out` is what a leg pays out, negative if it charges instead. */
  lemma SpentOutput(d: Direction, out: int, paid: nat)
    requires d.inBaseQty != d.isBuy && 0 < out + TWO_255 && out < TWO_255 && paid == (-out) % TWO_256
    ensures FlowToSpent(paid, d.inBaseQty, d.isBuy) == if out > 0 then out else 0
  {
    if out > 0 {
      NegIs(out);
    }
  }

  lemma OutputSettles(d: Direction, swapQty: nat, r: Rolled, out: int)
    requires d.inBaseQty != d.isBuy && 0 <= out + ROUND_PRECISION_WEI && out <= swapQty
    requires PaidOnQty(d, r) == (-out) % TWO_256 && r.qtyLeft == swapQty - if out > 0 then out else 0
    ensures Settles(d, swapQty, r)
  {
    hide PaidOnQty;
    PaysOut(swapQty - r.qtyLeft, out);
  }

  lemma PaysOut(taken: int, out: int)
    requires 0 <= taken - out < TWO_256
    ensures (taken + (-out) % TWO_256) % TWO_256 == taken - out
  {
  }

  /** A leg that reaches its price charges the flow and the rounding buffer. */
  lemma ReachSettles(d: Direction, swapQty: nat, price: nat, flow: nat, counter: nat, paid: nat)
    requires flow < swapQty && flow < TWO_255 - ROUND_PRECISION_WEI
    ensures Settles(d, swapQty, CurvePos(d, swapQty, price,
              Add(SignMagn(flow, counter, d.inBaseQty, d.isBuy).0, ROUND_PRECISION_WEI), paid))
  {
    var paidFlow := Add(SignMagn(flow, counter, d.inBaseQty, d.isBuy).0, ROUND_PRECISION_WEI);
    hide FlowToSpent, Settles, Add, Neg;
    if d.inBaseQty == d.isBuy {
      SumFits(flow, ROUND_PRECISION_WEI);
      InputSettles(d, swapQty, price, paidFlow, paid);
    } else {
      Buffered(flow);
      SpentOutput(d, flow - ROUND_PRECISION_WEI, paidFlow);
      OutputSettles(d, swapQty, CurvePos(d, swapQty, price, paidFlow, paid), flow - ROUND_PRECISION_WEI);
    }
  }

  lemma InputSettles(d: Direction, swapQty: nat, price: nat, paidFlow: nat, paid: nat)
    requires d.inBaseQty == d.isBuy && paidFlow < swapQty + ROUND_PRECISION_WEI && paidFlow < TWO_255
    ensures Settles(d, swapQty, CurvePos(d, swapQty, price, paidFlow, paid))
  {
    hide FlowToSpent;
    SpentInput(d, paidFlow);
  }

  lemma Buffered(flow: nat)
    ensures Add(Neg(flow), ROUND_PRECISION_WEI) == (ROUND_PRECISION_WEI - flow as int) % TWO_256
  {
  }

  /** A leg that stops short of its price charges exactly the quantity. */
  lemma StopSettles(d: Direction, swapQty: nat, price: nat, counter: nat, paid: nat)
    requires swapQty < TWO_255 - ROUND_PRECISION_WEI
    ensures var r := CurvePos(d, swapQty, price, SignMagn(swapQty, counter, d.inBaseQty, d.isBuy).0, paid);
            Settles(d, swapQty, r) && r.qtyLeft == 0
  {
    var paidFlow := SignMagn(swapQty, counter, d.inBaseQty, d.isBuy).0;
    hide FlowToSpent;
    if d.inBaseQty == d.isBuy {
      SpentInput(d, swapQty);
    } else {
      hide Settles;
      SpentOutput(d, swapQty, paidFlow);
      OutputSettles(d, swapQty, CurvePos(d, swapQty, price, paidFlow, paid), swapQty);
    }
  }

  /** A leg spends the whole quantity or reaches its limit price, whichever side the quantity is fixed on, and
      settles. */
  lemma LegSpendsOrReaches(c: Curve, d: Direction, swapQty: nat, limitPrice: nat)
    requires limitPrice >= MIN_SQRT_RATIO
    ensures var r := SwapOverCurve(c, d, swapQty, limitPrice);
            (r.qtyLeft == 0 || r.price == limitPrice) && Settles(d, swapQty, r)
  {
    hide LimitFlow, DeriveFlowPrice, ActiveLiquidity, DeltaQuote, DeltaBase, Settles, CurvePos, SignMagn;
    LimitFlowIsSmall(c, d.inBaseQty, limitPrice);
    var flow, liq := LimitFlow(c, d.inBaseQty, limitPrice), ActiveLiquidity(c);
    if flow < swapQty {
      var counter := LimitFlow(c, !d.inBaseQty, limitPrice);
      var (paidFlow, paidCounter) := SignMagn(flow, counter, d.inBaseQty, d.isBuy);
      var paid := Add(paidCounter, ROUND_PRECISION_WEI);
      ReachSettles(d, swapQty, limitPrice, flow, counter, paid);
      PriceOfLeg(d, swapQty, limitPrice, Add(paidFlow, ROUND_PRECISION_WEI), paid);
    } else {
      var price := DeriveFlowPrice(c.priceRoot, liq, swapQty, d.inBaseQty, d.isBuy);
      var counter := if d.inBaseQty then DeltaQuote(liq, c.priceRoot, price) else DeltaBase(liq, c.priceRoot, price);
      StopSettles(d, swapQty, price, counter,
        Add(SignMagn(swapQty, counter, d.inBaseQty, d.isBuy).1, ROUND_PRECISION_WEI));
    }
  }

  lemma PriceOfLeg(d: Direction, swapQty: nat, price: nat, paidFlow: nat, paidCounter: nat)
    ensures CurvePos(d, swapQty, price, paidFlow, paidCounter).price == price
  {
  }
}
