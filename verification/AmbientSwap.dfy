/** The swap engine as it runs: curve, directive and accumulator are objects updated in place. Each method
is proved against the value function of the same step. */
module AmbientSwap {
  import opened Words
  import opened AmbientTicks
  import opened AmbientView
  import opened AmbientCurve
  import S = AmbientSweep

  class CurveState {
    var priceRoot: nat
    var ambientSeeds: nat
    var concLiq: nat
    var seedDeflator: nat
    var concGrowth: nat

    function Value(): Curve
      reads this
    {
      Curve(priceRoot, ambientSeeds, concLiq, seedDeflator, concGrowth)
    }

    constructor (c: Curve)
      ensures Value() == c
    {
      priceRoot, ambientSeeds, concLiq := c.priceRoot, c.ambientSeeds, c.concLiq;
      seedDeflator, concGrowth := c.seedDeflator, c.concGrowth;
    }

    method AssimilateLiq(e: Engine, feesPaid: nat, isSwapInBase: bool)
      modifies this
      ensures Value() == WithFees(e, old(Value()), feesPaid, isSwapInBase)
    {
      var a := e.assimilate(Value(), feesPaid, isSwapInBase);
      priceRoot, ambientSeeds := a.priceRoot, a.ambientSeeds;
      seedDeflator, concGrowth := a.seedDeflator, a.concGrowth;
    }

    method SetCurvePos(d: Direction, swapQty: nat, price: nat, paidFlow: nat, paidCounter: nat)
      returns (paidBase: nat, paidQuote: nat, qtyLeft: nat)
      modifies this`priceRoot
      ensures Rolled(priceRoot, paidBase, paidQuote, qtyLeft) == CurvePos(d, swapQty, price, paidFlow, paidCounter)
    {
      var spent := FlowToSpent(paidFlow, d.inBaseQty, d.isBuy);
      qtyLeft := 0;
      if spent < swapQty {
        qtyLeft := swapQty - spent;
      }
      if d.inBaseQty {
        paidBase, paidQuote := paidFlow, paidCounter;
      } else {
        paidBase, paidQuote := paidCounter, paidFlow;
      }
      priceRoot := price;
    }

    method SwapOverCurve(d: Direction, swapQty: nat, limitPrice: nat)
      returns (paidBase: nat, paidQuote: nat, qtyLeft: nat)
      modifies this`priceRoot
      ensures Rolled(priceRoot, paidBase, paidQuote, qtyLeft) ==
              AmbientCurve.SwapOverCurve(old(Value()), d, swapQty, limitPrice)
    {
      hide LimitFlow, DeriveFlowPrice, DeltaBase, DeltaQuote, ActiveLiquidity;
      var c := Value();
      var realFlows := CalcLimitFlows(c, swapQty, d.inBaseQty, limitPrice);
      if realFlows < swapQty {
        var (flow, counter) :=
          SignMagn(LimitFlow(c, d.inBaseQty, limitPrice), LimitFlow(c, !d.inBaseQty, limitPrice), d.inBaseQty, d.isBuy);
        paidBase, paidQuote, qtyLeft :=
          SetCurvePos(d, swapQty, limitPrice, Add(flow, ROUND_PRECISION_WEI), Add(counter, ROUND_PRECISION_WEI));
      } else {
        var liq := ActiveLiquidity(c);
        var nextPrice := DeriveFlowPrice(priceRoot, liq, realFlows, d.inBaseQty, d.isBuy);
        var magn := if d.inBaseQty then DeltaQuote(liq, priceRoot, nextPrice) else DeltaBase(liq, priceRoot, nextPrice);
        var (flow, counter) := SignMagn(realFlows, magn, d.inBaseQty, d.isBuy);
        paidBase, paidQuote, qtyLeft := SetCurvePos(d, swapQty, nextPrice, flow, Add(counter, ROUND_PRECISION_WEI));
      }
    }
  }

  class SwapDirective {
    var qty: nat
    const d: Direction

    constructor (qty: nat, d: Direction)
      ensures this.qty == qty && this.d == d
    {
      this.qty, this.d := qty, d;
    }
  }

  class SwapAccum {
    var flows: Flows
    var counters: S.Counters

    constructor ()
      ensures flows == Flows(0, 0, 0) && counters == S.Counters(0, 0, 0)
    {
      flows, counters := Flows(0, 0, 0), S.Counters(0, 0, 0);
    }

    method Accumulate(baseFlow: nat, quoteFlow: nat, protoFees: nat)
      modifies this`flows
      ensures flows == S.Accumulate(old(flows), baseFlow, quoteFlow, protoFees)
    {
      flows := Flows(Add(flows.baseFlow, baseFlow), Add(flows.quoteFlow, quoteFlow), Add(flows.protoFees, protoFees));
    }
  }

  /** The values of the three objects together. */
  function State(curve: CurveState, accum: SwapAccum, swap: SwapDirective): S.SwapState
    reads curve, accum, swap
  {
    S.SwapState(curve.Value(), accum.flows, accum.counters, swap.qty)
  }

  method SwapToLimit(e: Engine, curve: CurveState, accum: SwapAccum, swap: SwapDirective, pool: PoolParams,
      bumpTick: int)
    modifies curve, accum`flows, swap`qty
    ensures State(curve, accum, swap) == S.SwapToLimit(e, pool, swap.d, old(State(curve, accum, swap)), bumpTick)
  {
    hide BookedFees, AmbientCurve.SwapOverCurve, DetermineLimit;
    var limit := DetermineLimit(e, bumpTick, swap.d.limitPrice, swap.d.isBuy);
    var (liqFees, exchFees) := BookedFees(curve.Value(), swap.qty, pool, swap.d.inBaseQty, limit);
    curve.AssimilateLiq(e, liqFees, swap.d.inBaseQty);
    var fees := AssignFees(liqFees, exchFees, swap.d.inBaseQty);
    accum.Accumulate(fees.baseFlow, fees.quoteFlow, fees.protoFees);
    var paidBase, paidQuote, qtyLeft := curve.SwapOverCurve(swap.d, swap.qty, limit);
    swap.qty := qtyLeft;
    accum.Accumulate(paidBase, paidQuote, 0);
  }

  method AdjTickLiq(accum: SwapAccum, bumpTick: int, curve: CurveState, swap: SwapDirective, level: Level)
    returns (mid: int, failed: bool)
    modifies curve, accum, swap`qty
    ensures match S.AdjTickLiq(swap.d, old(State(curve, accum, swap)), bumpTick, level)
            case ShaveBurnDown(c) => failed && curve.Value() == c && swap.qty == old(swap.qty)
            case Crossed(s, m) => !failed && mid == m && State(curve, accum, swap) == s
  {
    hide S.CrossedLiq, S.PriceToTokenPrecision, ActiveLiquidity;
    if !IsTickFinite(bumpTick) {
      return bumpTick, false;
    }
    var isBuy := swap.d.isBuy;
    var crossedLots := if isBuy then level.askLots else level.bidLots;
    if crossedLots % 2 == 1 {
      accum.counters := accum.counters.(knockoutCrosses := accum.counters.knockoutCrosses + 1);
    }
    curve.concLiq := S.CrossedLiq(curve.concLiq, level, isBuy);
    var burnDown := S.PriceToTokenPrecision(ActiveLiquidity(curve.Value()), curve.priceRoot, swap.d.inBaseQty);
    if swap.qty <= burnDown {
      return 0, true;
    }
    curve.priceRoot := S.ShavedPrice(curve.priceRoot, isBuy);
    if isBuy {
      accum.Accumulate(burnDown, 0, 0);
    } else {
      accum.Accumulate(0, burnDown, 0);
    }
    swap.qty := Sub(swap.qty, if swap.d.inBaseQty == isBuy then burnDown else 0);
    accum.counters := accum.counters.(crossInitTicks := accum.counters.crossInitTicks + 1);
    return if isBuy then bumpTick else bumpTick - 1, false;
  }

  /** The part of an iteration after its first leg: seek past the word if the pin spilled, then cross. */
  method SeekAndCross(e: Engine, curve: CurveState, accum: SwapAccum, swap: SwapDirective, pool: PoolParams,
      bmp: BitmapView, pin: Pin, midTick: int, seen: bool)
    returns (mid: int, doMore: bool, failed: bool, exceeded: bool)
    modifies curve, accum, swap`qty
    ensures var y := S.Beyond(e, pool, swap.d, bmp,
            S.Sweep(old(State(curve, accum, swap)), midTick, true, false, seen), pin);
            && doMore == y.doMore && failed == y.failed && exceeded == y.exceeded && mid == y.mid
            && curve.Value() == y.s.curve && swap.qty == y.s.qty
            && (!failed ==> State(curve, accum, swap) == y.s)
  {
    hide S.SwapToLimit, S.AdjTickLiq, S.HasSwapLeft;
    var bumpTick := pin.tick;
    mid, doMore, failed, exceeded := midTick, true, false, seen;
    if pin.spills {
      var found := bmp.seek(bumpTick, swap.d.isBuy);
      exceeded := exceeded || found.exceeded;
      var tightSpill := bumpTick == found.tick;
      bumpTick := found.tick;
      if !tightSpill {
        SwapToLimit(e, curve, accum, swap, pool, bumpTick);
        doMore := S.HasSwapLeft(swap.d, State(curve, accum, swap));
        accum.counters := accum.counters.(pinSpills := accum.counters.pinSpills + 1);
      }
    }
    if doMore {
      var next;
      next, failed := AdjTickLiq(accum, bumpTick, curve, swap, bmp.level(bumpTick));
      if failed {
        doMore := false;
      } else {
        mid := next;
      }
    }
  }

  /** The sweep loop runs the value-level sweep to its end: it stops, and what the objects hold then is the
      final state of a run of at most one iteration more than the view has active ticks. */
  method SweepSwap(e: Engine, curve: CurveState, swap: SwapDirective, pool: PoolParams, bmp: BitmapView,
      ghost active: set<int>)
    returns (accum: SwapAccum, failed: bool, exceeded: bool)
    requires S.LimitInRange(swap.d) && Walks(bmp, active) && curve.concLiq < TWO_256
    requires IsTick(e.tickAtRatio(curve.priceRoot))
    modifies curve, swap`qty
    ensures fresh(accum)
    ensures var x := S.SweepRun(e, pool, swap.d, bmp, S.SweepStart(e, swap.d, old(curve.Value()), old(swap.qty)),
            |active| + 1);
            && !x.doMore && failed == x.failed && exceeded == x.exceeded
            && curve.Value() == x.s.curve && swap.qty == x.s.qty
            && (!failed ==> accum.flows == x.s.flows && accum.counters == x.s.counters)
  {
    hide S.SwapToLimit, S.Beyond, S.Remaining, Walks, S.HasSwapLeft, S.SweepRun, S.SweepInv, S.LimitInRange;
    var d := swap.d;
    accum := new SwapAccum();
    failed, exceeded := false, false;
    ghost var x0 := S.SweepStart(e, d, curve.Value(), swap.qty);
    S.StartSatisfies(e, d, bmp, active, curve.Value(), swap.qty);
    ghost var whole := S.SweepRun(e, pool, d, bmp, x0, |active| + 1);
    SweepIsBounded(e, pool, d, bmp, active, x0);
    if d.isBuy && curve.priceRoot >= d.limitPrice {
      RunStops(e, pool, d, bmp, x0, |active| + 1);
      return;
    }
    if !d.isBuy && curve.priceRoot <= d.limitPrice {
      RunStops(e, pool, d, bmp, x0, |active| + 1);
      return;
    }
    var midTick := e.tickAtRatio(curve.priceRoot);
    var doMore := true;
    ghost var fuel: nat := |active| + 1;
    ghost var x := x0;
    while doMore
      invariant x.mid == midTick && x.doMore == doMore && x.failed == failed && x.exceeded == exceeded
      invariant curve.Value() == x.s.curve && swap.qty == x.s.qty
      invariant !failed ==> State(curve, accum, swap) == x.s
      invariant doMore ==> !failed
      invariant S.SweepInv(d, bmp, active, x0, x)
      invariant S.SweepRun(e, pool, d, bmp, x, fuel) == whole
      invariant doMore ==> fuel > |S.Remaining(active, d.isBuy, x.mid)|
      decreases fuel
    {
      S.StepKeeps(e, pool, d, bmp, active, x0, x);
      RunTakesStep(e, pool, d, bmp, x, fuel);
      StepFailsOnlyAtEnd(e, pool, d, bmp, x);
      fuel := fuel - 1;
      x := S.SweepStep(e, pool, d, bmp, x);

      var pin := bmp.pin(d.isBuy, midTick);
      exceeded := exceeded || pin.exceeded;
      SwapToLimit(e, curve, accum, swap, pool, pin.tick);
      doMore := S.HasSwapLeft(d, State(curve, accum, swap));
      if !doMore {
        break;
      }
      midTick, doMore, failed, exceeded := SeekAndCross(e, curve, accum, swap, pool, bmp, pin, midTick, exceeded);
    }
    RunStops(e, pool, d, bmp, x, fuel);
  }

  lemma StepFailsOnlyAtEnd(e: Engine, pool: PoolParams, d: Direction, v: BitmapView, x: S.Sweep)
    requires !x.failed
    ensures var y := S.SweepStep(e, pool, d, v, x); y.doMore ==> !y.failed
  {
    hide S.SwapToLimit, S.AdjTickLiq, S.HasSwapLeft;
  }

  lemma SweepIsBounded(e: Engine, pool: PoolParams, d: Direction, v: BitmapView, active: set<int>, x0: S.Sweep)
    requires S.LimitInRange(d) && Walks(v, active) && S.SweepInv(d, v, active, x0, x0)
    ensures |S.Remaining(active, d.isBuy, x0.mid)| <= |active|
    ensures !S.SweepRun(e, pool, d, v, x0, |active| + 1).doMore
  {
    hide S.SweepRun, Walks, S.SweepInv;
    S.SubsetSize(S.Remaining(active, d.isBuy, x0.mid), active);
    S.SweepEnds(e, pool, d, v, active, x0, x0, |active| + 1);
  }

  lemma RunStops(e: Engine, pool: PoolParams, d: Direction, v: BitmapView, x: S.Sweep, fuel: nat)
    requires !x.doMore
    ensures S.SweepRun(e, pool, d, v, x, fuel) == x
  {
  }

  lemma RunTakesStep(e: Engine, pool: PoolParams, d: Direction, v: BitmapView, x: S.Sweep, fuel: nat)
    requires x.doMore && fuel > 0
    ensures S.SweepRun(e, pool, d, v, x, fuel) == S.SweepRun(e, pool, d, v, S.SweepStep(e, pool, d, v, x), fuel - 1)
  {
    hide S.SweepStep;
  }
}
