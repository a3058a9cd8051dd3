/** Why the sweep needs its limit price inside the price range: with the limit at the top of it, a buy for a fixed
output never ends once it stands there. */
module AmbientLimits {
  import opened Words
  import opened AmbientTicks
  import opened AmbientView
  import opened AmbientChainWalk
  import opened AmbientCurve
  import opened AmbientSweep
  import opened AmbientBeyond
  import C = AmbientChainView

  /** The view of a pool without active ticks. */
  const EMPTY_VIEW: BitmapView := BitmapView(
    (isBuy, startTick) => Pin(C.SpillOverPin(isBuy, MezzKey(startTick)), true, false),
    (borderTick, isBuy) => Found(ZeroTick(isBuy), false),
    tick => Level(0, 0))

  lemma EmptyWalks()
    ensures Walks(EMPTY_VIEW, {})
  {
    hide C.SpillOverPin, MezzKey;
    forall isBuy, mid | IsTick(mid)
      ensures PinWalks(EMPTY_VIEW.pin(isBuy, mid), {}, isBuy, mid)
    {
      SpillPinShape(isBuy, mid);
    }
  }

  const TOP: nat := MAX_SQRT_RATIO - 1

  /** A buy of a fixed output whose limit price is beyond the range. */
  predicate BuysOutputBeyond(d: Direction) {
    d.isBuy && !d.inBaseQty && d.limitPrice >= MAX_SQRT_RATIO
  }

  /** Something is left at the top price, and no border lies ahead inside the tick range. */
  predicate Stuck(x: Sweep) {
    && x.doMore && !x.failed && x.s.qty > 0 && x.s.curve.priceRoot == TOP
    && C.SpillOverPin(true, MezzKey(x.mid)) >= MAX_TICK
  }

  lemma NoFlowInPlace(c: Curve)
    requires c.priceRoot == TOP
    ensures LimitFlow(c, false, TOP) == 0
  {
    hide ActiveLiquidity, DivQ64, Times;
    TimesIs(DivQ64(ActiveLiquidity(c), TOP), 0);
  }

  /** A leg at the top price pays nothing out and leaves the quantity as it is. */
  lemma LegStays(e: Engine, pool: PoolParams, d: Direction, s: SwapState, tick: int)
    requires FeeFree(e, pool) && BuysOutputBeyond(d) && s.qty > 0 && s.curve.priceRoot == TOP && tick >= MAX_TICK
    ensures var t := SwapToLimit(e, pool, d, s, tick);
            t.qty == s.qty && t.curve == s.curve && HasSwapLeft(d, t)
  {
    hide BookedFees, WithFees, LimitFlow;
    assert DetermineLimit(e, tick, d.limitPrice, true) == TOP;
    NoFees(e, pool, d, s.curve, s.qty, TOP);
    assert WithFees(e, s.curve, 0, false) == s.curve;
    NoFlowInPlace(s.curve);
  }

  lemma StuckStays(e: Engine, pool: PoolParams, d: Direction, x: Sweep)
    requires FeeFree(e, pool) && BuysOutputBeyond(d) && Stuck(x)
    ensures Stuck(SweepStep(e, pool, d, EMPTY_VIEW, x))
  {
    hide SwapToLimit, HasSwapLeft, FeeFree;
    assert C.SpillOverPin(true, MezzKey(TICK_UPPER)) == TICK_UPPER;
    hide C.SpillOverPin, MezzKey;
    var p := EMPTY_VIEW.pin(true, x.mid);
    LegStays(e, pool, d, x.s, p.tick);
    LegStays(e, pool, d, SwapToLimit(e, pool, d, x.s, p.tick), TICK_UPPER);
  }

  lemma {:induction false} StuckNeverEnds(e: Engine, pool: PoolParams, d: Direction, x: Sweep, fuel: nat)
    requires FeeFree(e, pool) && BuysOutputBeyond(d) && Stuck(x)
    ensures SweepRun(e, pool, d, EMPTY_VIEW, x, fuel).doMore
    decreases fuel
  {
    hide SweepStep, FeeFree;
    if fuel > 0 {
      StuckStays(e, pool, d, x);
      StuckNeverEnds(e, pool, d, SweepStep(e, pool, d, EMPTY_VIEW, x), fuel - 1);
    }
  }

  /** From the top price the sweep goes on after any number of iterations, although the view has no active tick. */
  lemma OutputBeyondNeverEnds(e: Engine, pool: PoolParams, d: Direction, c: Curve, qty: nat, fuel: nat)
    requires FeeFree(e, pool) && BuysOutputBeyond(d) && c.priceRoot == TOP && qty > 0
    requires MAX_TICK - MAX_TICK % 0x100 <= e.tickAtRatio(TOP) <= TICK_UPPER
    ensures Walks(EMPTY_VIEW, {}) && SweepRun(e, pool, d, EMPTY_VIEW, SweepStart(e, d, c, qty), fuel).doMore
  {
    hide FeeFree, SweepRun;
    EmptyWalks();
    StuckNeverEnds(e, pool, d, SweepStart(e, d, c, qty), fuel);
  }
}
