/** A leg of the sweep with its fees, and a whole sweep over a book without active ticks, in plain arithmetic. */
module AmbientLegs {
  import opened Arith
  import opened Words
  import opened AmbientTicks
  import opened AmbientView
  import opened AmbientChainWalk
  import opened AmbientCurve
  import opened AmbientPays
  import opened AmbientSweep
  import opened AmbientBeyond
  import opened AmbientLimits
  import C = AmbientChainView

  // ----- the limit of a leg

  /** A buyer's leg ends one below the price of the tick ahead, a seller's at it, and neither beyond the limit price; no
      tick bounds it outside the tick range. */
  lemma LimitIs(e: Engine, tick: int, limitPrice: nat, isBuy: bool)
    requires InRange(limitPrice)
    ensures tick <= MIN_TICK || tick >= MAX_TICK ==> DetermineLimit(e, tick, limitPrice, isBuy) == limitPrice
    ensures var p := e.ratioAtTick(tick);
            MIN_TICK < tick < MAX_TICK && MIN_SQRT_RATIO < p < MAX_SQRT_RATIO ==>
              DetermineLimit(e, tick, limitPrice, isBuy) == if isBuy then Min(p - 1, limitPrice) else Max(p, limitPrice)
  {
  }

  // ----- one leg with its fees

  /** Sums of flows are words. */
  predicate Booked(after: nat, before: nat, paid: nat, fees: nat) {
    after == (before + fees + paid) % TWO_256
  }

  /** The leg's books: the curve with the liquidity's fees in it and then at the leg's last price, the quantity left,
      and on each side what the leg pays, with all fees on the side that the quantity is not fixed on. */
  predicate LegBooks(e: Engine, d: Direction, s: SwapState, t: SwapState, liqFees: nat, protoFees: nat, r: Rolled) {
    var total := liqFees + protoFees;
    && t == SwapState(WithFees(e, s.curve, liqFees, d.inBaseQty).(priceRoot := r.price), t.flows, s.counters, r.qtyLeft)
    && Booked(t.flows.baseFlow, s.flows.baseFlow, r.paidBase, if d.inBaseQty then 0 else total)
    && Booked(t.flows.quoteFlow, s.flows.quoteFlow, r.paidQuote, if d.inBaseQty then total else 0)
    && Booked(t.flows.protoFees, s.flows.protoFees, 0, protoFees)
  }

  /** The active liquidity is positive, and it and the price leave every product of the leg within a word. */
  predicate LegFits(c: Curve, limit: nat) {
    && 0 < ActiveLiquidity(c) < TWO_128 && InRange(c.priceRoot) && InRange(limit)
    && QuoteFits(ActiveLiquidity(c), c.priceRoot, limit)
  }

  /** What a leg takes as fees and pays, from its inputs. */
  lemma SwapToLimitPays(e: Engine, pool: PoolParams, d: Direction, s: SwapState, bumpTick: int)
    requires var limit := DetermineLimit(e, bumpTick, d.limitPrice, d.isBuy);
             var liqFees := BookedFees(s.curve, s.qty, pool, d.inBaseQty, limit).0;
             var c := WithFees(e, s.curve, liqFees, d.inBaseQty);
             && LegFits(s.curve, limit) && LegFits(c, limit)
             && CalcLimitCounter(s.curve, s.qty, d.inBaseQty, limit) * pool.feeRate < TWO_256
             && pool.protocolTake <= 256
             && var q := SwapToLimit(e, pool, d, s, bumpTick).curve.priceRoot;
                q > 0 ==> QuoteFits(ActiveLiquidity(c), c.priceRoot, q)
    ensures var limit := DetermineLimit(e, bumpTick, d.limitPrice, d.isBuy);
            exists liqFees: nat, protoFees: nat, r: Rolled ::
              LegIs(e, pool, d, s, SwapToLimit(e, pool, d, s, bumpTick), limit, liqFees, protoFees, r)
  {
    hide BookedFees, SwapOverCurve, DetermineLimit, ActiveLiquidity, LegComesTo, FeesOf, WithFees, QuoteFits,
      CalcLimitCounter, LegBooks;
    var limit := DetermineLimit(e, bumpTick, d.limitPrice, d.isBuy);
    var (liqFees, protoFees) := BookedFees(s.curve, s.qty, pool, d.inBaseQty, limit);
    var c := WithFees(e, s.curve, liqFees, d.inBaseQty);
    FeesAre(s.curve, s.qty, pool, d.inBaseQty, limit);
    LegPays(c, d, s.qty, limit);
    var r := SwapOverCurve(c, d, s.qty, limit);
    LegIsBooked(e, pool, d, s, bumpTick);
    assert LegIs(e, pool, d, s, SwapToLimit(e, pool, d, s, bumpTick), limit, liqFees, protoFees, r);
  }

  ghost predicate LegIs(e: Engine, pool: PoolParams, d: Direction, s: SwapState, t: SwapState, limit: nat, liqFees: nat,
      protoFees: nat, r: Rolled) {
    var c := WithFees(e, s.curve, liqFees, d.inBaseQty);
    && LegFits(s.curve, limit) && LegFits(c, limit)
    && FeesOf(ActiveLiquidity(s.curve), s.curve.priceRoot, pool, d.inBaseQty, s.qty, limit, liqFees, protoFees)
    && LegComesTo(ActiveLiquidity(c), c.priceRoot, d, s.qty, limit, r)
    && LegBooks(e, d, s, t, liqFees, protoFees, r)
  }

  lemma LegIsBooked(e: Engine, pool: PoolParams, d: Direction, s: SwapState, bumpTick: int)
    ensures var limit := DetermineLimit(e, bumpTick, d.limitPrice, d.isBuy);
            var (liqFees, protoFees) := BookedFees(s.curve, s.qty, pool, d.inBaseQty, limit);
            var r := SwapOverCurve(WithFees(e, s.curve, liqFees, d.inBaseQty), d, s.qty, limit);
            LegBooks(e, d, s, SwapToLimit(e, pool, d, s, bumpTick), liqFees, protoFees, r)
  {
    hide BookedFees, SwapOverCurve, DetermineLimit, WithFees, Add;
    var limit := DetermineLimit(e, bumpTick, d.limitPrice, d.isBuy);
    var (liqFees, protoFees) := BookedFees(s.curve, s.qty, pool, d.inBaseQty, limit);
    var r := SwapOverCurve(WithFees(e, s.curve, liqFees, d.inBaseQty), d, s.qty, limit);
    SumsWrap(s.flows.baseFlow, liqFees, protoFees, r.paidBase);
    SumsWrap(s.flows.quoteFlow, liqFees, protoFees, r.paidQuote);
    SumsWrap(s.flows.protoFees, liqFees, protoFees, 0);
  }

  lemma SumsWrap(x: nat, liqFees: nat, protoFees: nat, paid: nat)
    ensures Add(Add(x, Add(liqFees, protoFees)), paid) == (x + (liqFees + protoFees) + paid) % TWO_256
    ensures Add(Add(x, 0), paid) == (x + 0 + paid) % TWO_256
    ensures Add(Add(x, protoFees), paid) == (x + protoFees + paid) % TWO_256
  {
    ModSum(x, liqFees + protoFees);
    assert Add(x, Add(liqFees, protoFees)) == Add(x, liqFees + protoFees);
    AddTwice(x, liqFees + protoFees, paid);
    AddTwice(x, 0, paid);
    AddTwice(x, protoFees, paid);
  }

  lemma AddTwice(x: nat, y: nat, z: nat)
    ensures Add(Add(x, y), z) == (x + y + z) % TWO_256
  {
    WrapAdds(x + y, z);
  }

  // ----- one crossing

  /** What a crossing burns: one more than the reserves between neighbouring prices, of base or, just below, of
      quote. */
  function Burn(liq: nat, price: nat, inBaseQty: bool): int
    requires price > 1
  {
    if inBaseQty then liq / TWO_64 + 1 else liq * TWO_64 / (price - 1) - liq * TWO_64 / price + 1
  }

  lemma BurnIs(liq: nat, price: nat, inBaseQty: bool)
    requires liq < TWO_128 && InRange(price)
    ensures PriceToTokenPrecision(liq, price, inBaseQty) == Burn(liq, price, inBaseQty)
  {
    hide DivQ64;
    FirstFloor(liq, price);
    FirstFloor(liq, price - 1);
    NeighbouringFloors(liq * TWO_64, price);
    var high, low := liq * TWO_64 / (price - 1), liq * TWO_64 / price;
    DifferenceFits(price, 1);
    DifferenceFits(high, low);
    SumFits(high - low, 1);
    SumFits(liq / TWO_64, 1);
    hide Add, Sub;
  }

  lemma NeighbouringFloors(a: nat, price: nat)
    requires price > 1
    ensures 0 <= a / price <= a / (price - 1) <= a
  {
    DivNat(a, price);
    FloorAtLeast(a, price, a / price);
    FloorAtLeast(a, price - 1, a / price);
    MulMono(price - 1, price, a / price);
    DivAtMost(a, price - 1);
  }

  /** Lots count 1024 units each; the lowest bit is a flag. */
  lemma LotsAre(lots: nat)
    requires lots < TWO_128
    ensures LotsToLiquidity(lots) == lots / 2 * 2048
  {
  }

  /** The price after a crossing is one further, unless it stands at the end of the range. */
  function OneFurther(price: nat, isBuy: bool): int {
    if isBuy then if InRange(price + 1) then price + 1 else price
    else if price > 0 && InRange(price - 1) then price - 1 else price
  }

  /** The concentrated liquidity after a crossing: that of the bids is added on the way up and that of the asks taken
      off, and the other way round on the way down. */
  predicate LiquidityCrossed(after: nat, before: nat, level: Level, isBuy: bool) {
    var up := level.bidLots / 2 * 2048 - level.askLots / 2 * 2048;
    after == (before + if isBuy then up else -up) % TWO_256
  }

  /** A crossing fails exactly when the quantity does not exceed what is burnt. Otherwise the burn is charged to the
      side that the swap pays, comes off an input quantity, and the price moves one further. */
  lemma CrossingPays(d: Direction, s: SwapState, tick: int, level: Level, c: Curve)
    requires IsTickFinite(tick) && level.bidLots < TWO_128 && level.askLots < TWO_128
    requires s.qty < TWO_256 && InRange(s.curve.priceRoot) && ActiveLiquidity(c) < TWO_128
    requires c == s.curve.(concLiq := c.concLiq) && LiquidityCrossed(c.concLiq, s.curve.concLiq, level, d.isBuy)
    ensures var burn := Burn(ActiveLiquidity(c), s.curve.priceRoot, d.inBaseQty);
            var r := AdjTickLiq(d, s, tick, level);
            && burn > 0 && (r.ShaveBurnDown? <==> s.qty <= burn) && (r.ShaveBurnDown? ==> r.curve == c)
            && (r.Crossed? ==>
                  && r.mid == (if d.isBuy then tick else tick - 1)
                  && r.state.curve == c.(priceRoot := r.state.curve.priceRoot)
                  && r.state.curve.priceRoot == OneFurther(s.curve.priceRoot, d.isBuy)
                  && r.state.qty == s.qty - (if ExactInput(d) then burn else 0)
                  && r.state.counters.crossInitTicks == s.counters.crossInitTicks + 1
                  && r.state.counters.knockoutCrosses ==
                     s.counters.knockoutCrosses + (if d.isBuy then level.askLots else level.bidLots) % 2
                  && r.state.flows.baseFlow == (s.flows.baseFlow + if d.isBuy then burn else 0) % TWO_256
                  && r.state.flows.quoteFlow == (s.flows.quoteFlow + if d.isBuy then 0 else burn) % TWO_256)
  {
    hide CrossedLiq, PriceToTokenPrecision, ActiveLiquidity, LotsToLiquidity, Burn, Add;
    LotsAre(level.bidLots);
    LotsAre(level.askLots);
    CrossedLiqWraps(s.curve.concLiq, level, d.isBuy);
    BurnIs(ActiveLiquidity(c), s.curve.priceRoot, d.inBaseQty);
    assert c.concLiq == CrossedLiq(s.curve.concLiq, level, d.isBuy);
    PlainSums(s, PriceToTokenPrecision(ActiveLiquidity(c), s.curve.priceRoot, d.inBaseQty));
    BurnPositive(ActiveLiquidity(c), s.curve.priceRoot, d.inBaseQty);
  }

  lemma PlainSums(s: SwapState, burn: nat)
    ensures Add(s.flows.baseFlow, burn) == (s.flows.baseFlow + burn) % TWO_256
    ensures Add(s.flows.quoteFlow, burn) == (s.flows.quoteFlow + burn) % TWO_256
    ensures Add(s.flows.baseFlow, 0) == s.flows.baseFlow % TWO_256
    ensures Add(s.flows.quoteFlow, 0) == s.flows.quoteFlow % TWO_256
  {
  }

  lemma BurnPositive(liq: nat, price: nat, inBaseQty: bool)
    requires price > 1
    ensures Burn(liq, price, inBaseQty) > 0
  {
    NeighbouringFloors(liq * TWO_64, price);
  }

  // ----- a sweep over a book without active ticks

  /** Nothing from a start at or past the limit price; otherwise one leg to the border of the start's word and, if that
      leaves something to swap, one to the limit price. */
  lemma EmptySweepIs(e: Engine, pool: PoolParams, d: Direction, c: Curve, qty: nat, fuel: nat)
    requires LimitInRange(d) && IsTick(e.tickAtRatio(c.priceRoot)) && fuel > 0
    ensures var x0 := SweepStart(e, d, c, qty);
            var x := SweepRun(e, pool, d, EMPTY_VIEW, x0, fuel);
            var before := if d.isBuy then c.priceRoot < d.limitPrice else c.priceRoot > d.limitPrice;
            var first := SwapToLimit(e, pool, d, x0.s, C.SpillOverPin(d.isBuy, MezzKey(x0.mid)));
            var second := SwapToLimit(e, pool, d, first, ZeroTick(d.isBuy));
            && !x.doMore && !x.failed
            && x.s == if !before then SwapState(c, Flows(0, 0, 0), Counters(0, 0, 0), qty)
                      else if HasSwapLeft(d, first) then second.(counters := Counters(0, 1, 0))
                      else first
  {
    hide SwapToLimit, DetermineLimit, SweepRun, C.SpillOverPin, MezzKey;
    var x0 := SweepStart(e, d, c, qty);
    if !x0.doMore {
      NoRun(e, pool, d, x0, fuel);
      return;
    }
    var border := C.SpillOverPin(d.isBuy, MezzKey(x0.mid));
    LegReaches(e, pool, d, x0.s, border);
    var first := SwapToLimit(e, pool, d, x0.s, border);
    LegReaches(e, pool, d, first, ZeroTick(d.isBuy));
    if HasSwapLeft(d, first) {
      LeftMeansInside(e, d, first, border);
      LimitIs(e, ZeroTick(d.isBuy), d.limitPrice, d.isBuy);
    }
    RunsOnce(e, pool, d, x0, fuel);
  }

  lemma NoRun(e: Engine, pool: PoolParams, d: Direction, x: Sweep, fuel: nat)
    requires !x.doMore
    ensures SweepRun(e, pool, d, EMPTY_VIEW, x, fuel) == x
  {
  }

  lemma RunsOnce(e: Engine, pool: PoolParams, d: Direction, x: Sweep, fuel: nat)
    requires x.doMore && fuel > 0 && !SweepStep(e, pool, d, EMPTY_VIEW, x).doMore
    ensures SweepRun(e, pool, d, EMPTY_VIEW, x, fuel) == SweepStep(e, pool, d, EMPTY_VIEW, x)
  {
    hide SweepStep;
  }

  /** Without fees a leg is booked as what the curve alone comes to. */
  lemma FreeLegPays(e: Engine, pool: PoolParams, d: Direction, s: SwapState, bumpTick: int)
    requires FeeFree(e, pool) && 0 < ActiveLiquidity(s.curve) < TWO_128 && InRange(s.curve.priceRoot)
    requires forall q | InRange(q) :: QuoteFits(ActiveLiquidity(s.curve), s.curve.priceRoot, q)
    ensures var limit := DetermineLimit(e, bumpTick, d.limitPrice, d.isBuy);
            var r, t := SwapOverCurve(s.curve, d, s.qty, limit), SwapToLimit(e, pool, d, s, bumpTick);
            && LegComesTo(ActiveLiquidity(s.curve), s.curve.priceRoot, d, s.qty, limit, r) && InRange(r.price)
            && t.curve == s.curve.(priceRoot := r.price) && t.qty == r.qtyLeft
            && t.flows.baseFlow == (s.flows.baseFlow + r.paidBase) % TWO_256
            && t.flows.quoteFlow == (s.flows.quoteFlow + r.paidQuote) % TWO_256
  {
    hide BookedFees, SwapOverCurve, DetermineLimit, ActiveLiquidity, LegComesTo, WithFees, QuoteFits, SwapToLimit;
    var limit := DetermineLimit(e, bumpTick, d.limitPrice, d.isBuy);
    NoFees(e, pool, d, s.curve, s.qty, limit);
    assert WithFees(e, s.curve, 0, d.inBaseQty) == s.curve;
    LegIsBooked(e, pool, d, s, bumpTick);
    LegPriceInRange(s.curve, d, s.qty, limit);
    LegPays(s.curve, d, s.qty, limit);
  }

  lemma LegPriceInRange(c: Curve, d: Direction, qty: nat, limit: nat)
    requires InRange(limit)
    ensures InRange(SwapOverCurve(c, d, qty, limit).price)
  {
    hide ActiveLiquidity, DeltaBase, DeltaQuote, DeriveFlowPrice, SignMagn, FlowToSpent;
    DerivedInRange(c.priceRoot, ActiveLiquidity(c), Min(qty, LimitFlow(c, d.inBaseQty, limit)), d.inBaseQty, d.isBuy);
  }

  lemma SameActive(c: Curve, price: nat)
    ensures ActiveLiquidity(c.(priceRoot := price)) == ActiveLiquidity(c)
  {
    hide InflateLiqSeed, Add;
  }

  /** What a sweep over an empty book comes to: a first leg toward the border, and if the limit price and the quantity
      allow a second one from there to the limit price. */
  ghost predicate EmptyBook(liq: nat, p: nat, d: Direction, qty: nat, border: nat, s: SwapState, first: Rolled,
      second: Rolled) {
    && 0 < p && 0 < first.price && LegComesTo(liq, p, d, qty, border, first)
    && if first.qtyLeft > 0 && (if d.isBuy then first.price < d.limitPrice else first.price > d.limitPrice)
       then
         && LegComesTo(liq, first.price, d, first.qtyLeft, d.limitPrice, second)
         && s.curve.priceRoot == second.price && s.qty == second.qtyLeft
         && s.flows.baseFlow == (first.paidBase + second.paidBase) % TWO_256
         && s.flows.quoteFlow == (first.paidQuote + second.paidQuote) % TWO_256
       else
         && s.curve.priceRoot == first.price && s.qty == first.qtyLeft
         && s.flows.baseFlow == first.paidBase % TWO_256 && s.flows.quoteFlow == first.paidQuote % TWO_256
  }

  /** What a whole sweep pays over a book without active ticks or fees. */
  lemma EmptyBookPays(e: Engine, pool: PoolParams, d: Direction, c: Curve, qty: nat, fuel: nat)
    requires FeeFree(e, pool) && LimitInRange(d) && IsTick(e.tickAtRatio(c.priceRoot)) && fuel > 0
    requires 0 < ActiveLiquidity(c) < TWO_128 && InRange(c.priceRoot)
    requires if d.isBuy then c.priceRoot < d.limitPrice else c.priceRoot > d.limitPrice
    requires forall p, q | InRange(p) && InRange(q) :: QuoteFits(ActiveLiquidity(c), p, q)
    ensures var x0 := SweepStart(e, d, c, qty);
            var border := DetermineLimit(e, C.SpillOverPin(d.isBuy, MezzKey(x0.mid)), d.limitPrice, d.isBuy);
            exists first: Rolled, second: Rolled ::
              EmptyBook(ActiveLiquidity(c), c.priceRoot, d, qty, border, SweepRun(e, pool, d, EMPTY_VIEW, x0, fuel).s,
                first, second)
  {
    hide SwapOverCurve, DetermineLimit, ActiveLiquidity, LegComesTo, QuoteFits, SwapToLimit, SweepRun, C.SpillOverPin,
      MezzKey, FeeFree;
    var x0 := SweepStart(e, d, c, qty);
    var tick := C.SpillOverPin(d.isBuy, MezzKey(x0.mid));
    EmptySweepIs(e, pool, d, c, qty, fuel);
    var border := DetermineLimit(e, tick, d.limitPrice, d.isBuy);
    var first := SwapOverCurve(c, d, qty, border);
    FreeLegPays(e, pool, d, x0.s, tick);
    var s1 := SwapToLimit(e, pool, d, x0.s, tick);
    SameActive(c, first.price);
    FreeLegPays(e, pool, d, s1, ZeroTick(d.isBuy));
    LimitIs(e, ZeroTick(d.isBuy), d.limitPrice, d.isBuy);
    var second := SwapOverCurve(s1.curve, d, s1.qty, d.limitPrice);
    AddWords(first.paidBase, second.paidBase);
    AddWords(first.paidQuote, second.paidQuote);
    assert EmptyBook(ActiveLiquidity(c), c.priceRoot, d, qty, border, SweepRun(e, pool, d, EMPTY_VIEW, x0, fuel).s,
        first, second);
  }

  lemma AddWords(x: nat, y: nat)
    ensures (x % TWO_256 + y) % TWO_256 == (x + y) % TWO_256
  {
  }

  /** Below 2^84 of liquidity every product of quote reserves fits. */
  lemma SmallLiquidityFits(liq: nat, p: nat, q: nat)
    requires liq < 0x10_0000_0000_0000_0000_0000 && InRange(p) && InRange(q)
    ensures QuoteFits(liq, p, q)
  {
    var s := Min(p, q);
    var t := liq * TWO_64 / s;
    DivNat(liq * TWO_64, s);
    FloorAtLeast(liq * TWO_64, s, t);
    MulMono(MIN_SQRT_RATIO, s, t);
    assert t < 0x10_0000_0000_0000_0000_0000_0000_0000_0000;
    ProductMono(t, Dist(p, q), 0x10_0000_0000_0000_0000_0000_0000_0000_0000, MAX_SQRT_RATIO);
  }
}
