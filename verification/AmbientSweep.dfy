/** The sweep across ticks: pin the next stop, move the curve to it, seek past empty words, cross the
tick's liquidity. Every property is stated over every state a sweep can pass through. */
module AmbientSweep {
  import opened Words
  import opened AmbientTicks
  import opened AmbientView
  import opened AmbientCurve

  datatype Counters = Counters(crossInitTicks: nat, pinSpills: nat, knockoutCrosses: nat)

  datatype SwapState = SwapState(curve: Curve, flows: Flows, counters: Counters, qty: nat)

  function Accumulate(f: Flows, baseFlow: nat, quoteFlow: nat, protoFees: nat): Flows {
    Flows(Add(f.baseFlow, baseFlow), Add(f.quoteFlow, quoteFlow), Add(f.protoFees, protoFees))
  }

  // ----- one leg

  function SwapToLimit(e: Engine, pool: PoolParams, d: Direction, s: SwapState, bumpTick: int): SwapState {
    var limit := DetermineLimit(e, bumpTick, d.limitPrice, d.isBuy);
    var (liqFees, exchFees) := BookedFees(s.curve, s.qty, pool, d.inBaseQty, limit);
    var c := WithFees(e, s.curve, liqFees, d.inBaseQty);
    var fees := AssignFees(liqFees, exchFees, d.inBaseQty);
    var r := SwapOverCurve(c, d, s.qty, limit);
    s.(curve := c.(priceRoot := r.price), qty := r.qtyLeft,
       flows := Accumulate(Accumulate(s.flows, fees.baseFlow, fees.quoteFlow, fees.protoFees), r.paidBase, r.paidQuote,
         0))
  }

  predicate HasSwapLeft(d: Direction, s: SwapState) {
    && (if d.isBuy then s.curve.priceRoot < d.limitPrice else s.curve.priceRoot > d.limitPrice)
    && s.qty != 0
  }

  // ----- crossing a tick

  /** Liquidity of a number of lots; the lowest bit of the lots is the knockout flag. */
  function LotsToLiquidity(lots: nat): nat {
    ((lots - lots % 2) * 1024) % TWO_256
  }

  /** What crossing the tick upward adds to the concentrated liquidity. */
  function LiqDelta(level: Level): int {
    LotsToLiquidity(level.bidLots) - LotsToLiquidity(level.askLots)
  }

  function CrossedLiq(concLiq: nat, level: Level, isBuy: bool): nat {
    var bid, ask := LotsToLiquidity(level.bidLots), LotsToLiquidity(level.askLots);
    if isBuy then
      if bid >= ask then Add(concLiq, bid - ask) else Sub(concLiq, ask - bid)
    else
      if ask >= bid then Add(concLiq, ask - bid) else Sub(concLiq, bid - ask)
  }

  function PriceToTokenPrecision(liq: nat, price: nat, inBase: bool): nat {
    if inBase then Add(liq / TWO_64, 1)
    else Add(Sub(DivQ64(liq, Sub(price, 1)), DivQ64(liq, price)), 1)
  }

  function ShavedPrice(price: nat, isBuy: bool): nat {
    if isBuy then if price < MAX_SQRT_RATIO - 1 then price + 1 else price
    else if price > MIN_SQRT_RATIO then price - 1 else price
  }

  datatype CrossResult = ShaveBurnDown(curve: Curve) | Crossed(state: SwapState, mid: int)

  function AdjTickLiq(d: Direction, s: SwapState, bumpTick: int, level: Level): CrossResult {
    if !IsTickFinite(bumpTick) then Crossed(s, bumpTick)
    else
      var knockout := (if d.isBuy then level.askLots else level.bidLots) % 2 == 1;
      var c := s.curve.(concLiq := CrossedLiq(s.curve.concLiq, level, d.isBuy));
      var burn := PriceToTokenPrecision(ActiveLiquidity(c), c.priceRoot, d.inBaseQty);
      if s.qty <= burn then ShaveBurnDown(c)
      else
        var paidBase, paidQuote := if d.isBuy then burn else 0, if d.isBuy then 0 else burn;
        Crossed(
          SwapState(
            c.(priceRoot := ShavedPrice(c.priceRoot, d.isBuy)),
            Accumulate(s.flows, paidBase, paidQuote, 0),
            s.counters.(crossInitTicks := s.counters.crossInitTicks + 1,
                        knockoutCrosses := s.counters.knockoutCrosses + if knockout then 1 else 0),
            Sub(s.qty, if d.inBaseQty == d.isBuy then burn else 0)),
          if d.isBuy then bumpTick else bumpTick - 1)
  }

  // ----- the loop

  /** A state of the sweep; `exceeded` is the view's boundary flag. */
  datatype Sweep = Sweep(s: SwapState, mid: int, doMore: bool, failed: bool, exceeded: bool)

  function SweepStart(e: Engine, d: Direction, c: Curve, qty: nat): Sweep {
    var atLimit := if d.isBuy then c.priceRoot >= d.limitPrice else c.priceRoot <= d.limitPrice;
    Sweep(SwapState(c, Flows(0, 0, 0), Counters(0, 0, 0), qty), e.tickAtRatio(c.priceRoot), !atLimit, false, false)
  }

  function Cross(v: BitmapView, d: Direction, x: Sweep, bumpTick: int): Sweep {
    match AdjTickLiq(d, x.s, bumpTick, v.level(bumpTick))
    case ShaveBurnDown(c) => x.(s := x.s.(curve := c), doMore := false, failed := true)
    case Crossed(s, mid) => x.(s := s, mid := mid)
  }

  /** The part of an iteration after the first leg left something to swap. */
  function Beyond(e: Engine, pool: PoolParams, d: Direction, v: BitmapView, x: Sweep, p: Pin): Sweep {
    if !p.spills then Cross(v, d, x, p.tick)
    else
      var f := v.seek(p.tick, d.isBuy);
      var y := x.(exceeded := x.exceeded || f.exceeded);
      if f.tick == p.tick then Cross(v, d, y, f.tick)
      else
        var s := SwapToLimit(e, pool, d, x.s, f.tick);
        var z := y.(s := s.(counters := s.counters.(pinSpills := s.counters.pinSpills + 1)),
          doMore := HasSwapLeft(d, s));
        if z.doMore then Cross(v, d, z, f.tick) else z
  }

  function SweepStep(e: Engine, pool: PoolParams, d: Direction, v: BitmapView, x: Sweep): Sweep {
    var p := v.pin(d.isBuy, x.mid);
    var s := SwapToLimit(e, pool, d, x.s, p.tick);
    var y := x.(s := s, exceeded := x.exceeded || p.exceeded, doMore := HasSwapLeft(d, s));
    if y.doMore then Beyond(e, pool, d, v, y, p) else y
  }

  /** At most `fuel` iterations of the loop. */
  function SweepRun(e: Engine, pool: PoolParams, d: Direction, v: BitmapView, x: Sweep, fuel: nat): Sweep
    decreases fuel
  {
    if fuel == 0 || !x.doMore then x else SweepRun(e, pool, d, v, SweepStep(e, pool, d, v, x), fuel - 1)
  }

  // ----- what the simulator asks for

  /** The limit price of every quote lies inside the price range. */
  predicate LimitInRange(d: Direction) {
    MIN_SQRT_RATIO <= d.limitPrice < MAX_SQRT_RATIO
  }

  /** The quantity is fixed on the input side; otherwise it is the output. */
  predicate ExactInput(d: Direction) {
    d.inBaseQty == d.isBuy
  }

  /** The flow on the side the quantity is fixed on. */
  function FlowOnQty(d: Direction, f: Flows): nat {
    if d.inBaseQty then f.baseFlow else f.quoteFlow
  }

  // ----- accounting for the quantity

  /** How much more than `q0 - qty` has been charged for an exact input; flows are words. */
  function Overcharge(d: Direction, s: SwapState, q0: nat): nat {
    (FlowOnQty(d, s.flows) + s.qty - q0) % TWO_256
  }

  /** How much less than `q0 - qty` has been paid out of an exact output, whose flow is negative. */
  function Shortfall(d: Direction, s: SwapState, q0: nat): nat {
    (q0 - s.qty + FlowOnQty(d, s.flows)) % TWO_256
  }

  /** Of the initial quantity `q0`, what is not left was charged as input, exactly while some quantity is left
      and with at most 3 wei on top once it is used up; or was paid out, up to `slack` wei. */
  predicate Accounted(d: Direction, s: SwapState, q0: nat, slack: nat) {
    && s.qty <= q0 && FlowOnQty(d, s.flows) < TWO_256
    && if ExactInput(d) then Overcharge(d, s, q0) <= 3 && (s.qty > 0 ==> Overcharge(d, s, q0) == 0)
       else Shortfall(d, s, q0) <= slack
  }

  lemma AccountStep(f: nat, qty: nat, q0: nat, paid: nat, left: nat)
    requires (f + qty - q0) % TWO_256 == 0 && 0 <= paid + left - qty <= 3
    ensures (Add(f, paid) + left - q0) % TWO_256 == paid + left - qty
  {
    var k := (f + qty - q0) / TWO_256;
    assert f + paid + left - q0 == k * TWO_256 + (paid + left - qty);
  }

  lemma ShortfallStep(f: nat, qty: nat, q0: nat, paid: nat, left: nat)
    ensures (q0 - left + Add(f, paid)) % TWO_256 <= (q0 - qty + f) % TWO_256 + (qty - left + paid) % TWO_256
  {
    ModSum(q0 - qty + f, qty - left + paid);
    ModSum(q0 - left, f + paid);
  }

  lemma ModSum(a: int, b: int)
    ensures (a + b) % TWO_256 <= a % TWO_256 + b % TWO_256 && (a + b % TWO_256) % TWO_256 == (a + b) % TWO_256
  {
  }

  /** A leg accounts for what it takes off the quantity, and fees touch only the other side. */
  lemma LegKeepsAccount(e: Engine, pool: PoolParams, d: Direction, s: SwapState, bumpTick: int, q0: nat, slack: nat)
    requires Accounted(d, s, q0, slack) && (ExactInput(d) ==> Overcharge(d, s, q0) == 0)
    ensures Accounted(d, SwapToLimit(e, pool, d, s, bumpTick), q0, slack + ROUND_PRECISION_WEI)
  {
    hide SwapOverCurve, BookedFees, DetermineLimit, SwapToLimit;
    var limit := DetermineLimit(e, bumpTick, d.limitPrice, d.isBuy);
    var (liqFees, exchFees) := BookedFees(s.curve, s.qty, pool, d.inBaseQty, limit);
    var c := WithFees(e, s.curve, liqFees, d.inBaseQty);
    LegSpendsOrReaches(c, d, s.qty, limit);
    var r := SwapOverCurve(c, d, s.qty, limit);
    LegFlows(e, pool, d, s, bumpTick, r);
    if ExactInput(d) {
      AccountStep(FlowOnQty(d, s.flows), s.qty, q0, PaidOnQty(d, r), r.qtyLeft);
    } else {
      ShortfallStep(FlowOnQty(d, s.flows), s.qty, q0, PaidOnQty(d, r), r.qtyLeft);
    }
  }

  /** A leg moves neither liquidity nor counters, and spends the quantity or reaches its limit. */
  lemma LegReaches(e: Engine, pool: PoolParams, d: Direction, s: SwapState, bumpTick: int)
    ensures var t := SwapToLimit(e, pool, d, s, bumpTick);
            && t.curve.concLiq == s.curve.concLiq && t.counters == s.counters
            && (t.qty == 0 || t.curve.priceRoot == DetermineLimit(e, bumpTick, d.limitPrice, d.isBuy))
  {
    hide SwapOverCurve, BookedFees, DetermineLimit, WithFees, Add;
    var limit := DetermineLimit(e, bumpTick, d.limitPrice, d.isBuy);
    var (liqFees, exchFees) := BookedFees(s.curve, s.qty, pool, d.inBaseQty, limit);
    WithFeesKeeps(e, s.curve, liqFees, d.inBaseQty);
    LegSpendsOrReaches(WithFees(e, s.curve, liqFees, d.inBaseQty), d, s.qty, limit);
  }

  lemma LegFlows(e: Engine, pool: PoolParams, d: Direction, s: SwapState, bumpTick: int, r: Rolled)
    requires FlowOnQty(d, s.flows) < TWO_256
    requires var limit := DetermineLimit(e, bumpTick, d.limitPrice, d.isBuy);
             var (liqFees, exchFees) := BookedFees(s.curve, s.qty, pool, d.inBaseQty, limit);
             r == SwapOverCurve(WithFees(e, s.curve, liqFees, d.inBaseQty), d, s.qty, limit)
    ensures var t := SwapToLimit(e, pool, d, s, bumpTick);
            FlowOnQty(d, t.flows) == Add(FlowOnQty(d, s.flows), PaidOnQty(d, r)) && t.qty == r.qtyLeft
  {
    hide SwapOverCurve, BookedFees, DetermineLimit, WithFees, Add;
    AddNothing(FlowOnQty(d, s.flows));
  }

  lemma AddNothing(x: nat)
    requires x < TWO_256
    ensures Add(x, 0) == x
  {
  }

  lemma WithFeesKeeps(e: Engine, c: Curve, liqFees: nat, inBaseQty: bool)
    ensures WithFees(e, c, liqFees, inBaseQty).concLiq == c.concLiq
  {
  }

  // ----- liquidity over the ticks passed

  /** Sum of the upward liquidity changes of the active ticks in `(lo, hi]`. */
  function NetLiq(level: int -> Level, active: set<int>, lo: int, hi: int): int
    decreases hi - lo
  {
    if hi <= lo then 0
    else NetLiq(level, active, lo, hi - 1) + if hi in active then LiqDelta(level(hi)) else 0
  }

  lemma {:induction false} NetLiqSplits(level: int -> Level, active: set<int>, lo: int, cut: int, hi: int)
    requires lo <= cut <= hi
    ensures NetLiq(level, active, lo, hi) == NetLiq(level, active, lo, cut) + NetLiq(level, active, cut, hi)
    decreases hi - cut
  {
    if cut < hi {
      NetLiqSplits(level, active, lo, cut, hi - 1);
    }
  }

  lemma {:induction false} NetLiqOfNone(level: int -> Level, active: set<int>, lo: int, hi: int)
    requires forall t | t in active :: !(lo < t <= hi)
    ensures NetLiq(level, active, lo, hi) == 0
    decreases hi - lo
  {
    if lo < hi {
      NetLiqOfNone(level, active, lo, hi - 1);
    }
  }

  /** What a sweep from `start` to `mid` adds to the concentrated liquidity: the changes of the active ticks
      between the two, negated when they are crossed downward. */
  function SweptLiq(v: BitmapView, active: set<int>, isBuy: bool, start: int, mid: int): int {
    if isBuy then NetLiq(v.level, active, start, mid) else -NetLiq(v.level, active, mid, start)
  }

  /** Active ticks not yet crossed. */
  function Remaining(active: set<int>, isBuy: bool, mid: int): set<int> {
    set t | t in active && Ahead(isBuy, mid, t)
  }

  function MidAfter(isBuy: bool, bumpTick: int): int {
    if isBuy then bumpTick else bumpTick - 1
  }

  /** The nearest active tick ahead of `mid`. */
  ghost predicate IsNext(active: set<int>, isBuy: bool, mid: int, t: int) {
    t in active && Ahead(isBuy, mid, t) && forall u | u in active :: !Passed(isBuy, mid, t, u)
  }

  lemma SweptLiqGrows(v: BitmapView, active: set<int>, isBuy: bool, start: int, mid: int, bumpTick: int)
    requires IsNext(active, isBuy, mid, bumpTick)
    requires if isBuy then start <= mid else mid <= start
    ensures var step := LiqDelta(v.level(bumpTick));
            SweptLiq(v, active, isBuy, start, MidAfter(isBuy, bumpTick))
            == SweptLiq(v, active, isBuy, start, mid) + if isBuy then step else -step
  {
    if isBuy {
      NetLiqSplits(v.level, active, start, mid, bumpTick);
      NetLiqOfNone(v.level, active, mid, bumpTick - 1);
    } else {
      NetLiqSplits(v.level, active, bumpTick - 1, mid, start);
      NetLiqSplits(v.level, active, bumpTick - 1, bumpTick, mid);
      NetLiqOfNone(v.level, active, bumpTick - 1, bumpTick - 1);
      NetLiqOfNone(v.level, active, bumpTick, mid);
      assert NetLiq(v.level, active, bumpTick - 1, bumpTick) ==
        NetLiq(v.level, active, bumpTick - 1, bumpTick - 1) + LiqDelta(v.level(bumpTick));
    }
  }

  lemma RemainingShrinks(active: set<int>, isBuy: bool, mid: int, bumpTick: int)
    requires IsNext(active, isBuy, mid, bumpTick)
    ensures |Remaining(active, isBuy, mid)| == |Remaining(active, isBuy, MidAfter(isBuy, bumpTick))| + 1
  {
    var r := Remaining(active, isBuy, MidAfter(isBuy, bumpTick));
    assert Remaining(active, isBuy, mid) == r + {bumpTick};
    assert bumpTick !in r;
  }

  // ----- what every state of a sweep satisfies

  /** Relative to the start `x0`: the tick is valid and has moved only forward, the concentrated liquidity
      is the starting one plus the changes of exactly the active ticks passed, and one crossing is counted
      for each of them. */
  ghost predicate SweepInv(d: Direction, v: BitmapView, active: set<int>, x0: Sweep, x: Sweep) {
    && IsTick(x.mid) && (if d.isBuy then x0.mid <= x.mid else x.mid <= x0.mid)
    && (!x.failed ==>
          x.s.curve.concLiq == (x0.s.curve.concLiq + SweptLiq(v, active, d.isBuy, x0.mid, x.mid)) % TWO_256)
    && x.s.counters.crossInitTicks + |Remaining(active, d.isBuy, x.mid)|
       == x0.s.counters.crossInitTicks + |Remaining(active, d.isBuy, x0.mid)|
    && (x.doMore ==> !x.failed)
  }

  lemma StartSatisfies(e: Engine, d: Direction, v: BitmapView, active: set<int>, c: Curve, qty: nat)
    requires IsTick(e.tickAtRatio(c.priceRoot)) && c.concLiq < TWO_256
    ensures var x0 := SweepStart(e, d, c, qty); SweepInv(d, v, active, x0, x0)
  {
  }

  /** If a leg leaves something to swap, the tick it ran to lies inside the price range. */
  lemma LeftMeansInside(e: Engine, d: Direction, s: SwapState, bumpTick: int)
    requires LimitInRange(d) && HasSwapLeft(d, s)
    requires s.curve.priceRoot == DetermineLimit(e, bumpTick, d.limitPrice, d.isBuy)
    ensures MIN_TICK < bumpTick < MAX_TICK
  {
  }

  lemma PinIsNext(v: BitmapView, active: set<int>, isBuy: bool, mid: int)
    requires Walks(v, active) && IsTick(mid)
    ensures var p := v.pin(isBuy, mid); !p.spills ==> IsNext(active, isBuy, mid, p.tick)
  {
    hide IsTick;
    assert PinWalks(v.pin(isBuy, mid), active, isBuy, mid);
  }

  /** A seek from a pin's spill border stops at the nearest active tick ahead, unless it finds none. */
  lemma SeekIsNext(v: BitmapView, active: set<int>, isBuy: bool, mid: int)
    requires Walks(v, active) && IsTick(mid)
    requires var p := v.pin(isBuy, mid);
             && p.spills && MIN_TICK < p.tick < MAX_TICK
             && MIN_TICK < v.seek(p.tick, isBuy).tick < MAX_TICK
    ensures IsNext(active, isBuy, mid, v.seek(v.pin(isBuy, mid).tick, isBuy).tick)
  {
    var p := v.pin(isBuy, mid);
    assert PinWalks(p, active, isBuy, mid);
    var f := v.seek(p.tick, isBuy);
    assert SeekWalks(f, active, isBuy, p.tick);
  }

  lemma CrossedLiqWraps(concLiq: nat, level: Level, isBuy: bool)
    ensures CrossedLiq(concLiq, level, isBuy) ==
            (concLiq + if isBuy then LiqDelta(level) else -LiqDelta(level)) % TWO_256
  {
    hide LotsToLiquidity;
  }

  /** What a successful crossing does to one state. */
  lemma CrossShape(d: Direction, s: SwapState, bumpTick: int, level: Level)
    requires IsTickFinite(bumpTick)
    ensures match AdjTickLiq(d, s, bumpTick, level)
            case ShaveBurnDown(c) => c == s.curve.(concLiq := CrossedLiq(s.curve.concLiq, level, d.isBuy))
            case Crossed(t, mid) =>
              && mid == MidAfter(d.isBuy, bumpTick)
              && t.curve.concLiq == CrossedLiq(s.curve.concLiq, level, d.isBuy)
              && t.counters.crossInitTicks == s.counters.crossInitTicks + 1
  {
    hide CrossedLiq, PriceToTokenPrecision, ActiveLiquidity;
  }

  /** Crossing the next active tick keeps the invariant and uses up one of the remaining ticks. */
  lemma CrossKeeps(d: Direction, v: BitmapView, active: set<int>, x0: Sweep, x: Sweep, bumpTick: int)
    requires SweepInv(d, v, active, x0, x) && x.doMore
    requires IsNext(active, d.isBuy, x.mid, bumpTick) && MIN_TICK < bumpTick < MAX_TICK
    ensures var y := Cross(v, d, x, bumpTick);
            && SweepInv(d, v, active, x0, y)
            && (y.doMore ==> |Remaining(active, d.isBuy, y.mid)| < |Remaining(active, d.isBuy, x.mid)|)
  {
    hide CrossedLiq, AdjTickLiq, SweptLiq, Remaining, LiqDelta;
    CrossShape(d, x.s, bumpTick, v.level(bumpTick));
    CrossedLiqWraps(x.s.curve.concLiq, v.level(bumpTick), d.isBuy);
    SweptLiqGrows(v, active, d.isBuy, x0.mid, x.mid, bumpTick);
    RemainingShrinks(active, d.isBuy, x.mid, bumpTick);
    var step := LiqDelta(v.level(bumpTick));
    WrapAdds(x0.s.curve.concLiq + SweptLiq(v, active, d.isBuy, x0.mid, x.mid), if d.isBuy then step else -step);
  }

  lemma WrapAdds(a: int, b: int)
    ensures (a % TWO_256 + b) % TWO_256 == (a + b) % TWO_256
  {
  }

  /** A leg by itself moves no tick and keeps the invariant; if it leaves something to swap, it stopped
      inside the price range. */
  lemma LegKeeps(e: Engine, pool: PoolParams, d: Direction, v: BitmapView, active: set<int>, x0: Sweep, x: Sweep,
      bumpTick: int)
    requires LimitInRange(d) && SweepInv(d, v, active, x0, x) && x.doMore
    ensures var s := SwapToLimit(e, pool, d, x.s, bumpTick);
            && SweepInv(d, v, active, x0, x.(s := s, doMore := HasSwapLeft(d, s)))
            && (HasSwapLeft(d, s) ==> MIN_TICK < bumpTick < MAX_TICK)
  {
    hide SwapToLimit, SweptLiq, Remaining, DetermineLimit;
    LegReaches(e, pool, d, x.s, bumpTick);
    var s := SwapToLimit(e, pool, d, x.s, bumpTick);
    if HasSwapLeft(d, s) {
      LeftMeansInside(e, d, s, bumpTick);
    }
  }

  /** One iteration keeps the invariant; if the loop goes on, it crossed a tick and fewer remain. */
  lemma StepKeeps(e: Engine, pool: PoolParams, d: Direction, v: BitmapView, active: set<int>, x0: Sweep, x: Sweep)
    requires LimitInRange(d) && Walks(v, active) && SweepInv(d, v, active, x0, x) && x.doMore
    ensures var y := SweepStep(e, pool, d, v, x);
            && SweepInv(d, v, active, x0, y)
            && (y.doMore ==> |Remaining(active, d.isBuy, y.mid)| < |Remaining(active, d.isBuy, x.mid)|)
  {
    hide SwapToLimit, SweptLiq, Remaining, Walks, Cross, HasSwapLeft, IsNext;
    var p := v.pin(d.isBuy, x.mid);
    LegKeeps(e, pool, d, v, active, x0, x, p.tick);
    var s := SwapToLimit(e, pool, d, x.s, p.tick);
    var y := x.(s := s, exceeded := x.exceeded || p.exceeded, doMore := HasSwapLeft(d, s));
    if y.doMore {
      PinIsNext(v, active, d.isBuy, x.mid);
      if !p.spills {
        CrossKeeps(d, v, active, x0, y, p.tick);
      } else {
        BeyondKeeps(e, pool, d, v, active, x0, y, p);
      }
    }
  }

  lemma BeyondKeeps(e: Engine, pool: PoolParams, d: Direction, v: BitmapView, active: set<int>, x0: Sweep, x: Sweep,
      p: Pin)
    requires LimitInRange(d) && Walks(v, active) && SweepInv(d, v, active, x0, x) && x.doMore
    requires p == v.pin(d.isBuy, x.mid) && p.spills && MIN_TICK < p.tick < MAX_TICK
    ensures var y := Beyond(e, pool, d, v, x, p);
            && SweepInv(d, v, active, x0, y)
            && (y.doMore ==> |Remaining(active, d.isBuy, y.mid)| < |Remaining(active, d.isBuy, x.mid)|)
  {
    hide SwapToLimit, SweptLiq, Remaining, Walks, Cross, HasSwapLeft, IsNext;
    var f := v.seek(p.tick, d.isBuy);
    var y := x.(exceeded := x.exceeded || f.exceeded);
    if f.tick == p.tick {
      SeekIsNext(v, active, d.isBuy, x.mid);
      CrossKeeps(d, v, active, x0, y, f.tick);
    } else {
      LegKeeps(e, pool, d, v, active, x0, y, f.tick);
      var s := SwapToLimit(e, pool, d, x.s, f.tick);
      var z := y.(s := s.(counters := s.counters.(pinSpills := s.counters.pinSpills + 1)), doMore := HasSwapLeft(d, s));
      CountingKeeps(d, v, active, x0, y.(s := s, doMore := HasSwapLeft(d, s)));
      if z.doMore {
        SeekIsNext(v, active, d.isBuy, x.mid);
        CrossKeeps(d, v, active, x0, z, f.tick);
      }
    }
  }

  lemma CountingKeeps(d: Direction, v: BitmapView, active: set<int>, x0: Sweep, x: Sweep)
    requires SweepInv(d, v, active, x0, x)
    ensures SweepInv(d, v, active, x0,
            x.(s := x.s.(counters := x.s.counters.(pinSpills := x.s.counters.pinSpills + 1))))
  {
  }

  /** Every state of every sweep satisfies the invariant, with the quantity fixed on either side. */
  lemma {:induction false} RunKeeps(e: Engine, pool: PoolParams, d: Direction, v: BitmapView, active: set<int>,
      x0: Sweep, x: Sweep, fuel: nat)
    requires LimitInRange(d) && Walks(v, active) && SweepInv(d, v, active, x0, x)
    ensures SweepInv(d, v, active, x0, SweepRun(e, pool, d, v, x, fuel))
    decreases fuel
  {
    hide SweepStep, SweepInv, Walks;
    if fuel > 0 && x.doMore {
      StepKeeps(e, pool, d, v, active, x0, x);
      RunKeeps(e, pool, d, v, active, x0, SweepStep(e, pool, d, v, x), fuel - 1);
    }
  }

  /** Every sweep ends after at most one iteration more than there are active ticks ahead. */
  lemma {:induction false} SweepEnds(e: Engine, pool: PoolParams, d: Direction, v: BitmapView, active: set<int>,
      x0: Sweep, x: Sweep, fuel: nat)
    requires LimitInRange(d) && Walks(v, active) && SweepInv(d, v, active, x0, x)
    requires fuel > |Remaining(active, d.isBuy, x.mid)|
    ensures !SweepRun(e, pool, d, v, x, fuel).doMore
    decreases fuel
  {
    hide SweepStep, SweepInv, Walks, Remaining;
    if x.doMore {
      StepKeeps(e, pool, d, v, active, x0, x);
      var y := SweepStep(e, pool, d, v, x);
      if y.doMore {
        SweepEnds(e, pool, d, v, active, x0, y, fuel - 1);
      }
    }
  }

  // ----- the account over a run, for any view

  /** The account of a state relative to the start; while the loop goes on nothing was overcharged. */
  ghost predicate AccountInv(d: Direction, x0: Sweep, x: Sweep, slack: nat) {
    Accounted(d, x.s, x0.s.qty, slack) && (x.doMore && ExactInput(d) ==> Overcharge(d, x.s, x0.s.qty) == 0)
  }

  lemma CrossAccounts(d: Direction, v: BitmapView, x0: Sweep, x: Sweep, bumpTick: int, slack: nat)
    requires AccountInv(d, x0, x, slack) && x.doMore && x0.s.qty < TWO_256
    ensures AccountInv(d, x0, Cross(v, d, x, bumpTick), slack)
  {
    hide CrossedLiq, AdjTickLiq, Overcharge, Shortfall;
    var r := AdjTickLiq(d, x.s, bumpTick, v.level(bumpTick));
    CrossFlows(d, x.s, bumpTick, v.level(bumpTick));
    if r.ShaveBurnDown? {
      AccountIgnores(d, x.s, x.s.(curve := r.curve), x0.s.qty);
    } else if ExactInput(d) {
      BurnAccounts(d, x.s, r.state, x0.s.qty);
    } else {
      SameShortfall(d, x.s, r.state, x0.s.qty);
    }
  }

  lemma AccountIgnores(d: Direction, s: SwapState, t: SwapState, q0: nat)
    requires t.qty == s.qty && t.flows == s.flows
    ensures Overcharge(d, t, q0) == Overcharge(d, s, q0) && Shortfall(d, t, q0) == Shortfall(d, s, q0)
  {
  }

  lemma CrossFlows(d: Direction, s: SwapState, bumpTick: int, level: Level)
    requires s.qty < TWO_256 && FlowOnQty(d, s.flows) < TWO_256
    ensures match AdjTickLiq(d, s, bumpTick, level)
            case ShaveBurnDown(c) => true
            case Crossed(t, mid) =>
              && t.qty <= s.qty && FlowOnQty(d, t.flows) == Add(FlowOnQty(d, s.flows), s.qty - t.qty)
              && (!ExactInput(d) ==> t.qty == s.qty)
  {
    hide CrossedLiq, PriceToTokenPrecision, ActiveLiquidity;
  }

  lemma BurnAccounts(d: Direction, s: SwapState, t: SwapState, q0: nat)
    requires ExactInput(d) && t.qty <= s.qty && Overcharge(d, s, q0) == 0
    requires FlowOnQty(d, t.flows) == Add(FlowOnQty(d, s.flows), s.qty - t.qty)
    ensures Overcharge(d, t, q0) == 0 && FlowOnQty(d, t.flows) < TWO_256
  {
    hide Add;
    AccountStep(FlowOnQty(d, s.flows), s.qty, q0, s.qty - t.qty, t.qty);
    AddIsWord(FlowOnQty(d, s.flows), s.qty - t.qty);
  }

  lemma SameShortfall(d: Direction, s: SwapState, t: SwapState, q0: nat)
    requires t.qty == s.qty && FlowOnQty(d, s.flows) < TWO_256
    requires FlowOnQty(d, t.flows) == Add(FlowOnQty(d, s.flows), 0)
    ensures Shortfall(d, t, q0) == Shortfall(d, s, q0) && FlowOnQty(d, t.flows) < TWO_256
  {
    AddNothing(FlowOnQty(d, s.flows));
  }

  lemma AddIsWord(x: nat, y: nat)
    ensures Add(x, y) < TWO_256
  {
  }

  lemma LegAccounts(e: Engine, pool: PoolParams, d: Direction, x0: Sweep, x: Sweep, bumpTick: int, slack: nat)
    requires AccountInv(d, x0, x, slack) && x.doMore
    ensures var s := SwapToLimit(e, pool, d, x.s, bumpTick);
            AccountInv(d, x0, x.(s := s, doMore := HasSwapLeft(d, s)), slack + ROUND_PRECISION_WEI)
  {
    hide SwapToLimit, Overcharge, Shortfall;
    LegKeepsAccount(e, pool, d, x.s, bumpTick, x0.s.qty, slack);
  }

  /** An iteration has at most two legs. */
  lemma StepAccounts(e: Engine, pool: PoolParams, d: Direction, v: BitmapView, x0: Sweep, x: Sweep, slack: nat)
    requires AccountInv(d, x0, x, slack) && x.doMore && x0.s.qty < TWO_256
    ensures AccountInv(d, x0, SweepStep(e, pool, d, v, x), slack + 2 * ROUND_PRECISION_WEI)
  {
    hide SwapToLimit, Cross, HasSwapLeft, Overcharge, Shortfall;
    var p := v.pin(d.isBuy, x.mid);
    var wide := slack + ROUND_PRECISION_WEI;
    LegAccounts(e, pool, d, x0, x, p.tick, slack);
    var s := SwapToLimit(e, pool, d, x.s, p.tick);
    var y := x.(s := s, exceeded := x.exceeded || p.exceeded, doMore := HasSwapLeft(d, s));
    if y.doMore {
      CrossAccounts(d, v, x0, y, p.tick, wide);
      var f := v.seek(p.tick, d.isBuy);
      var z := y.(exceeded := y.exceeded || f.exceeded);
      CrossAccounts(d, v, x0, z, f.tick, wide);
      LegAccounts(e, pool, d, x0, y, f.tick, wide);
      var t := SwapToLimit(e, pool, d, y.s, f.tick);
      var w := z.(s := t.(counters := t.counters.(pinSpills := t.counters.pinSpills + 1)), doMore := HasSwapLeft(d, t));
      AccountIgnores(d, t, w.s, x0.s.qty);
      if w.doMore {
        CrossAccounts(d, v, x0, w, f.tick, wide + ROUND_PRECISION_WEI);
      }
    }
  }

  /** What the rounding buffers of that many iterations, two legs each, add up to. */
  function Slack(iterations: nat): nat {
    8 * iterations
  }

  /** Every state of every sweep accounts for the quantity, whatever the view, the limit price and the fees. */
  lemma {:induction false} RunAccounts(e: Engine, pool: PoolParams, d: Direction, v: BitmapView, x0: Sweep, x: Sweep,
      slack: nat, fuel: nat)
    requires AccountInv(d, x0, x, slack) && x0.s.qty < TWO_256
    ensures AccountInv(d, x0, SweepRun(e, pool, d, v, x, fuel), slack + Slack(fuel))
    decreases fuel
  {
    hide SweepStep, Overcharge, Shortfall;
    if fuel > 0 && x.doMore {
      StepAccounts(e, pool, d, v, x0, x, slack);
      RunAccounts(e, pool, d, v, x0, SweepStep(e, pool, d, v, x), slack + 2 * ROUND_PRECISION_WEI, fuel - 1);
    }
  }

  /** From any start, with the quantity fixed on either side: the loop ends within one iteration more than the
      view has active ticks, and in every state on the way the concentrated liquidity is the initial one plus the
      changes of exactly the active ticks passed. As an input, what was taken off the quantity is what was charged,
      up to 3 wei at the very end; as an output, it is what was paid out, up to 8 wei for each iteration. */
  lemma SweepCorrect(e: Engine, pool: PoolParams, d: Direction, v: BitmapView, active: set<int>, c: Curve, qty: nat,
      fuel: nat)
    requires LimitInRange(d) && Walks(v, active) && qty < TWO_256 && c.concLiq < TWO_256
    requires IsTick(e.tickAtRatio(c.priceRoot))
    ensures var x0 := SweepStart(e, d, c, qty);
            var x := SweepRun(e, pool, d, v, x0, fuel);
            && (fuel > |active| ==> !x.doMore)
            && (!x.failed ==> x.s.curve.concLiq == (c.concLiq + SweptLiq(v, active, d.isBuy, x0.mid, x.mid)) % TWO_256)
            && x.s.counters.crossInitTicks == |Remaining(active, d.isBuy, x0.mid)| - |Remaining(active, d.isBuy, x.mid)|
    ensures var x := SweepRun(e, pool, d, v, SweepStart(e, d, c, qty), fuel);
            var flow := FlowOnQty(d, x.s.flows);
            && x.s.qty <= qty
            && (ExactInput(d) ==>
                  && (x.s.qty > 0 ==> flow == qty - x.s.qty)
                  && (x.s.qty == 0 && qty < TWO_256 - 3 ==> qty <= flow <= qty + 3))
            && (!ExactInput(d) ==> (qty - x.s.qty + flow) % TWO_256 <= 8 * fuel)
  {
    hide SweepRun, Walks, SweptLiq;
    var x0 := SweepStart(e, d, c, qty);
    StartSatisfies(e, d, v, active, c, qty);
    RunKeeps(e, pool, d, v, active, x0, x0, fuel);
    RunAccounts(e, pool, d, v, x0, x0, 0, fuel);
    var ahead := Remaining(active, d.isBuy, x0.mid);
    assert |ahead| <= |active| by { SubsetSize(ahead, active); }
    if fuel > |active| {
      SweepEnds(e, pool, d, v, active, x0, x0, fuel);
    }
  }

  lemma SubsetSize(a: set<int>, b: set<int>)
    requires a <= b
    ensures |a| <= |b|
  {
    assert b == a + (b - a);
  }
}
