/** When a quote from the window may be trusted although its boundary flag is up. A quote is refused only when
the flag is up and some quantity is left; accepted quotes agree with storage exactly when storage has no active
tick past the end of the window. */
module AmbientBeyond {
  import opened Arith
  import opened Words
  import opened AmbientTicks
  import opened AmbientView
  import opened AmbientChainWalk
  import opened AmbientSnapshot
  import opened AmbientCurve
  import opened AmbientSweep
  import opened AmbientRefinement
  import C = AmbientChainView

  /** The quote's own acceptance rule for a finished sweep. */
  predicate Accepted(x: Sweep) {
    !x.doMore && !x.failed && !(x.exceeded && x.s.qty != 0)
  }

  /** No fees are charged, and charging none leaves the curve alone. */
  ghost predicate FeeFree(e: Engine, pool: PoolParams) {
    pool.feeRate == 0 && forall c: Curve, inBase: bool :: WithFees(e, c, 0, inBase) == c
  }

  // ----- a leg without fees, exactly

  /** What a leg with `flow` to go leaves of a quantity: it costs 3 wei more than the flow when it gets there. */
  function LegLeft(flow: nat, qty: nat): nat {
    if flow + ROUND_PRECISION_WEI < qty then qty - flow - ROUND_PRECISION_WEI else 0
  }

  lemma LegExact(c: Curve, d: Direction, qty: nat, limitPrice: nat)
    requires ExactInput(d) && limitPrice >= MIN_SQRT_RATIO
    ensures var flow, r := LimitFlow(c, d.inBaseQty, limitPrice), SwapOverCurve(c, d, qty, limitPrice);
            r.qtyLeft == LegLeft(flow, qty) && (flow < qty ==> r.price == limitPrice)
  {
    hide LimitFlow, DeriveFlowPrice, ActiveLiquidity, DeltaQuote, DeltaBase, FlowToSpent, Neg, Add;
    LimitFlowIsSmall(c, d.inBaseQty, limitPrice);
    var flow := LimitFlow(c, d.inBaseQty, limitPrice);
    if flow < qty {
      SumFits(flow, ROUND_PRECISION_WEI);
      SpentInput(d, flow + ROUND_PRECISION_WEI);
    } else {
      SpentInput(d, qty);
    }
  }

  lemma NoFees(e: Engine, pool: PoolParams, d: Direction, c: Curve, qty: nat, limit: nat)
    requires FeeFree(e, pool)
    ensures BookedFees(c, qty, pool, d.inBaseQty, limit) == (0, 0)
  {
    hide CalcLimitCounter, Times;
    TimesIs(CalcLimitCounter(c, qty, d.inBaseQty, limit), 0);
    TimesIs(0, pool.protocolTake);
  }

  lemma FreeLeg(e: Engine, pool: PoolParams, d: Direction, s: SwapState, bumpTick: int)
    requires FeeFree(e, pool) && ExactInput(d)
    ensures var limit := DetermineLimit(e, bumpTick, d.limitPrice, d.isBuy);
            var flow, t := LimitFlow(s.curve, d.inBaseQty, limit), SwapToLimit(e, pool, d, s, bumpTick);
            && t.qty == LegLeft(flow, s.qty) && t.counters == s.counters
            && (flow < s.qty ==> t.curve == s.curve.(priceRoot := limit))
  {
    hide BookedFees, SwapOverCurve, DetermineLimit, WithFees, LegLeft, LimitFlow;
    var limit := DetermineLimit(e, bumpTick, d.limitPrice, d.isBuy);
    NoFees(e, pool, d, s.curve, s.qty, limit);
    assert WithFees(e, s.curve, 0, d.inBaseQty) == s.curve;
    LegExact(s.curve, d, s.qty, limit);
  }

  // ----- one unit cannot cross a tick

  lemma QuotientRises(n: nat, p: nat)
    requires p >= 3
    ensures 0 <= n / p <= n / (p - 1) && 2 * (n / (p - 1)) <= n
  {
    DivNat(n, p);
    FloorAtLeast(n, p, n / p);
    MulMono(p - 1, p, n / p);
    FloorAtLeast(n, p - 1, n / p);
    FloorAtLeast(n, p - 1, n / (p - 1));
    MulMono(2, p - 1, n / (p - 1));
  }

  lemma BurnIsPositive(liq: nat, price: nat, inBase: bool)
    requires IsWord(liq) && IsWord(price) && price >= 3
    ensures PriceToTokenPrecision(liq, price, inBase) >= 1
  {
    if inBase {
      BaseBurn(liq);
    } else {
      hide Div, Mul, IsWord, Sub, Add;
      var n := Mul(liq, TWO_64);
      var a, b := Div(n, price - 1), Div(n, price);
      QuotientRises(n, price);
      DivIs(n, price - 1);
      DivIs(n, price);
      NumeratorFits(liq);
      DifferenceFits(price, 1);
      WordMono(a, n);
      DifferenceFits(a, b);
      if a > 0 {
        WordMono(a - b + 1, n);
      } else {
        WordMono(1, price);
      }
      SumFits(a - b, 1);
    }
  }

  lemma BaseBurn(liq: nat)
    requires IsWord(liq)
    ensures Add(liq / TWO_64, 1) >= 1
  {
  }

  lemma NumeratorFits(liq: nat)
    ensures IsWord(Mul(liq, TWO_64))
  {
    hide Times;
  }

  /** A single unit left at a finite tick fails on the rounding buffer. */
  lemma OneUnitFails(v: BitmapView, d: Direction, x: Sweep, t: int)
    requires IsTickFinite(t) && x.s.qty == 1 && MIN_SQRT_RATIO <= x.s.curve.priceRoot < MAX_SQRT_RATIO
    ensures var y := Cross(v, d, x, t); y.failed && !y.doMore
  {
    hide CrossedLiq, PriceToTokenPrecision, ActiveLiquidity;
    var c := x.s.curve.(concLiq := CrossedLiq(x.s.curve.concLiq, v.level(t), d.isBuy));
    ActiveFits(c);
    BurnIsPositive(ActiveLiquidity(c), c.priceRoot, d.inBaseQty);
  }

  lemma ActiveFits(c: Curve)
    ensures IsWord(ActiveLiquidity(c))
  {
    hide InflateLiqSeed;
  }

  // ----- the next active tick lies beyond the window

  /** Price of the leg to a tick, and the curve there. */
  function StopPrice(e: Engine, d: Direction, tick: int): nat {
    DetermineLimit(e, tick, d.limitPrice, d.isBuy)
  }

  function FlowTo(e: Engine, d: Direction, c: Curve, tick: int): nat {
    LimitFlow(c, d.inBaseQty, StopPrice(e, d, tick))
  }

  predicate Inside(d: Direction, price: nat) {
    if d.isBuy then price < d.limitPrice else price > d.limitPrice
  }

  /** The border of the word a swap at `mid` runs to when its word is empty. */
  function BorderOf(d: Direction, mid: int): int {
    C.SpillOverPin(d.isBuy, MezzKey(mid))
  }

  /** Both the tick and the border of the start's word can be reached inside the limit price, and the input needed
      for the further of two stops is no smaller: past the tick something is left to trade. */
  predicate Tradable(e: Engine, d: Direction, c: Curve, mid: int, t: int) {
    var border := BorderOf(d, mid);
    var there := c.(priceRoot := StopPrice(e, d, border));
    && MIN_TICK < border < MAX_TICK && MIN_TICK < t < MAX_TICK
    && Inside(d, StopPrice(e, d, border)) && Inside(d, StopPrice(e, d, t))
    && (Passed(d.isBuy, mid, border, t) || t == border ||
      FlowTo(e, d, there, t) < FlowTo(e, d, there, ZeroTick(d.isBuy)))
    && (Passed(d.isBuy, mid, border, t) ==> FlowTo(e, d, c, t) <= FlowTo(e, d, c, border))
  }

  /** One unit more than the contract's sweep needs to get to the tick. */
  function TellingQuantity(e: Engine, d: Direction, c: Curve, mid: int, t: int): nat {
    var border := BorderOf(d, mid);
    var there := c.(priceRoot := StopPrice(e, d, border));
    if Passed(d.isBuy, mid, border, t) then FlowTo(e, d, c, t) + ROUND_PRECISION_WEI + 1
    else if t == border then FlowTo(e, d, c, border) + ROUND_PRECISION_WEI + 1
    else FlowTo(e, d, c, border) + FlowTo(e, d, there, t) + 2 * ROUND_PRECISION_WEI + 1
  }

  lemma NextIsUnique(active: set<int>, isBuy: bool, mid: int, t: int, u: int)
    requires IsNext(active, isBuy, mid, t) && IsNext(active, isBuy, mid, u)
    ensures t == u
  {
  }

  /** The list spills to the border and finds nothing past it. */
  lemma WindowFindsNothing(s: Snapshot, d: Direction, mid: int)
    requires forall u | u in s.ticks :: !Ahead(d.isBuy, mid, u)
    ensures var p := SnapshotView(s).pin(d.isBuy, mid);
            p.spills && p.tick == BorderOf(d, mid) &&
            (Ahead(d.isBuy, mid, p.tick) ==> SnapshotView(s).seek(p.tick, d.isBuy).tick == ZeroTick(d.isBuy))
  {
    hide UpperBound, MezzKey, C.SpillOverPin;
    var i := UpperBound(s.ticks, mid);
    assert i < |s.ticks| ==> s.ticks[i] in s.ticks;
    assert i > 0 ==> s.ticks[i - 1] in s.ticks;
    var j := UpperBound(s.ticks, BorderOf(d, mid) - 1);
    assert j < |s.ticks| ==> s.ticks[j] in s.ticks;
    assert j > 0 ==> s.ticks[j - 1] in s.ticks;
  }

  /** The bitmap stops at the tick in the start's word, or spills to the same border and finds it past that. */
  lemma ChainFindsNext(st: Storage, d: Direction, mid: int, t: int)
    requires Consistent(st) && IsTick(mid) && IsNext(ActiveTicks(st), d.isBuy, mid, t)
    requires MIN_TICK < BorderOf(d, mid) < MAX_TICK && MIN_TICK < t < MAX_TICK
    ensures var p := ChainView(st).pin(d.isBuy, mid);
            && Ahead(d.isBuy, mid, BorderOf(d, mid)) && IsBorder(BorderOf(d, mid))
            && (if p.spills
                then p.tick == BorderOf(d, mid) && !Passed(d.isBuy, mid, p.tick, t) &&
                     ChainView(st).seek(p.tick, d.isBuy).tick == t && (!d.isBuy ==> t != p.tick)
                else p.tick == t && (Passed(d.isBuy, mid, BorderOf(d, mid), t) || t == BorderOf(d, mid)))
  {
    hide Walks, ActiveTicks, IsNext, C.PinBitmap, C.SeekWalk, MezzKey, C.SpillOverPin, Consistent;
    ChainWalks(st);
    var v, active := ChainView(st), ActiveTicks(st);
    PinIsNext(v, active, d.isBuy, mid);
    C.PinFindsNearest(st, d.isBuy, mid);
    SpillPinShape(d.isBuy, mid);
    var p := v.pin(d.isBuy, mid);
    if p.spills {
      SeekReaches(v, active, d.isBuy, mid, t);
      SeekIsNext(v, active, d.isBuy, mid);
      NextIsUnique(active, d.isBuy, mid, t, v.seek(p.tick, d.isBuy).tick);
    } else {
      NextIsUnique(active, d.isBuy, mid, t, p.tick);
      BorderIsFarEnd(d.isBuy, mid, t);
    }
  }

  /** A seek does not run past a finite active tick ahead. */
  lemma SeekReaches(v: BitmapView, active: set<int>, isBuy: bool, mid: int, t: int)
    requires Walks(v, active) && IsTick(mid) && IsNext(active, isBuy, mid, t) && MIN_TICK < t < MAX_TICK
    requires v.pin(isBuy, mid).spills && MIN_TICK < v.pin(isBuy, mid).tick < MAX_TICK
    ensures var border := v.pin(isBuy, mid).tick;
            && !Passed(isBuy, mid, border, t) && (!isBuy ==> t != border)
            && MIN_TICK < v.seek(border, isBuy).tick < MAX_TICK
  {
    var p := v.pin(isBuy, mid);
    assert PinWalks(p, active, isBuy, mid);
    assert SeekWalks(v.seek(p.tick, isBuy), active, isBuy, p.tick);
  }

  // ----- the telling quantity: storage's sweep fails on the tick, the window's is accepted

  lemma StopIsInRange(e: Engine, d: Direction, tick: int)
    ensures MIN_SQRT_RATIO <= StopPrice(e, d, tick) < MAX_SQRT_RATIO
  {
    hide BoundLimit;
  }

  /** A leg that has `left` more units than its flow and buffer leaves exactly those, at its stop. */
  lemma LegArrives(e: Engine, pool: PoolParams, d: Direction, s: SwapState, tick: int, left: nat)
    requires FeeFree(e, pool) && ExactInput(d) && left > 0
    requires s.qty == FlowTo(e, d, s.curve, tick) + ROUND_PRECISION_WEI + left
    ensures var t := SwapToLimit(e, pool, d, s, tick);
            t.qty == left && t.curve == s.curve.(priceRoot := StopPrice(e, d, tick)) && t.counters == s.counters &&
            (HasSwapLeft(d, t) <==> Inside(d, StopPrice(e, d, tick)))
  {
    hide SwapToLimit, DetermineLimit, LimitFlow, FeeFree;
    FreeLeg(e, pool, d, s, tick);
  }

  lemma ChainStepFails(e: Engine, pool: PoolParams, d: Direction, st: Storage, x: Sweep, t: int)
    requires Consistent(st) && FeeFree(e, pool) && ExactInput(d) && x.doMore && IsTick(x.mid)
    requires IsNext(ActiveTicks(st), d.isBuy, x.mid, t) && Tradable(e, d, x.s.curve, x.mid, t)
    requires x.s.qty == TellingQuantity(e, d, x.s.curve, x.mid, t)
    ensures var y := SweepStep(e, pool, d, ChainView(st), x); y.failed && !y.doMore
  {
    hide SwapToLimit, FlowTo, StopPrice, FeeFree, ChainView, HasSwapLeft, Cross, BorderOf, IsNext, Consistent;
    var v := ChainView(st);
    ChainFindsNext(st, d, x.mid, t);
    var p := v.pin(d.isBuy, x.mid);
    var border := BorderOf(d, x.mid);
    StopIsInRange(e, d, t);
    if !p.spills || t == border {
      LegArrives(e, pool, d, x.s, t, 1);
      var s := SwapToLimit(e, pool, d, x.s, t);
      var y := x.(s := s, exceeded := x.exceeded || p.exceeded, doMore := HasSwapLeft(d, s));
      OneUnitFails(v, d, y, t);
      if p.spills {
        OneUnitFails(v, d, y.(exceeded := y.exceeded || v.seek(p.tick, d.isBuy).exceeded), t);
      }
    } else {
      var there := x.s.curve.(priceRoot := StopPrice(e, d, border));
      LegArrives(e, pool, d, x.s, border, FlowTo(e, d, there, t) + ROUND_PRECISION_WEI + 1);
      var s := SwapToLimit(e, pool, d, x.s, border);
      LegArrives(e, pool, d, s, t, 1);
      var u := SwapToLimit(e, pool, d, s, t);
      var y := x.(s := s, exceeded := x.exceeded || p.exceeded, doMore := HasSwapLeft(d, s));
      var z := y.(exceeded := y.exceeded || v.seek(p.tick, d.isBuy).exceeded,
                  s := u.(counters := u.counters.(pinSpills := u.counters.pinSpills + 1)), doMore := HasSwapLeft(d, u));
      OneUnitFails(v, d, z, t);
    }
  }

  /** The window's leg past the tick uses up what is left. */
  lemma WindowStepAccepts(e: Engine, pool: PoolParams, d: Direction, s: Snapshot, x: Sweep, t: int)
    requires FeeFree(e, pool) && ExactInput(d) && x.doMore && !x.failed
    requires (forall u | u in s.ticks :: !Ahead(d.isBuy, x.mid, u)) && Ahead(d.isBuy, x.mid, BorderOf(d, x.mid))
    requires Tradable(e, d, x.s.curve, x.mid, t) && x.s.qty == TellingQuantity(e, d, x.s.curve, x.mid, t)
    ensures var y := SweepStep(e, pool, d, SnapshotView(s), x); Accepted(y) && y.s.qty == 0
  {
    hide SwapToLimit, FlowTo, StopPrice, FeeFree, SnapshotView, BorderOf;
    WindowFindsNothing(s, d, x.mid);
    var border, far := BorderOf(d, x.mid), ZeroTick(d.isBuy);
    StopFlows(e, pool, d, x.s, border);
    var first := SwapToLimit(e, pool, d, x.s, border);
    StopFlows(e, pool, d, first, far);
  }

  lemma StopFlows(e: Engine, pool: PoolParams, d: Direction, s: SwapState, tick: int)
    requires FeeFree(e, pool) && ExactInput(d)
    ensures var flow, t := FlowTo(e, d, s.curve, tick), SwapToLimit(e, pool, d, s, tick);
            t.qty == LegLeft(flow, s.qty) && (flow < s.qty ==> t.curve == s.curve.(priceRoot := StopPrice(e, d, tick)))
  {
    hide SwapToLimit, DetermineLimit, LimitFlow, FeeFree, LegLeft;
    FreeLeg(e, pool, d, s, tick);
  }

  // ----- the same sweep with another quantity, while something is left

  /** Another quantity of which as much is taken off. */
  function Moved(x: Sweep, y: Sweep, q: nat): Sweep
    requires q > x.s.qty - y.s.qty
  {
    y.(s := y.s.(qty := q - (x.s.qty - y.s.qty)))
  }

  lemma ReachMoves(c: Curve, d: Direction, qty: nat, q: nat, limitPrice: nat)
    requires ExactInput(d) && limitPrice >= MIN_SQRT_RATIO
    requires var cost := LimitFlow(c, d.inBaseQty, limitPrice) + ROUND_PRECISION_WEI; cost < qty && cost < q
    ensures var cost := LimitFlow(c, d.inBaseQty, limitPrice) + ROUND_PRECISION_WEI;
            var r := SwapOverCurve(c, d, qty, limitPrice);
            r.qtyLeft == qty - cost && SwapOverCurve(c, d, q, limitPrice) == r.(qtyLeft := q - cost)
  {
    hide LimitFlow, ActiveLiquidity, FlowToSpent, Neg;
    LimitFlowIsSmall(c, d.inBaseQty, limitPrice);
    var flow := LimitFlow(c, d.inBaseQty, limitPrice);
    SumFits(flow, ROUND_PRECISION_WEI);
    SpentInput(d, flow + ROUND_PRECISION_WEI);
  }

  /** A leg that leaves something leaves as much less, or more, of another quantity, and all else the same. */
  lemma LegMoves(e: Engine, pool: PoolParams, d: Direction, s: SwapState, tick: int, q: nat)
    requires FeeFree(e, pool) && ExactInput(d)
    requires var t := SwapToLimit(e, pool, d, s, tick); t.qty > 0 && q > s.qty - t.qty
    ensures var t := SwapToLimit(e, pool, d, s, tick);
            t.qty <= s.qty && SwapToLimit(e, pool, d, s.(qty := q), tick) == t.(qty := q - (s.qty - t.qty))
  {
    hide BookedFees, SwapOverCurve, DetermineLimit, WithFees, LimitFlow;
    var limit := DetermineLimit(e, tick, d.limitPrice, d.isBuy);
    NoFees(e, pool, d, s.curve, s.qty, limit);
    NoFees(e, pool, d, s.curve, q, limit);
    assert WithFees(e, s.curve, 0, d.inBaseQty) == s.curve;
    LegExact(s.curve, d, s.qty, limit);
    ReachMoves(s.curve, d, s.qty, q, limit);
  }

  /** So does a crossing. */
  lemma CrossMoves(v: BitmapView, d: Direction, x: Sweep, t: int, q: nat)
    requires ExactInput(d) && IsWord(x.s.qty) && IsWord(q) && !x.failed && !Cross(v, d, x, t).failed
    requires q > x.s.qty - Cross(v, d, x, t).s.qty
    ensures var y := Cross(v, d, x, t);
            && y.s.qty <= x.s.qty && (x.s.qty > 0 ==> y.s.qty > 0)
            && Cross(v, d, x.(s := x.s.(qty := q)), t) == Moved(x, y, q)
  {
    hide CrossedLiq, PriceToTokenPrecision, ActiveLiquidity, IsWord;
    var c := x.s.curve.(concLiq := CrossedLiq(x.s.curve.concLiq, v.level(t), d.isBuy));
    var burn := PriceToTokenPrecision(ActiveLiquidity(c), c.priceRoot, d.inBaseQty);
    if IsTickFinite(t) {
      DifferenceFits(x.s.qty, burn);
      DifferenceFits(q, burn);
    }
  }

  lemma BeyondMoves(e: Engine, pool: PoolParams, d: Direction, v: BitmapView, x: Sweep, p: Pin, q: nat)
    requires FeeFree(e, pool) && ExactInput(d) && x.doMore && !x.failed && x.s.qty > 0 && IsWord(x.s.qty) && IsWord(q)
    requires Beyond(e, pool, d, v, x, p).doMore && q > x.s.qty - Beyond(e, pool, d, v, x, p).s.qty
    ensures var y := Beyond(e, pool, d, v, x, p);
            0 < y.s.qty <= x.s.qty && Beyond(e, pool, d, v, x.(s := x.s.(qty := q)), p) == Moved(x, y, q)
  {
    hide SwapToLimit, Cross, FeeFree, IsWord;
    CrossStops(v, d, x, p.tick);
    if !p.spills {
      CrossMoves(v, d, x, p.tick, q);
    } else {
      var f := v.seek(p.tick, d.isBuy);
      var y := x.(exceeded := x.exceeded || f.exceeded);
      CrossStops(v, d, y, f.tick);
      if f.tick == p.tick {
        CrossMoves(v, d, y, f.tick, q);
      } else {
        var s := SwapToLimit(e, pool, d, x.s, f.tick);
        var z := y.(s := s.(counters := s.counters.(pinSpills := s.counters.pinSpills + 1)),
                    doMore := HasSwapLeft(d, s));
        CrossStops(v, d, z, f.tick);
        LegLowers(e, pool, d, x.s, f.tick);
        WordMono(s.qty, x.s.qty);
        CrossLowers(v, d, z, f.tick);
        LegMoves(e, pool, d, x.s, f.tick, q);
        WordMono(q - (x.s.qty - s.qty), q);
        CrossMoves(v, d, z, f.tick, q - (x.s.qty - s.qty));
      }
    }
  }

  lemma CrossStops(v: BitmapView, d: Direction, x: Sweep, t: int)
    requires !x.failed
    ensures Cross(v, d, x, t).doMore ==> !Cross(v, d, x, t).failed
  {
    hide AdjTickLiq;
  }

  lemma CrossLowers(v: BitmapView, d: Direction, x: Sweep, t: int)
    requires IsWord(x.s.qty)
    ensures Cross(v, d, x, t).s.qty <= x.s.qty
  {
    hide CrossedLiq, PriceToTokenPrecision, ActiveLiquidity;
  }

  lemma LegLowers(e: Engine, pool: PoolParams, d: Direction, s: SwapState, tick: int)
    requires FeeFree(e, pool) && ExactInput(d)
    ensures SwapToLimit(e, pool, d, s, tick).qty <= s.qty
  {
    hide SwapToLimit, DetermineLimit, LimitFlow, FeeFree;
    FreeLeg(e, pool, d, s, tick);
  }

  lemma StepLowers(e: Engine, pool: PoolParams, d: Direction, v: BitmapView, x: Sweep)
    requires FeeFree(e, pool) && ExactInput(d) && !x.failed && IsWord(x.s.qty)
    ensures var y := SweepStep(e, pool, d, v, x); (y.doMore ==> !y.failed) && y.s.qty <= x.s.qty
  {
    hide SwapToLimit, Beyond, HasSwapLeft, FeeFree, IsWord;
    var p := v.pin(d.isBuy, x.mid);
    var s := SwapToLimit(e, pool, d, x.s, p.tick);
    LegLowers(e, pool, d, x.s, p.tick);
    WordMono(s.qty, x.s.qty);
    BeyondStops(e, pool, d, v, x.(s := s, exceeded := x.exceeded || p.exceeded, doMore := HasSwapLeft(d, s)), p);
  }

  lemma {:induction false} RunLowers(e: Engine, pool: PoolParams, d: Direction, v: BitmapView, x: Sweep, k: nat)
    requires FeeFree(e, pool) && ExactInput(d) && !x.failed && IsWord(x.s.qty)
    ensures SweepRun(e, pool, d, v, x, k).s.qty <= x.s.qty
    decreases k
  {
    hide SweepStep, FeeFree, IsWord;
    if k > 0 && x.doMore {
      var y := SweepStep(e, pool, d, v, x);
      StepLowers(e, pool, d, v, x);
      if y.doMore {
        WordMono(y.s.qty, x.s.qty);
        RunLowers(e, pool, d, v, y, k - 1);
      }
    }
  }

  lemma StepMoves(e: Engine, pool: PoolParams, d: Direction, v: BitmapView, x: Sweep, q: nat)
    requires FeeFree(e, pool) && ExactInput(d) && x.doMore && !x.failed && IsWord(x.s.qty) && IsWord(q)
    requires SweepStep(e, pool, d, v, x).doMore && q > x.s.qty - SweepStep(e, pool, d, v, x).s.qty
    ensures var y := SweepStep(e, pool, d, v, x);
            && !y.failed && y.s.qty <= x.s.qty
            && SweepStep(e, pool, d, v, x.(s := x.s.(qty := q))) == Moved(x, y, q)
  {
    hide SwapToLimit, Beyond, FeeFree, IsWord;
    var p := v.pin(d.isBuy, x.mid);
    var s := SwapToLimit(e, pool, d, x.s, p.tick);
    var y := x.(s := s, exceeded := x.exceeded || p.exceeded, doMore := HasSwapLeft(d, s));
    LegLowers(e, pool, d, x.s, p.tick);
    WordMono(s.qty, x.s.qty);
    BeyondStops(e, pool, d, v, y, p);
    LegMoves(e, pool, d, x.s, p.tick, q);
    WordMono(q - (x.s.qty - s.qty), q);
    BeyondMoves(e, pool, d, v, y, p, q - (x.s.qty - s.qty));
  }

  lemma BeyondStops(e: Engine, pool: PoolParams, d: Direction, v: BitmapView, x: Sweep, p: Pin)
    requires FeeFree(e, pool) && ExactInput(d) && !x.failed && IsWord(x.s.qty)
    ensures var y := Beyond(e, pool, d, v, x, p); (y.doMore ==> !y.failed) && y.s.qty <= x.s.qty
  {
    hide SwapToLimit, Cross, HasSwapLeft, FeeFree, IsWord;
    CrossStops(v, d, x, p.tick);
    CrossLowers(v, d, x, p.tick);
    var f := v.seek(p.tick, d.isBuy);
    var y := x.(exceeded := x.exceeded || f.exceeded);
    CrossStops(v, d, y, f.tick);
    CrossLowers(v, d, y, f.tick);
    var s := SwapToLimit(e, pool, d, x.s, f.tick);
    LegLowers(e, pool, d, x.s, f.tick);
    WordMono(s.qty, x.s.qty);
    var z := y.(s := s.(counters := s.counters.(pinSpills := s.counters.pinSpills + 1)), doMore := HasSwapLeft(d, s));
    CrossStops(v, d, z, f.tick);
    CrossLowers(v, d, z, f.tick);
  }

  /** A run that goes on passes through the same states with another quantity, as long as something would be left. */
  lemma {:induction false} RunMoves(e: Engine, pool: PoolParams, d: Direction, v: BitmapView, x: Sweep, q: nat, k: nat)
    requires FeeFree(e, pool) && ExactInput(d) && !x.failed && IsWord(x.s.qty) && IsWord(q)
    requires SweepRun(e, pool, d, v, x, k).doMore && q > x.s.qty - SweepRun(e, pool, d, v, x, k).s.qty
    ensures var z := SweepRun(e, pool, d, v, x, k);
            && !z.failed && z.s.qty <= x.s.qty
            && SweepRun(e, pool, d, v, x.(s := x.s.(qty := q)), k) == Moved(x, z, q)
    decreases k
  {
    hide SweepStep, FeeFree, IsWord;
    if k > 0 {
      var y, z := SweepStep(e, pool, d, v, x), SweepRun(e, pool, d, v, x, k);
      assert z == SweepRun(e, pool, d, v, y, k - 1);
      StepLowers(e, pool, d, v, x);
      WordMono(y.s.qty, x.s.qty);
      RunLowers(e, pool, d, v, y, k - 1);
      StepMoves(e, pool, d, v, x, q);
      WordMono(q - (x.s.qty - y.s.qty), q);
      RunMoves(e, pool, d, v, y, q - (x.s.qty - y.s.qty), k - 1);
    }
  }

  // ----- the exact condition

  lemma NextExists(s: Snapshot, st: Storage, isBuy: bool, mid: int) returns (t: int)
    requires Loaded(s, st) && IsTick(mid) && (if isBuy then mid <= s.maxTick else s.minTick - 1 <= mid)
    requires !NothingBeyond(s, st, isBuy)
    ensures IsNext(ActiveTicks(st), isBuy, mid, t)
  {
    hide Active, ScanUp, ScanDown, Loaded;
    var far :| BeyondEnd(s, isBuy, far) && Active(st, far);
    t := if isBuy then ScanUp(st, mid + 1) else ScanDown(st, mid);
    if isBuy {
      ScanUpMeaning(st, mid + 1);
    } else {
      ScanDownMeaning(st, mid);
    }
    ActiveIsTick(st, t);
  }

  lemma TellingFits(e: Engine, d: Direction, c: Curve, mid: int, t: int)
    ensures TellingQuantity(e, d, c, mid, t) < TWO_256
  {
    hide LimitFlow, DetermineLimit, BorderOf;
    var border := BorderOf(d, mid);
    StopIsInRange(e, d, border);
    StopIsInRange(e, d, t);
    LimitFlowIsSmall(c, d.inBaseQty, StopPrice(e, d, border));
    LimitFlowIsSmall(c, d.inBaseQty, StopPrice(e, d, t));
    LimitFlowIsSmall(c.(priceRoot := StopPrice(e, d, border)), d.inBaseQty, StopPrice(e, d, t));
  }

  /** Whether every accepted quote of the window is, apart from its flag, the sweep over storage. */
  ghost predicate AlwaysAgrees(e: Engine, pool: PoolParams, d: Direction, s: Snapshot, st: Storage, c: Curve,
      fuel: nat) {
    forall qty: nat | qty < TWO_256 ::
      var y := SweepRun(e, pool, d, SnapshotView(s), SweepStart(e, d, c, qty), fuel);
      Accepted(y) ==> SweepRun(e, pool, d, ChainView(st), SweepStart(e, d, c, qty), fuel) == y.(exceeded := false)
  }

  /** The start of the quote lies in the window. */
  predicate StartsInside(e: Engine, s: Snapshot, c: Curve) {
    IsTick(e.tickAtRatio(c.priceRoot)) && s.minTick <= e.tickAtRatio(c.priceRoot) <= s.maxTick && c.concLiq < TWO_256
  }

  /** With nothing beyond the window's end every quote agrees, whatever the curve, the fees and the start. */
  lemma NothingBeyondAgrees(e: Engine, pool: PoolParams, d: Direction, s: Snapshot, st: Storage, c: Curve, fuel: nat)
    requires Loaded(s, st) && Consistent(st) && LimitInRange(d) && NothingBeyond(s, st, d.isBuy)
    requires StartsInside(e, s, c)
    ensures AlwaysAgrees(e, pool, d, s, st, c, fuel)
  {
    hide SweepRun, SnapshotView, ChainView, Loaded, NothingBeyond, Consistent;
    forall qty: nat | qty < TWO_256
      ensures var y := SweepRun(e, pool, d, SnapshotView(s), SweepStart(e, d, c, qty), fuel);
              SweepRun(e, pool, d, ChainView(st), SweepStart(e, d, c, qty), fuel) == y.(exceeded := false)
    {
      SweepRefines(e, pool, d, s, st, c, qty, fuel);
    }
  }

  /** The window's sweep has gone past all its listed ticks, unflagged and with something left, and any next active
      tick of storage can be told from a clear way by a quantity that fits a word. */
  ghost predicate PastTheList(e: Engine, d: Direction, s: Snapshot, st: Storage, z: Sweep, q: nat) {
    && z.doMore && !z.exceeded && z.s.qty <= q && (if d.isBuy then z.mid <= s.maxTick else s.minTick - 1 <= z.mid)
    && (forall u | u in s.ticks :: !Ahead(d.isBuy, z.mid, u))
    && forall t | IsNext(ActiveTicks(st), d.isBuy, z.mid, t) ::
         && Tradable(e, d, z.s.curve, z.mid, t)
         && IsWord(q - z.s.qty + TellingQuantity(e, d, z.s.curve, z.mid, t))
  }

  lemma {:induction false} RunSplits(e: Engine, pool: PoolParams, d: Direction, v: BitmapView, x: Sweep, k: nat, m: nat)
    ensures SweepRun(e, pool, d, v, x, k + m) == SweepRun(e, pool, d, v, SweepRun(e, pool, d, v, x, k), m)
    decreases k
  {
    hide SweepStep;
    if k > 0 && x.doMore {
      RunSplits(e, pool, d, v, SweepStep(e, pool, d, v, x), k - 1, m);
    }
  }

  lemma TradableRange(e: Engine, d: Direction, c: Curve, mid: int, t: int)
    requires Tradable(e, d, c, mid, t)
    ensures MIN_TICK < BorderOf(d, mid) < MAX_TICK && MIN_TICK < t < MAX_TICK
  {
    hide FlowTo, StopPrice, BorderOf;
  }

  /** From the telling quantity at a state past the list one more iteration ends both sweeps: storage's fails. */
  lemma TellsApart(e: Engine, pool: PoolParams, d: Direction, s: Snapshot, st: Storage, z: Sweep, t: int, m: nat)
    requires Consistent(st) && FeeFree(e, pool) && ExactInput(d) && z.doMore && !z.failed && IsTick(z.mid) && m > 0
    requires (forall u | u in s.ticks :: !Ahead(d.isBuy, z.mid, u)) && IsNext(ActiveTicks(st), d.isBuy, z.mid, t)
    requires Tradable(e, d, z.s.curve, z.mid, t) && z.s.qty == TellingQuantity(e, d, z.s.curve, z.mid, t)
    ensures Accepted(SweepRun(e, pool, d, SnapshotView(s), z, m))
    ensures SweepRun(e, pool, d, ChainView(st), z.(exceeded := false), m).failed
  {
    hide SweepStep, SnapshotView, ChainView, FeeFree, IsNext, Tradable, TellingQuantity, BorderOf, Consistent;
    TradableRange(e, d, z.s.curve, z.mid, t);
    ChainFindsNext(st, d, z.mid, t);
    ChainStepFails(e, pool, d, st, z.(exceeded := false), t);
    WindowStepAccepts(e, pool, d, s, z, t);
    assert SweepRun(e, pool, d, SnapshotView(s), z, m) == SweepStep(e, pool, d, SnapshotView(s), z);
  }

  lemma StartMoves(e: Engine, d: Direction, c: Curve, q: nat, r: nat)
    ensures SweepStart(e, d, c, r) == SweepStart(e, d, c, q).(s := SweepStart(e, d, c, q).s.(qty := r))
  {
  }

  /** The quantity that brings the sweep to the same state past the list with `telling` left tells the two apart. */
  lemma SomeQuoteDiffers(e: Engine, pool: PoolParams, d: Direction, s: Snapshot, st: Storage, c: Curve, q: nat, k: nat,
      t: int, fuel: nat)
    requires Loaded(s, st) && Consistent(st) && ExactInput(d) && LimitInRange(d) && FeeFree(e, pool) && k < fuel
    requires StartsInside(e, s, c) && IsWord(q)
    requires var z := SweepRun(e, pool, d, SnapshotView(s), SweepStart(e, d, c, q), k);
             PastTheList(e, d, s, st, z, q) && IsNext(ActiveTicks(st), d.isBuy, z.mid, t) && IsTick(z.mid)
    ensures !AlwaysAgrees(e, pool, d, s, st, c, fuel)
  {
    hide SweepStep, SnapshotView, ChainView, Loaded, FeeFree, IsNext, Tradable, TellingQuantity, BorderOf, Consistent,
      SweepRun, IsWord, LimitInRange;
    var v, w, x := SnapshotView(s), ChainView(st), SweepStart(e, d, c, q);
    var z := SweepRun(e, pool, d, v, x, k);
    var telling := TellingQuantity(e, d, z.s.curve, z.mid, t);
    var qty := q - z.s.qty + telling;
    TellingPositive(e, d, z.s.curve, z.mid, t);
    RunMoves(e, pool, d, v, x, qty, k);
    StartMoves(e, d, c, q, qty);
    var x0 := SweepStart(e, d, c, qty);
    var y := z.(s := z.s.(qty := telling));
    assert SweepRun(e, pool, d, v, x0, k) == y;
    SweepRefines(e, pool, d, s, st, c, qty, k);
    assert SweepRun(e, pool, d, w, x0, k) == y;
    RunSplits(e, pool, d, v, x0, k, fuel - k);
    RunSplits(e, pool, d, w, x0, k, fuel - k);
    TellsApart(e, pool, d, s, st, y, t, fuel - k);
    assert y.(exceeded := false) == y;
    Disagrees(e, pool, d, s, st, c, qty, fuel);
  }

  lemma Disagrees(e: Engine, pool: PoolParams, d: Direction, s: Snapshot, st: Storage, c: Curve, qty: nat, fuel: nat)
    requires IsWord(qty) && Accepted(SweepRun(e, pool, d, SnapshotView(s), SweepStart(e, d, c, qty), fuel))
    requires SweepRun(e, pool, d, ChainView(st), SweepStart(e, d, c, qty), fuel).failed
    ensures !AlwaysAgrees(e, pool, d, s, st, c, fuel)
  {
    hide SweepRun, SnapshotView, ChainView;
  }

  lemma TellingPositive(e: Engine, d: Direction, c: Curve, mid: int, t: int)
    ensures TellingQuantity(e, d, c, mid, t) > 0
  {
    hide FlowTo, StopPrice, BorderOf;
  }

  /** Without fees, once some quantity `q` brings the window's sweep past its listed ticks, accepted quotes agree with
      storage for every quantity exactly when storage has no active tick beyond the window's end: one unit more than
      it takes to get to the nearest such tick makes the contract's sweep fail there, while the window's runs on and
      is accepted. */
  lemma AcceptedAgreesIff(e: Engine, pool: PoolParams, d: Direction, s: Snapshot, st: Storage, c: Curve, q: nat,
      k: nat, fuel: nat)
    requires Loaded(s, st) && Consistent(st) && ExactInput(d) && LimitInRange(d) && FeeFree(e, pool) && k < fuel
    requires StartsInside(e, s, c) && IsWord(q)
    requires PastTheList(e, d, s, st, SweepRun(e, pool, d, SnapshotView(s), SweepStart(e, d, c, q), k), q)
    ensures AlwaysAgrees(e, pool, d, s, st, c, fuel) <==> NothingBeyond(s, st, d.isBuy)
  {
    hide SnapshotView, ChainView, Loaded, NothingBeyond, FeeFree, IsNext, Tradable, Consistent, AlwaysAgrees, SweepRun,
      LimitInRange, Walks, SweptLiq, Remaining;
    if NothingBeyond(s, st, d.isBuy) {
      NothingBeyondAgrees(e, pool, d, s, st, c, fuel);
    } else {
      var x := SweepStart(e, d, c, q);
      LoadedWalks(s, st);
      StartSatisfies(e, d, SnapshotView(s), TickSet(s), c, q);
      RunKeeps(e, pool, d, SnapshotView(s), TickSet(s), x, x, k);
      var t := NextExists(s, st, d.isBuy, SweepRun(e, pool, d, SnapshotView(s), x, k).mid);
      SomeQuoteDiffers(e, pool, d, s, st, c, q, k, t, fuel);
    }
  }
}
