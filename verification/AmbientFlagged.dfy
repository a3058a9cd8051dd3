/** A flagged quote that is accepted and wrong, with the contract's own tick prices: the window ends at tick 50,
storage has one active tick at 100, and the swap starts at price 1. */
module AmbientFlagged {
  import opened Arith
  import opened Words
  import opened Bits
  import opened AmbientTicks
  import opened AmbientView
  import opened AmbientChainWalk
  import opened AmbientSnapshot
  import opened AmbientCurve
  import opened AmbientSweep
  import opened AmbientTickMath
  import opened AmbientBeyond
  import opened AmbientTradable
  import C = AmbientChainView

  const BOOK: Storage := Storage(map[0 := Shl(1, 0)], map[0 := Shl(1, 100)], map[100 := 2])
  const WINDOW: Snapshot := Snapshot([], map[], 0, 50)
  const ENGINE: Engine := Engine(
    SqrtRatioAtTick,
    TickAtSqrtRatio,
    (c: Curve, fees: nat, inBase: bool) => Assimilated(c.priceRoot, c.ambientSeeds, c.seedDeflator, c.concGrowth))
  const FREE: PoolParams := PoolParams(0, 0)
  const BUY: Direction := Direction(true, true, MAX_SQRT_RATIO - 1)
  const CURVE: Curve := Curve(TWO_64, 0, TWO_64, 0, 0)
  const QTY: nat := 200_000_000_000_000_000

  /** Price just before tick 100. */
  const BEFORE_TICK: nat := 18539204128674405812

  /** A book with one active tick. */
  predicate HoldsOne(st: Storage, lobby: int, b: nat, n: nat) {
    && -128 <= lobby < 128 && b < 256 && n < 256
    && st.mezzanine == map[lobby := Shl(1, b)] && st.terminus == map[WeldLobbyMezz(lobby, b) := Shl(1, n)]
  }

  lemma OneTickBook(st: Storage, lobby: int, b: nat, n: nat, t: int)
    requires HoldsOne(st, lobby, b, n)
    ensures Active(st, t) <==> t == WeldLobbyMezzTerm(lobby, b, n)
  {
    hide Shl, MezzKey, TermBit, Bit;
    if IsTick(t) {
      C.TickWord(t);
      SingleBit(n, TermBit(t));
      BitZero(TermBit(t));
      WordOfTick(t, WeldLobbyMezz(lobby, b), n);
    } else {
      C.WordTick(WeldLobbyMezz(lobby, b), n);
    }
  }

  lemma WordOfTick(t: int, m: int, n: nat)
    requires IsTick(t) && n < 256 && -0x8000 <= m < 0x8000
    ensures t == WeldMezzTerm(m, n) <==> MezzKey(t) == m && TermBit(t) == n
  {
    C.TickWord(t);
    C.WordTick(m, n);
  }

  lemma OneTickConsistent(st: Storage, lobby: int, b: nat, n: nat)
    requires HoldsOne(st, lobby, b, n)
    ensures Consistent(st)
  {
    hide Shl, Bit, Pow2;
    OneBitFits(b);
    OneBitFits(n);
    forall k, i: nat | -128 <= k < 128 && i < 256
      ensures Bit(Slot(st.mezzanine, k), i) <==> Slot(st.terminus, WeldLobbyMezz(k, i)) != 0
    {
      SingleBit(b, i);
      BitZero(i);
    }
  }

  lemma OneBitFits(n: nat)
    requires n < 256
    ensures 0 < Shl(1, n) < Pow2(256)
  {
    hide Shl;
    ShlIs(1, n);
    Pow2Add(n, 256 - n);
    PowerMoreThanOne(256 - n);
    MulAtLeast(Pow2(256 - n), Pow2(n));
    MulMono(2, Pow2(256 - n), Pow2(n));
  }

  lemma PowerMoreThanOne(n: nat)
    requires n > 0
    ensures Pow2(n) >= 2
  {
  }

  lemma BookIsActive(t: int)
    ensures Active(BOOK, t) <==> t == 100
  {
    hide Shl, Active;
    OneTickBook(BOOK, 0, 0, 100, t);
  }

  lemma BookIsConsistent()
    ensures Consistent(BOOK)
  {
    hide Shl, Consistent;
    OneTickConsistent(BOOK, 0, 0, 100);
  }

  lemma WindowIsLoaded()
    ensures Loaded(WINDOW, BOOK)
  {
    hide Active;
    forall t | Active(BOOK, t) && 0 <= t <= 50
      ensures false
    {
      BookIsActive(t);
    }
  }

  lemma EngineIsFree()
    ensures FeeFree(ENGINE, FREE)
  {
    hide SqrtRatioAtTick, TickAtSqrtRatio;
  }

  lemma UnitFlow(limit: nat)
    requires TWO_64 <= limit < MAX_SQRT_RATIO
    ensures LimitFlow(CURVE, true, limit) == limit - TWO_64
  {
    hide Times, Mul, MulQ64;
    UnitLiquidity();
    FlowIs(TWO_64, limit - TWO_64);
  }

  lemma UnitLiquidity()
    ensures ActiveLiquidity(CURVE) == TWO_64
  {
    hide InflateLiqSeed;
    NoSeeds();
  }

  lemma Stops()
    ensures DetermineLimit(ENGINE, 100, BUY.limitPrice, true) == BEFORE_TICK
    ensures DetermineLimit(ENGINE, 256, BUY.limitPrice, true) == 18684368066214940582
  {
    hide SqrtRatioAtTick, TickAtSqrtRatio;
    SomeRatios();
  }

  lemma ChainPinsTick()
    ensures C.PinBitmap(BOOK, true, 0) == (100, false)
  {
    hide C.PinBitmap, Active;
    BookIsActive(100);
    forall t | C.AheadInWord(true, 0, t) && t < 100 ensures !Active(BOOK, t) { BookIsActive(t); }
    assert C.AheadInWord(true, 0, 100);
    PinOfWord(BOOK, true, 0, 100);
  }

  lemma WindowPin()
    ensures SnapPin(WINDOW, true, 0) == Pin(256, true, true)
  {
  }

  /** The window's sweep spends everything before the word border. */
  lemma WindowStep(x0: Sweep)
    requires x0.s.curve == CURVE && x0.s.qty == QTY && x0.mid == 0 && !x0.failed && !x0.exceeded
    ensures var y := SweepStep(ENGINE, FREE, BUY, SnapshotView(WINDOW), x0);
            Accepted(y) && y.exceeded && y.s.counters == x0.s.counters
  {
    hide SwapToLimit, DetermineLimit, LimitFlow, SnapPin, Beyond, FeeFree;
    WindowPin();
    Stops();
    EngineIsFree();
    FreeLeg(ENGINE, FREE, BUY, x0.s, 256);
    UnitFlow(18684368066214940582);
  }

  /** The contract's sweep stops at the tick with quantity to spare and crosses it. */
  lemma ChainStep(x0: Sweep)
    requires x0.s.curve == CURVE && x0.s.qty == QTY && x0.mid == 0 && !x0.failed
    ensures var y := SweepStep(ENGINE, FREE, BUY, ChainView(BOOK), x0);
            !y.failed && y.s.counters.crossInitTicks == x0.s.counters.crossInitTicks + 1
  {
    hide SwapToLimit, DetermineLimit, LimitFlow, C.PinBitmap, AdjTickLiq, Lots, FeeFree;
    ChainPinsTick();
    Stops();
    EngineIsFree();
    FreeLeg(ENGINE, FREE, BUY, x0.s, 100);
    UnitFlow(BEFORE_TICK);
    CrossTwoLots(SwapToLimit(ENGINE, FREE, BUY, x0.s, 100));
  }

  lemma CrossTwoLots(s: SwapState)
    requires s.curve == CURVE.(priceRoot := BEFORE_TICK) && s.qty > 2
    ensures var r := AdjTickLiq(BUY, s, 100, Lots(2));
            r.Crossed? && r.state.counters.crossInitTicks == s.counters.crossInitTicks + 1
  {
    hide PriceToTokenPrecision, ActiveLiquidity, CrossedLiq, Accumulate, ShavedPrice;
    CrossedTo(s.curve.(concLiq := CrossedLiq(TWO_64, Lots(2), true)));
  }

  lemma CrossedTo(c: Curve)
    requires c == Curve(BEFORE_TICK, 0, CrossedLiq(TWO_64, Lots(2), true), 0, 0)
    ensures PriceToTokenPrecision(ActiveLiquidity(c), c.priceRoot, true) == 2
  {
    TwoLots();
    NoSeeds();
    hide Times, CrossedLiq, Lots, InflateLiqSeed;
  }

  lemma NoSeeds()
    ensures InflateLiqSeed(0, 0) == 0
  {
    hide Times;
    TimesIs(0, TWO_48);
  }

  lemma TwoLots()
    ensures CrossedLiq(TWO_64, Lots(2), true) == TWO_64 + 2048
  {
    assert Lots(2) == Level(2, 0);
    hide Lots;
    assert LotsToLiquidity(2) == 2048 && LotsToLiquidity(0) == 0;
  }

  /** A loaded window and a start inside it, where the window's sweep is accepted although flagged, and
      crosses no tick, while the sweep over storage crosses one in its first iteration. */
  lemma FlagMayHideACrossing()
    ensures Loaded(WINDOW, BOOK) && WINDOW.minTick <= ENGINE.tickAtRatio(CURVE.priceRoot) <= WINDOW.maxTick
    ensures var x0 := SweepStart(ENGINE, BUY, CURVE, QTY);
            var y, w := SweepStep(ENGINE, FREE, BUY, SnapshotView(WINDOW), x0),
                        SweepStep(ENGINE, FREE, BUY, ChainView(BOOK), x0);
            && Accepted(y) && y.exceeded && y.s.counters.crossInitTicks == 0
            && !w.failed && w.s.counters.crossInitTicks == 1
  {
    hide SweepStep, Loaded, SnapshotView, ChainView, SqrtRatioAtTick, TickAtSqrtRatio;
    WindowIsLoaded();
    TickOfUnit();
    WindowStep(SweepStart(ENGINE, BUY, CURVE, QTY));
    ChainStep(SweepStart(ENGINE, BUY, CURVE, QTY));
  }

  lemma TickIsTradable()
    ensures Tradable(ENGINE, BUY, CURVE, 0, 100)
  {
    hide DetermineLimit;
    assert BorderOf(BUY, 0) == 256;
    hide BorderOf, ActiveLiquidity, Tradable;
    Stops();
    UnitLiquidity();
    BuyIsTradable(ENGINE, BUY, CURVE, 0, 100);
  }

  /** From a start with nothing listed ahead, the sweep is past the list before its first iteration. */
  lemma NothingListed(d: Direction, s: Snapshot, st: Storage, t: int, q: nat)
    requires s.ticks == [] && (forall u | IsNext(ActiveTicks(st), d.isBuy, 0, u) :: u == t)
    requires Tradable(ENGINE, d, CURVE, 0, t) && Inside(d, TWO_64) && s.minTick <= 0 <= s.maxTick
    ensures var x := SweepStart(ENGINE, d, CURVE, q);
            PastTheList(ENGINE, d, s, st, SweepRun(ENGINE, FREE, d, SnapshotView(s), x, 0), q)
  {
    hide Tradable, TellingQuantity, ActiveTicks, SqrtRatioAtTick, TickAtSqrtRatio;
    TickOfUnit();
    TellingFits(ENGINE, d, CURVE, 0, t);
  }

  lemma OnlyTickAhead(t: int)
    requires IsNext(ActiveTicks(BOOK), true, 0, t)
    ensures t == 100
  {
    hide Active;
    BookIsActive(t);
  }

  /** The exact condition applied to this book: some accepted quote of this window is wrong. */
  lemma WindowCannotBeTrusted()
    ensures !AlwaysAgrees(ENGINE, FREE, BUY, WINDOW, BOOK, CURVE, 1)
  {
    hide Loaded, FeeFree, Tradable, IsNext, AlwaysAgrees, Active, SqrtRatioAtTick, TickAtSqrtRatio, PastTheList,
      Consistent, SweepRun, SweepStart, SnapshotView;
    WindowIsLoaded();
    BookIsConsistent();
    EngineIsFree();
    TickOfUnit();
    TickIsTradable();
    forall t | IsNext(ActiveTicks(BOOK), true, 0, t) ensures t == 100 { OnlyTickAhead(t); }
    NothingListed(BUY, WINDOW, BOOK, 100, QTY);
    BookIsActive(100);
    assert BeyondEnd(WINDOW, true, 100);
    AcceptedAgreesIff(ENGINE, FREE, BUY, WINDOW, BOOK, CURVE, QTY, 0, 1);
  }

  // ----- the same for a sell: the window ends at tick -50, storage has one active tick at -100

  const BELOW: Storage := Storage(map[-1 := Shl(1, 255)], map[-1 := Shl(1, 156)], map[-100 := 2])
  const WINDOW_BELOW: Snapshot := Snapshot([], map[], -50, 50)
  const SELL: Direction := Direction(false, false, MIN_SQRT_RATIO)

  lemma BelowIsActive(t: int)
    ensures Active(BELOW, t) <==> t == -100
  {
    hide Shl, Active;
    OneTickBook(BELOW, -1, 255, 156, t);
  }

  lemma BelowIsLoaded()
    ensures Loaded(WINDOW_BELOW, BELOW) && Consistent(BELOW)
  {
    hide Active, Shl, Consistent;
    OneTickConsistent(BELOW, -1, 255, 156);
    forall t | Active(BELOW, t) && -50 <= t <= 50
      ensures false
    {
      BelowIsActive(t);
    }
  }

  lemma SellStops()
    ensures StopPrice(ENGINE, SELL, 0) == TWO_64 && StopPrice(ENGINE, SELL, -100) == 18354745142194483564
  {
    hide SqrtRatioAtTick, TickAtSqrtRatio;
    SomeRatios();
    UnitRatio();
  }

  lemma SellQuotients()
    ensures DivQ64(TWO_64, 18354745142194483564) >= TWO_64
    ensures IsWord(Times(DivQ64(TWO_64, MIN_SQRT_RATIO), TWO_64))
  {
    hide DivQ64, Times;
    ScaledQuotient(TWO_64, 18354745142194483564);
    ScaledQuotient(TWO_64, MIN_SQRT_RATIO);
    TimesIs(DivQ64(TWO_64, MIN_SQRT_RATIO), TWO_64);
  }

  lemma SellPrices()
    ensures PricesAhead(ENGINE, SELL, CURVE, 0, -100)
  {
    hide BorderOf, StopPrice, SqrtRatioAtTick, TickAtSqrtRatio;
    SellBorder();
    SellStops();
  }

  lemma SellBorder()
    ensures BorderOf(SELL, 0) == 0
  {
  }

  lemma TickBelowIsTradable()
    ensures Tradable(ENGINE, SELL, CURVE, 0, -100)
  {
    hide PricesAhead, ActiveLiquidity, Tradable, StopPrice, DivQ64, Times;
    SellPrices();
    SellStops();
    UnitLiquidity();
    SellQuotients();
    SellIsTradable(ENGINE, SELL, CURVE, 0, -100);
  }

  lemma OnlyTickBelow(t: int)
    requires IsNext(ActiveTicks(BELOW), false, 0, t)
    ensures t == -100
  {
    hide Active;
    BelowIsActive(t);
  }

  /** Some accepted sell quote of this window is wrong. */
  lemma SellWindowCannotBeTrusted()
    ensures !AlwaysAgrees(ENGINE, FREE, SELL, WINDOW_BELOW, BELOW, CURVE, 1)
  {
    hide Loaded, FeeFree, Tradable, IsNext, AlwaysAgrees, Active, SqrtRatioAtTick, TickAtSqrtRatio, PastTheList,
      Consistent, SweepRun, SweepStart, SnapshotView;
    BelowIsLoaded();
    EngineIsFree();
    TickOfUnit();
    TickBelowIsTradable();
    forall t | IsNext(ActiveTicks(BELOW), false, 0, t) ensures t == -100 { OnlyTickBelow(t); }
    NothingListed(SELL, WINDOW_BELOW, BELOW, -100, QTY);
    BelowIsActive(-100);
    assert BeyondEnd(WINDOW_BELOW, false, -100);
    AcceptedAgreesIff(ENGINE, FREE, SELL, WINDOW_BELOW, BELOW, CURVE, QTY, 0, 1);
  }
}
