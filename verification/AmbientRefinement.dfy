/** A sweep over a loaded window against the same sweep over the contract's storage. */
module AmbientRefinement {
  import opened Words
  import opened AmbientTicks
  import opened AmbientView
  import opened AmbientChainWalk
  import opened AmbientSnapshot
  import opened AmbientCurve
  import opened AmbientSweep
  import C = AmbientChainView

  /** What lets a flagged answer of the window stand: the flag is down, or storage has nothing to hide. */
  ghost predicate Reliable(s: Snapshot, st: Storage, isBuy: bool, exceeded: bool) {
    !exceeded || NothingBeyond(s, st, isBuy)
  }

  /** A reliable pin of the window is, apart from the flag, the pin of the chain. */
  lemma PinAgrees(s: Snapshot, st: Storage, isBuy: bool, mid: int)
    requires Loaded(s, st) && IsTick(mid) && SeesAhead(s, isBuy, mid)
    ensures var p := SnapshotView(s).pin(isBuy, mid);
            Reliable(s, st, isBuy, p.exceeded) ==> p.(exceeded := false) == ChainView(st).pin(isBuy, mid)
  {
    hide SnapPin, C.PinBitmap, Loaded, NothingBeyond;
    PinRefines(s, st, isBuy, mid);
    if NothingBeyond(s, st, isBuy) {
      PinSame(s, st, isBuy, mid);
    }
  }

  lemma SeekAgrees(s: Snapshot, st: Storage, isBuy: bool, border: int)
    requires Loaded(s, st) && Consistent(st) && IsBorder(border) && SeesAhead(s, isBuy, BeforeBorder(border))
    ensures var f := SnapshotView(s).seek(border, isBuy);
            Reliable(s, st, isBuy, f.exceeded) ==> f.(exceeded := false) == ChainView(st).seek(border, isBuy)
  {
    hide SnapSeek, C.Seek, C.SeekWalk, Loaded, NothingBeyond, Consistent;
    C.WalkIsScan(st, border, isBuy);
    SeekRefines(s, st, border, isBuy);
    if NothingBeyond(s, st, isBuy) {
      SeekSame(s, st, border, isBuy);
    }
  }

  lemma LevelAgrees(s: Snapshot, st: Storage, t: int)
    requires Loaded(s, st) && t in s.ticks
    ensures SnapshotView(s).level(t) == ChainView(st).level(t)
  {
    hide Lots;
  }

  lemma LoadedWalks(s: Snapshot, st: Storage)
    requires Loaded(s, st)
    ensures Walks(SnapshotView(s), TickSet(s))
  {
    hide SnapshotView, Walks;
    forall t | t in s.ticks ensures IsTick(t) { ActiveIsTick(st, t); }
    SnapshotWalks(s);
  }

  /** Crossing a listed tick reads the same level in both views and leaves the sweep where the window sees ahead. */
  lemma CrossAgrees(d: Direction, s: Snapshot, st: Storage, x: Sweep, bumpTick: int)
    requires Loaded(s, st) && bumpTick in s.ticks && IsTickFinite(bumpTick)
    ensures var y := Cross(SnapshotView(s), d, x, bumpTick);
            && Cross(ChainView(st), d, x.(exceeded := false), bumpTick) == y.(exceeded := false)
            && y.exceeded == x.exceeded && (y.doMore ==> SeesAhead(s, d.isBuy, y.mid))
  {
    hide SnapshotView, ChainView, CrossedLiq, PriceToTokenPrecision, ActiveLiquidity, Accumulate, ShavedPrice;
    LevelAgrees(s, st, bumpTick);
  }

  /** A reliable iteration over the window is, apart from the flag, the iteration over storage. */
  lemma StepAgrees(e: Engine, pool: PoolParams, d: Direction, s: Snapshot, st: Storage, x0: Sweep, x: Sweep)
    requires Loaded(s, st) && Consistent(st) && LimitInRange(d) && x.doMore && SeesAhead(s, d.isBuy, x.mid)
    requires SweepInv(d, SnapshotView(s), TickSet(s), x0, x)
    ensures var y := SweepStep(e, pool, d, SnapshotView(s), x);
            && (x.exceeded ==> y.exceeded)
            && (Reliable(s, st, d.isBuy, y.exceeded) ==>
                  && SweepStep(e, pool, d, ChainView(st), x.(exceeded := false)) == y.(exceeded := false)
                  && (y.doMore ==> SeesAhead(s, d.isBuy, y.mid)))
  {
    hide SwapToLimit, Cross, HasSwapLeft, SnapshotView, ChainView, Walks, Loaded, Consistent, IsNext, SeesAhead,
      TickSet;
    var v, w := SnapshotView(s), ChainView(st);
    LoadedWalks(s, st);
    var p := v.pin(d.isBuy, x.mid);
    PinAgrees(s, st, d.isBuy, x.mid);
    LegKeeps(e, pool, d, v, TickSet(s), x0, x, p.tick);
    var t := SwapToLimit(e, pool, d, x.s, p.tick);
    var y := x.(s := t, exceeded := x.exceeded || p.exceeded, doMore := HasSwapLeft(d, t));
    if y.doMore {
      if !p.spills {
        PinIsNext(v, TickSet(s), d.isBuy, x.mid);
        assert p.tick in s.ticks by { NextIsListed(s, d.isBuy, x.mid, p.tick); }
        CrossAgrees(d, s, st, y, p.tick);
      } else {
        BeyondAgrees(e, pool, d, s, st, x0, y, p);
      }
    }
  }

  lemma NextIsListed(s: Snapshot, isBuy: bool, mid: int, t: int)
    requires IsNext(TickSet(s), isBuy, mid, t)
    ensures t in s.ticks
  {
  }

  lemma BorderIsSeen(s: Snapshot, isBuy: bool, mid: int)
    requires Walks(SnapshotView(s), TickSet(s)) && IsTick(mid) && SeesAhead(s, isBuy, mid)
    requires var p := SnapshotView(s).pin(isBuy, mid); p.spills && MIN_TICK < p.tick < MAX_TICK
    ensures var border := SnapshotView(s).pin(isBuy, mid).tick;
            IsBorder(border) && SeesAhead(s, isBuy, BeforeBorder(border))
  {
    hide SnapshotView, TickSet;
    var v := SnapshotView(s);
    assert PinWalks(v.pin(isBuy, mid), TickSet(s), isBuy, mid);
  }

  lemma BeyondAgrees(e: Engine, pool: PoolParams, d: Direction, s: Snapshot, st: Storage, x0: Sweep, x: Sweep, p: Pin)
    requires Loaded(s, st) && Consistent(st) && LimitInRange(d) && x.doMore && SeesAhead(s, d.isBuy, x.mid)
    requires SweepInv(d, SnapshotView(s), TickSet(s), x0, x)
    requires p == SnapshotView(s).pin(d.isBuy, x.mid) && p.spills && MIN_TICK < p.tick < MAX_TICK
    ensures var y := Beyond(e, pool, d, SnapshotView(s), x, p);
            && (x.exceeded ==> y.exceeded)
            && (Reliable(s, st, d.isBuy, y.exceeded) ==>
                  && Beyond(e, pool, d, ChainView(st), x.(exceeded := false), p.(exceeded := false)) ==
                    y.(exceeded := false)
                  && (y.doMore ==> SeesAhead(s, d.isBuy, y.mid)))
  {
    hide SwapToLimit, Cross, HasSwapLeft, SnapshotView, ChainView, Walks, Loaded, Consistent, IsNext, SeesAhead,
      TickSet;
    var v := SnapshotView(s);
    LoadedWalks(s, st);
    BorderIsSeen(s, d.isBuy, x.mid);
    SeekAgrees(s, st, d.isBuy, p.tick);
    var f := v.seek(p.tick, d.isBuy);
    var y := x.(exceeded := x.exceeded || f.exceeded);
    if f.tick == p.tick {
      SeekIsNext(v, TickSet(s), d.isBuy, x.mid);
      NextIsListed(s, d.isBuy, x.mid, f.tick);
      CrossAgrees(d, s, st, y, f.tick);
    } else {
      LegKeeps(e, pool, d, v, TickSet(s), x0, x, f.tick);
      var t := SwapToLimit(e, pool, d, x.s, f.tick);
      var z := y.(s := t.(counters := t.counters.(pinSpills := t.counters.pinSpills + 1)), doMore := HasSwapLeft(d, t));
      if z.doMore {
        SeekIsNext(v, TickSet(s), d.isBuy, x.mid);
        NextIsListed(s, d.isBuy, x.mid, f.tick);
        CrossAgrees(d, s, st, z, f.tick);
      }
    }
  }

  /** The boundary flag is never lowered during a run. */
  lemma {:induction false} FlagStays(e: Engine, pool: PoolParams, d: Direction, v: BitmapView, x: Sweep, fuel: nat)
    requires x.exceeded
    ensures SweepRun(e, pool, d, v, x, fuel).exceeded
    decreases fuel
  {
    hide SwapToLimit, AdjTickLiq, HasSwapLeft;
    if fuel > 0 && x.doMore {
      FlagStays(e, pool, d, v, SweepStep(e, pool, d, v, x), fuel - 1);
    }
  }

  /** A sweep over a loaded window that ends unflagged, or beyond whose end storage has no active tick,
      passes through exactly the states of the sweep over the contract's storage: same curve, same flows,
      same remaining quantity, same counters. */
  lemma {:induction false} RunRefines(
      e: Engine, pool: PoolParams, d: Direction, s: Snapshot, st: Storage, x0: Sweep, x: Sweep, fuel: nat)
    requires Loaded(s, st) && Consistent(st) && LimitInRange(d)
    requires SweepInv(d, SnapshotView(s), TickSet(s), x0, x) && (x.doMore ==> SeesAhead(s, d.isBuy, x.mid))
    ensures var y := SweepRun(e, pool, d, SnapshotView(s), x, fuel);
            Reliable(s, st, d.isBuy, y.exceeded) ==>
              SweepRun(e, pool, d, ChainView(st), x.(exceeded := false), fuel) == y.(exceeded := false)
    decreases fuel
  {
    hide SweepStep, SweepInv, SnapshotView, ChainView, Loaded, Consistent, SeesAhead, NothingBeyond;
    if fuel > 0 && x.doMore {
      var v := SnapshotView(s);
      var y := SweepStep(e, pool, d, v, x);
      StepAgrees(e, pool, d, s, st, x0, x);
      if y.exceeded {
        FlagStays(e, pool, d, v, y, fuel - 1);
      }
      if Reliable(s, st, d.isBuy, y.exceeded) {
        LoadedWalks(s, st);
        StepKeeps(e, pool, d, v, TickSet(s), x0, x);
        RunRefines(e, pool, d, s, st, x0, y, fuel - 1);
      }
    }
  }

  /** The same from the start of a quote whose price lies in the window. */
  lemma SweepRefines(e: Engine, pool: PoolParams, d: Direction, s: Snapshot, st: Storage, c: Curve, qty: nat, fuel: nat)
    requires Loaded(s, st) && Consistent(st) && LimitInRange(d) && c.concLiq < TWO_256
    requires IsTick(e.tickAtRatio(c.priceRoot)) && s.minTick <= e.tickAtRatio(c.priceRoot) <= s.maxTick
    ensures var x0 := SweepStart(e, d, c, qty);
            var y := SweepRun(e, pool, d, SnapshotView(s), x0, fuel);
            var w := SweepRun(e, pool, d, ChainView(st), x0, fuel);
            && (!y.exceeded ==> w == y)
            && (NothingBeyond(s, st, d.isBuy) ==> w == y.(exceeded := false))
  {
    hide SweepRun, SnapshotView, ChainView, Loaded, Consistent, NothingBeyond;
    StartSatisfies(e, d, SnapshotView(s), TickSet(s), c, qty);
    var x0 := SweepStart(e, d, c, qty);
    RunRefines(e, pool, d, s, st, x0, x0, fuel);
  }
}
