/** The in-memory bitmap view: a sorted list of the active ticks of a window, searched by bisection,
with a flag raised when an answer may depend on ticks outside the window. */
module AmbientSnapshot {
  import opened AmbientTicks
  import opened AmbientView
  import opened AmbientChainWalk
  import C = AmbientChainView

  datatype Snapshot = Snapshot(ticks: seq<int>, levels: map<int, Level>, minTick: int, maxTick: int)

  predicate Increasing(ticks: seq<int>) {
    forall i, j | 0 <= i < j < |ticks| :: ticks[i] < ticks[j]
  }

  /** How many leading ticks are at most `t`: the index of the first one above it. */
  function UpperBound(ticks: seq<int>, t: int): (i: nat)
    ensures i <= |ticks|
    ensures forall k | 0 <= k < i :: ticks[k] <= t
    ensures i < |ticks| ==> ticks[i] > t
  {
    if ticks == [] || ticks[0] > t then 0
    else
      var rest := UpperBound(ticks[1..], t);
      assert forall k | 1 <= k < 1 + rest :: ticks[k] == ticks[1..][k - 1];
      1 + rest
  }

  lemma {:induction false} UpperBoundIsUnique(ticks: seq<int>, t: int, i: nat)
    requires i <= |ticks| && (forall k | 0 <= k < i :: ticks[k] <= t) && (forall k | i <= k < |ticks| :: ticks[k] > t)
    ensures i == UpperBound(ticks, t)
  {
    if ticks != [] && ticks[0] <= t {
      UpperBoundIsUnique(ticks[1..], t, i - 1);
    }
  }

  // ----- what the two queries answer

  function SnapPin(s: Snapshot, isBuy: bool, startTick: int): Pin {
    var i := UpperBound(s.ticks, startTick);
    var tickMezz := MezzKey(startTick);
    var pin := C.SpillOverPin(isBuy, tickMezz);
    if isBuy then
      if i < |s.ticks| && MezzKey(s.ticks[i]) == tickMezz then Pin(s.ticks[i], false, false)
      else Pin(pin, true, pin > s.maxTick)
    else
      if i > 0 && MezzKey(s.ticks[i - 1]) == tickMezz then Pin(s.ticks[i - 1], false, false)
      else Pin(pin, true, pin < s.minTick)
  }

  function SnapSeek(s: Snapshot, borderTick: int, isBuy: bool): Found {
    var i := UpperBound(s.ticks, borderTick - 1);
    if isBuy then
      if i < |s.ticks| then Found(s.ticks[i], false) else Found(ZeroTick(true), true)
    else
      if i > 0 then Found(s.ticks[i - 1], false) else Found(ZeroTick(false), true)
  }

  function SnapLevel(s: Snapshot, tick: int): Level {
    if tick in s.levels then s.levels[tick] else Level(0, 0)
  }

  function SnapshotView(s: Snapshot): BitmapView {
    BitmapView(
      (isBuy, startTick) => SnapPin(s, isBuy, startTick),
      (borderTick, isBuy) => SnapSeek(s, borderTick, isBuy),
      tick => SnapLevel(s, tick))
  }

  /** The bisection of sort.Search: the least index at which a monotone test holds. */
  method SortSearch(n: nat, test: int --> bool) returns (i: nat)
    requires forall k | 0 <= k < n :: test.requires(k)
    requires forall j, k | 0 <= j < k < n && test(j) :: test(k)
    ensures i <= n
    ensures forall k | 0 <= k < i :: !test(k)
    ensures forall k | i <= k < n :: test(k)
  {
    i := 0;
    var j := n;
    while i < j
      invariant i <= j <= n
      invariant forall k | 0 <= k < i :: !test(k)
      invariant forall k | j <= k < n :: test(k)
    {
      var h := (i + j) / 2;
      if !test(h) {
        i := h + 1;
      } else {
        j := h;
      }
    }
  }

  class SnapshotBitmapView {
    var activeTicks: seq<int>
    var levels: map<int, Level>
    var minTick: int
    var maxTick: int
    var boundaryExceeded: bool

    function Value(): Snapshot
      reads this
    {
      Snapshot(activeTicks, levels, minTick, maxTick)
    }

    /** A window recorded as {0, 0} stands for the whole tick range. */
    constructor (state: Snapshot)
      ensures activeTicks == state.ticks && levels == state.levels && !boundaryExceeded
      ensures if state.minTick == 0 && state.maxTick == 0
              then minTick == TICK_LOWER && maxTick == TICK_UPPER
              else Value() == state
    {
      activeTicks, levels, boundaryExceeded := state.ticks, state.levels, false;
      minTick, maxTick := state.minTick, state.maxTick;
      if state.minTick == 0 && state.maxTick == 0 {
        minTick, maxTick := TICK_LOWER, TICK_UPPER;
      }
    }

    method Search(t: int) returns (i: nat)
      requires Increasing(activeTicks)
      ensures i == UpperBound(activeTicks, t)
    {
      var ticks := activeTicks;
      var test := k requires 0 <= k < |ticks| => ticks[k] > t;
      i := SortSearch(|ticks|, test);
      forall k | 0 <= k < i ensures ticks[k] <= t { assert !test(k); }
      forall k | i <= k < |ticks| ensures ticks[k] > t { assert test(k); }
      UpperBoundIsUnique(ticks, t, i);
    }

    method PinBitmap(isBuy: bool, startTick: int) returns (pin: int, spills: bool)
      requires Increasing(activeTicks)
      modifies this`boundaryExceeded
      ensures var p := SnapPin(Value(), isBuy, startTick);
              pin == p.tick && spills == p.spills && boundaryExceeded == (old(boundaryExceeded) || p.exceeded)
    {
      var tickMezz := MezzKey(startTick);
      var i := Search(startTick);
      if isBuy {
        if i < |activeTicks| && MezzKey(activeTicks[i]) == tickMezz {
          return activeTicks[i], false;
        }
        pin := C.SpillOverPin(true, tickMezz);
        if pin > maxTick {
          boundaryExceeded := true;
        }
        return pin, true;
      }
      var j := i - 1;
      if j >= 0 && MezzKey(activeTicks[j]) == tickMezz {
        return activeTicks[j], false;
      }
      pin := C.SpillOverPin(false, tickMezz);
      if pin < minTick {
        boundaryExceeded := true;
      }
      return pin, true;
    }

    method SeekMezzSpill(borderTick: int, isBuy: bool) returns (tick: int)
      requires Increasing(activeTicks)
      modifies this`boundaryExceeded
      ensures var f := SnapSeek(Value(), borderTick, isBuy);
              tick == f.tick && boundaryExceeded == (old(boundaryExceeded) || f.exceeded)
    {
      var i := Search(borderTick - 1);
      if isBuy {
        if i < |activeTicks| {
          return activeTicks[i];
        }
        boundaryExceeded := true;
        return ZeroTick(true);
      }
      if i > 0 {
        return activeTicks[i - 1];
      }
      boundaryExceeded := true;
      return ZeroTick(false);
    }
  }

  // ----- the list against storage

  /** The list holds exactly the active ticks of the window, in order, with their levels. */
  ghost predicate Loaded(s: Snapshot, st: Storage) {
    && Increasing(s.ticks)
    && (forall t | t in s.ticks :: Active(st, t) && s.minTick <= t <= s.maxTick)
    && (forall t | Active(st, t) && s.minTick <= t <= s.maxTick :: t in s.ticks)
    && (forall t | t in s.ticks :: t in s.levels && s.levels[t] == Lots(Slot(st.levels, t)))
  }

  /** Every tick of the list lies before or after the split. */
  lemma UpperBoundSplits(ticks: seq<int>, t: int, x: int)
    requires Increasing(ticks) && x in ticks
    ensures x > t ==> UpperBound(ticks, t) < |ticks| && x >= ticks[UpperBound(ticks, t)]
    ensures x <= t ==> UpperBound(ticks, t) > 0 && x <= ticks[UpperBound(ticks, t) - 1]
  {
    var k :| 0 <= k < |ticks| && ticks[k] == x;
  }

  /** A start tick from which the window sees what lies ahead: at most one step before its near end. */
  predicate SeesAhead(s: Snapshot, isBuy: bool, startTick: int) {
    if isBuy then startTick >= s.minTick - 1 else startTick <= s.maxTick
  }

  lemma PinOfWord(st: Storage, isBuy: bool, startTick: int, found: int)
    requires IsTick(startTick)
    requires C.AheadInWord(isBuy, startTick, found) && Active(st, found)
    requires forall t | C.AheadInWord(isBuy, startTick, t) && (if isBuy then t < found else t > found) :: !Active(st, t)
    ensures C.PinBitmap(st, isBuy, startTick) == (found, false)
  {
    hide C.PinBitmap, Active, MezzKey;
    C.PinFindsNearest(st, isBuy, startTick);
  }

  /** Pinning through the list gives the chain's answer or raises the flag. */
  lemma PinRefines(s: Snapshot, st: Storage, isBuy: bool, startTick: int)
    requires Loaded(s, st) && IsTick(startTick) && SeesAhead(s, isBuy, startTick)
    ensures var p := SnapPin(s, isBuy, startTick);
            p.exceeded || (p.tick, p.spills) == C.PinBitmap(st, isBuy, startTick)
  {
    hide C.PinBitmap, Active, MezzKey, C.SpillOverPin, UpperBound;
    var p := SnapPin(s, isBuy, startTick);
    forall t | t in s.ticks ensures IsTick(t) { ActiveIsTick(st, t); }
    if !p.spills {
      assert p.tick in s.ticks && C.AheadInWord(isBuy, startTick, p.tick);
      forall t | C.AheadInWord(isBuy, startTick, t) && (if isBuy then t < p.tick else t > p.tick)
        ensures !Active(st, t)
      {
        if Active(st, t) {
          UpperBoundSplits(s.ticks, startTick, t);
        }
      }
      PinOfWord(st, isBuy, startTick, p.tick);
    } else {
      C.PinFindsNearest(st, isBuy, startTick);
      SpillPinShape(isBuy, startTick);
      var (pin, spills) := C.PinBitmap(st, isBuy, startTick);
      if !spills {
        // the chain stops inside the word, so at a tick the window does not hold
        if pin in s.ticks {
          UpperBoundSplits(s.ticks, startTick, pin);
          WordIsConvex(startTick, pin, if isBuy then s.ticks[UpperBound(s.ticks, startTick)]
            else s.ticks[UpperBound(s.ticks, startTick) - 1], isBuy);
        }
        BorderIsFarEnd(isBuy, startTick, pin);
      }
    }
  }

  lemma ActiveIsTick(st: Storage, t: int)
    requires Active(st, t)
    ensures IsTick(t)
  {
  }

  lemma WordIsConvex(a: int, far: int, x: int, isBuy: bool)
    requires IsTick(a) && IsTick(far) && MezzKey(a) == MezzKey(far) && IsTick(x)
    requires if isBuy then a <= x <= far else far <= x <= a
    ensures MezzKey(x) == MezzKey(a)
  {
    hide MezzKey, TermBit;
    C.TickWord(a);
    C.TickWord(far);
    C.TickWord(x);
    BetweenInWord(MezzKey(a), TermBit(a), TermBit(far), MezzKey(x), TermBit(x));
  }

  lemma BetweenInWord(m: int, b: int, c: int, n: int, d: int)
    requires 0 <= b < 256 && 0 <= c < 256 && 0 <= d < 256
    requires var x := WeldMezzTerm(n, d);
             WeldMezzTerm(m, b) <= x <= WeldMezzTerm(m, c) || WeldMezzTerm(m, c) <= x <= WeldMezzTerm(m, b)
    ensures n == m
  {
  }

  lemma BorderIsFarEnd(isBuy: bool, startTick: int, t: int)
    requires IsTick(startTick) && C.AheadInWord(isBuy, startTick, t)
    ensures var pin := C.SpillOverPin(isBuy, MezzKey(startTick)); if isBuy then t <= pin else pin <= t
  {
    C.TickWord(startTick);
    C.TickWord(t);
  }

  /** Seeking through the list from a border the window sees past gives the chain's answer or raises the flag. */
  lemma SeekRefines(s: Snapshot, st: Storage, borderTick: int, isBuy: bool)
    requires Loaded(s, st) && IsBorder(borderTick) && SeesAhead(s, isBuy, BeforeBorder(borderTick))
    ensures var f := SnapSeek(s, borderTick, isBuy);
            f.exceeded || f.tick == C.Seek(st, borderTick, isBuy)
  {
    hide Active, UpperBound, C.Seek, ScanUp, ScanDown;
    var f := SnapSeek(s, borderTick, isBuy);
    if !f.exceeded {
      ActiveIsTick(st, f.tick);
      C.SeekFromBorder(st, borderTick, isBuy);
      forall t | Passed(isBuy, BeforeBorder(borderTick), f.tick, t)
        ensures !Active(st, t)
      {
        if Active(st, t) {
          UpperBoundSplits(s.ticks, borderTick - 1, t);
        }
      }
      ScanStopsAt(st, borderTick, f.tick, isBuy);
    }
  }

  /** Past the end of the window on the side the swap moves to. */
  predicate BeyondEnd(s: Snapshot, isBuy: bool, t: int) {
    if isBuy then t > s.maxTick else t < s.minTick
  }

  ghost predicate NothingBeyond(s: Snapshot, st: Storage, isBuy: bool) {
    forall t | BeyondEnd(s, isBuy, t) :: !Active(st, t)
  }

  /** With nothing beyond the window's end, pinning through the list gives the chain's answer, flagged or not. */
  lemma PinSame(s: Snapshot, st: Storage, isBuy: bool, startTick: int)
    requires Loaded(s, st) && IsTick(startTick) && SeesAhead(s, isBuy, startTick) && NothingBeyond(s, st, isBuy)
    ensures var p := SnapPin(s, isBuy, startTick); (p.tick, p.spills) == C.PinBitmap(st, isBuy, startTick)
  {
    hide C.PinBitmap, Active, MezzKey, C.SpillOverPin, UpperBound;
    PinRefines(s, st, isBuy, startTick);
    var (pin, spills) := C.PinBitmap(st, isBuy, startTick);
    if SnapPin(s, isBuy, startTick).spills {
      C.PinFindsNearest(st, isBuy, startTick);
      if !spills {
        assert pin in s.ticks;
        forall t | t in s.ticks ensures IsTick(t) { ActiveIsTick(st, t); }
        SpillMeansWordEmpty(s, isBuy, startTick, pin);
      }
    }
  }

  /** The same for seeking. */
  lemma SeekSame(s: Snapshot, st: Storage, borderTick: int, isBuy: bool)
    requires Loaded(s, st) && IsBorder(borderTick) && SeesAhead(s, isBuy, BeforeBorder(borderTick))
    requires NothingBeyond(s, st, isBuy)
    ensures SnapSeek(s, borderTick, isBuy).tick == C.Seek(st, borderTick, isBuy)
  {
    hide Active, UpperBound, C.Seek, ScanUp, ScanDown;
    SeekRefines(s, st, borderTick, isBuy);
    if SnapSeek(s, borderTick, isBuy).exceeded {
      C.SeekFromBorder(st, borderTick, isBuy);
      var found := if isBuy then ScanUp(st, borderTick) else ScanDown(st, borderTick - 1);
      if isBuy {
        ScanUpMeaning(st, borderTick);
      } else {
        ScanDownMeaning(st, borderTick - 1);
      }
      if found in s.ticks {
        UpperBoundSplits(s.ticks, borderTick - 1, found);
      }
    }
  }

  lemma ScanStopsAt(st: Storage, borderTick: int, found: int, isBuy: bool)
    requires IsBorder(borderTick) && Active(st, found) && Ahead(isBuy, BeforeBorder(borderTick), found)
    requires forall t | Passed(isBuy, BeforeBorder(borderTick), found, t) :: !Active(st, t)
    ensures found == if isBuy then ScanUp(st, borderTick) else ScanDown(st, borderTick - 1)
  {
    if isBuy {
      ScanUpSkips(st, borderTick, found);
    } else {
      ScanDownSkips(st, borderTick - 1, found);
    }
  }

  // ----- the list as a view in its own right

  function TickSet(s: Snapshot): set<int> {
    set t | t in s.ticks
  }

  /** When the list reports a spill, none of its ticks lies ahead in the start tick's word. */
  lemma SpillMeansWordEmpty(s: Snapshot, isBuy: bool, startTick: int, t: int)
    requires Increasing(s.ticks) && IsTick(startTick) && (forall x | x in s.ticks :: IsTick(x))
    requires SnapPin(s, isBuy, startTick).spills && t in s.ticks
    ensures !C.AheadInWord(isBuy, startTick, t)
  {
    hide MezzKey, C.SpillOverPin, UpperBound;
    if C.AheadInWord(isBuy, startTick, t) {
      UpperBoundSplits(s.ticks, startTick, t);
      var i := UpperBound(s.ticks, startTick);
      WordIsConvex(startTick, t, if isBuy then s.ticks[i] else s.ticks[i - 1], isBuy);
    }
  }

  lemma SnapPinWalks(s: Snapshot, isBuy: bool, mid: int)
    requires Increasing(s.ticks) && IsTick(mid) && (forall x | x in s.ticks :: IsTick(x))
    ensures PinWalks(SnapPin(s, isBuy, mid), TickSet(s), isBuy, mid)
  {
    hide MezzKey, C.SpillOverPin, UpperBound;
    SpillPinShape(isBuy, mid);
    var p := SnapPin(s, isBuy, mid);
    forall t | t in s.ticks
      ensures !Passed(isBuy, mid, p.tick, t)
      ensures p.spills ==> !C.AheadInWord(isBuy, mid, t)
    {
      if p.spills {
        SpillMeansWordEmpty(s, isBuy, mid, t);
      } else {
        UpperBoundSplits(s.ticks, mid, t);
      }
    }
  }

  lemma SnapSeekWalks(s: Snapshot, isBuy: bool, border: int)
    requires Increasing(s.ticks) && (forall x | x in s.ticks :: IsTick(x)) && IsBorder(border)
    ensures SeekWalks(SnapSeek(s, border, isBuy), TickSet(s), isBuy, border)
  {
    hide UpperBound;
    forall t | t in s.ticks
      ensures !Passed(isBuy, BeforeBorder(border), SnapSeek(s, border, isBuy).tick, t)
    {
      UpperBoundSplits(s.ticks, border - 1, t);
    }
  }

  /** Whatever window it was loaded from, the list view visits exactly the ticks of its list. */
  lemma SnapshotWalks(s: Snapshot)
    requires Increasing(s.ticks) && (forall x | x in s.ticks :: IsTick(x))
    ensures Walks(SnapshotView(s), TickSet(s))
  {
    hide SnapPin, SnapSeek, PinWalks, SeekWalks;
    var v := SnapshotView(s);
    forall isBuy, mid | IsTick(mid)
      ensures PinWalks(v.pin(isBuy, mid), TickSet(s), isBuy, mid)
    {
      SnapPinWalks(s, isBuy, mid);
    }
    forall isBuy, border | IsBorder(border)
      ensures SeekWalks(v.seek(border, isBuy), TickSet(s), isBuy, border)
    {
      SnapSeekWalks(s, isBuy, border);
    }
  }
}
