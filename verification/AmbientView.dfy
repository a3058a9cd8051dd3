/** The read surface of the swap loop: the next tick to stop at, the next active tick beyond a word
border, and the book level of a tick. `exceeded` is the view's own boundary flag, reported per query. */
module AmbientView {
  import opened AmbientTicks

  datatype Level = Level(bidLots: nat, askLots: nat)
  datatype Pin = Pin(tick: int, spills: bool, exceeded: bool)
  datatype Found = Found(tick: int, exceeded: bool)

  datatype BitmapView = BitmapView(
    pin: (bool, int) -> Pin,
    seek: (int, bool) -> Found,
    level: int -> Level)

  /** A word border that a pin can spill to and from which a seek makes sense. */
  predicate IsBorder(t: int) {
    TICK_LOWER < t <= TICK_UPPER && t % 0x100 == 0
  }

  /** Ticks a swap at `mid` passes before it reaches `stop`. */
  predicate Passed(isBuy: bool, mid: int, stop: int, t: int) {
    if isBuy then mid < t < stop else stop < t <= mid
  }

  predicate Ahead(isBuy: bool, mid: int, t: int) {
    if isBuy then mid < t else t <= mid
  }

  /** A pin never passes an active tick. It stops at an active tick ahead, or it spills to a border ahead
      (a sell's border being itself inactive) or to the infinite tick. */
  ghost predicate PinWalks(p: Pin, active: set<int>, isBuy: bool, mid: int) {
    && (forall t | t in active :: !Passed(isBuy, mid, p.tick, t))
    && (if p.spills
        then
          && (p.tick == ZeroTick(isBuy) || (IsBorder(p.tick) && Ahead(isBuy, mid, p.tick)))
          && (!isBuy ==> p.tick !in active)
        else p.tick in active && Ahead(isBuy, mid, p.tick))
  }

  /** The last tick before the border, from the side the swap comes from. */
  function BeforeBorder(border: int): int {
    border - 1
  }

  /** A seek from a border never passes an active tick; it stops at one, or at the infinite tick. */
  ghost predicate SeekWalks(f: Found, active: set<int>, isBuy: bool, border: int) {
    && (forall t | t in active :: !Passed(isBuy, BeforeBorder(border), f.tick, t))
    && (f.tick in active ==> IsTick(f.tick))
    && ((f.tick in active && Ahead(isBuy, BeforeBorder(border), f.tick)) || f.tick == ZeroTick(isBuy))
  }

  /** The view walks exactly the given active ticks, in order, in both directions. */
  ghost predicate Walks(v: BitmapView, active: set<int>) {
    && (forall t | t in active :: IsTick(t))
    && (forall isBuy, mid | IsTick(mid) :: PinWalks(v.pin(isBuy, mid), active, isBuy, mid))
    && (forall isBuy, border | IsBorder(border) :: SeekWalks(v.seek(border, isBuy), active, isBuy, border))
  }
}

/** The chain view walks the active ticks of storage. */
module AmbientChainWalk {
  import opened AmbientTicks
  import opened AmbientView
  import C = AmbientChainView

  function Lots(word: nat): Level {
    Level(word % 0x1_0000_0000_0000_0000_0000_0000,
      word / 0x1_0000_0000_0000_0000_0000_0000 % 0x1_0000_0000_0000_0000_0000_0000)
  }

  function ChainView(st: Storage): BitmapView {
    BitmapView(
      (isBuy, startTick) => var (tick, spills) := C.PinBitmap(st, isBuy, startTick); Pin(tick, spills, false),
      (borderTick, isBuy) => Found(C.SeekWalk(st, borderTick, isBuy), false),
      tick => Lots(Slot(st.levels, tick)))
  }

  lemma SpillPinShape(isBuy: bool, mid: int)
    requires IsTick(mid)
    ensures var pin := C.SpillOverPin(isBuy, MezzKey(mid));
            && IsTick(pin)
            && (pin == ZeroTick(isBuy) || (IsBorder(pin) && Ahead(isBuy, mid, pin)))
            && (forall t | IsTick(t) && Passed(isBuy, mid, pin, t) :: C.AheadInWord(isBuy, mid, t))
            && (!isBuy ==> C.AheadInWord(false, mid, pin))
  {
    hide MezzKey, TermBit;
    C.TickWord(mid);
    var m := MezzKey(mid);
    C.WordTick(m, 0);
    forall t | IsTick(t) && Passed(isBuy, mid, C.SpillOverPin(isBuy, m), t)
      ensures C.AheadInWord(isBuy, mid, t)
    {
      C.TickWord(t);
      SameWord(MezzKey(t), TermBit(t), m, TermBit(mid), isBuy);
    }
  }

  /** Ticks between a tick and the border of its word share its word. */
  lemma SameWord(m: int, b: int, n: int, c: int, isBuy: bool)
    requires 0 <= b < 256 && 0 <= c < 256
    requires var t, mid := WeldMezzTerm(m, b), WeldMezzTerm(n, c);
             if isBuy then mid < t < WeldMezzTerm(n + 1, 0) else WeldMezzTerm(n, 0) < t <= mid
    ensures m == n
  {
  }

  lemma NearestWalks(st: Storage, isBuy: bool, mid: int, p: Pin)
    requires IsTick(mid) && C.IsNearestInWord(st, isBuy, mid, p.tick, p.spills)
    ensures PinWalks(p, ActiveTicks(st), isBuy, mid)
  {
    hide Active, C.SpillOverPin;
    SpillPinShape(isBuy, mid);
    forall t | t in ActiveTicks(st)
      ensures !Passed(isBuy, mid, p.tick, t)
    {
      if !p.spills && Passed(isBuy, mid, p.tick, t) {
        C.TickWord(mid);
        C.TickWord(p.tick);
        C.TickWord(t);
      }
    }
  }

  lemma ChainSeekWalks(st: Storage, isBuy: bool, border: int)
    requires Consistent(st) && IsBorder(border)
    ensures SeekWalks(ChainView(st).seek(border, isBuy), ActiveTicks(st), isBuy, border)
  {
    hide C.Seek, C.SeekWalk, ScanUp, ScanDown, Consistent;
    C.WalkIsScan(st, border, isBuy);
    C.SeekFromBorder(st, border, isBuy);
    if isBuy {
      ScanUpMeaning(st, border);
    } else {
      ScanDownMeaning(st, border - 1);
    }
  }

  /** On consistent storage the three-level bitmap walk visits exactly the active ticks. */
  lemma ChainWalks(st: Storage)
    requires Consistent(st)
    ensures Walks(ChainView(st), ActiveTicks(st))
  {
    hide C.PinBitmap, C.IsNearestInWord, PinWalks, SeekWalks, C.SeekWalk, Consistent;
    var v := ChainView(st);
    forall isBuy, mid | IsTick(mid)
      ensures PinWalks(v.pin(isBuy, mid), ActiveTicks(st), isBuy, mid)
    {
      C.PinFindsNearest(st, isBuy, mid);
      NearestWalks(st, isBuy, mid, v.pin(isBuy, mid));
    }
    forall isBuy, border | IsBorder(border)
      ensures SeekWalks(v.seek(border, isBuy), ActiveTicks(st), isBuy, border)
    {
      ChainSeekWalks(st, isBuy, border);
    }
  }
}
