/** The on-chain bitmap view: next-tick queries answered by truncating terminus and mezzanine words
and walking the lobby, proved to be the linear scan over every tick. */
module AmbientChainView {
  import opened Bits
  import opened AmbientTicks

  datatype Option<+T> = None | Some(value: T)

  function SpillOverPin(isBuy: bool, tickMezz: int): int {
    if isBuy then
      if tickMezz == 0x7FFF then ZeroTick(true) else WeldMezzTerm(tickMezz + 1, 0)
    else WeldMezzTerm(tickMezz, 0)
  }

  predicate DoesSpillBit(isBuy: bool, spillTrunc: bool, termBitmap: nat) {
    if isBuy then spillTrunc
    else !Bit(termBitmap, 0) && spillTrunc
  }

  /** The pin tick for a swap at `startTick`, and whether the search left the terminus word. */
  function PinBitmap(st: Storage, isBuy: bool, startTick: int): (int, bool) {
    var termBitmap := Slot(st.terminus, MezzKey(startTick));
    var (nextTerm, spillTrunc) := BitAfterTrunc(termBitmap, TermBump(startTick, isBuy), isBuy);
    var tickMezz := MezzKey(startTick);
    if DoesSpillBit(isBuy, spillTrunc, termBitmap) then (SpillOverPin(isBuy, tickMezz), true)
    else (WeldMezzTerm(tickMezz, nextTerm), false)
  }

  // ----- ticks of one terminus word

  lemma WordTick(m: int, b: int)
    requires -0x8000 <= m < 0x8000 && 0 <= b < 256
    ensures var t := WeldMezzTerm(m, b);
            IsTick(t) && MezzKey(t) == m && TermBit(t) == b
  {
  }

  lemma TickWord(t: int)
    requires IsTick(t)
    ensures -0x8000 <= MezzKey(t) < 0x8000 && 0 <= TermBit(t) < 256
    ensures t == WeldMezzTerm(MezzKey(t), TermBit(t))
  {
  }

  /** The ticks strictly ahead of `startTick` in the search direction, up to the border of its word. */
  predicate AheadInWord(isBuy: bool, startTick: int, t: int) {
    MezzKey(t) == MezzKey(startTick) && IsTick(t) && if isBuy then t > startTick else t <= startTick
  }

  /** The nearest active tick ahead in the start tick's own word; or, when there is none, a spill to the
      border of the word. */
  ghost predicate IsNearestInWord(st: Storage, isBuy: bool, startTick: int, pin: int, spills: bool) {
    if spills then
      && pin == SpillOverPin(isBuy, MezzKey(startTick))
      && forall t | AheadInWord(isBuy, startTick, t) :: !Active(st, t)
    else
      && AheadInWord(isBuy, startTick, pin) && Active(st, pin)
      && forall t | AheadInWord(isBuy, startTick, t) && (if isBuy then t < pin else t > pin) :: !Active(st, t)
  }

  /** Pinning finds the nearest active tick ahead in the start tick's own word; it spills exactly when
      there is none, and then returns the border of the word. */
  lemma PinFindsNearest(st: Storage, isBuy: bool, startTick: int)
    requires IsTick(startTick)
    ensures var (pin, spills) := PinBitmap(st, isBuy, startTick); IsNearestInWord(st, isBuy, startTick, pin, spills)
  {
    TickWord(startTick);
    var m := MezzKey(startTick);
    var w := Slot(st.terminus, m);
    forall t | AheadInWord(isBuy, startTick, t)
      ensures t == WeldMezzTerm(m, TermBit(t)) && 0 <= TermBit(t) < 256
    {
      TickWord(t);
    }
    if isBuy {
      FirstBitAtOrAbove(w, TermBump(startTick, true));
      var (b, spills) := BitAfterTrunc(w, TermBump(startTick, true), true);
      if !spills {
        WordTick(m, b);
      }
    } else {
      LastBitBelow(w, TermBump(startTick, false));
      var (b, spills) := BitAfterTrunc(w, TermBump(startTick, false), false);
      if !spills {
        WordTick(m, b);
      }
    }
  }

  // ----- seeking past the word

  function SeekAtTerm(st: Storage, lobbyBit: int, mezzBit: int, isBuy: bool): Option<int> {
    var lobbyIdx := UncastBitmapIndex(lobbyBit);
    var probeTick := WeldLobbyMezz(lobbyIdx, mezzBit) * 0x100;
    var (termBit, spills) := BitAfterTrunc(Slot(st.terminus, MezzKey(probeTick)), 0, isBuy);
    if spills then None else Some(WeldLobbyMezzTerm(lobbyIdx, mezzBit, termBit))
  }

  function SeekAtMezz(st: Storage, lobbyBit: int, mezzBorder: int, isBuy: bool): Option<int>
    requires 0 <= mezzBorder < 256
  {
    var probeTick := UncastBitmapIndex(lobbyBit) * 0x1_0000;
    var mezzBitmap := Slot(st.mezzanine, LobbyKey(probeTick));
    var (mezzBit, spills) := BitAfterTrunc(mezzBitmap, BitRelate(mezzBorder, isBuy), isBuy);
    if spills then None else SeekAtTerm(st, lobbyBit, mezzBit, isBuy)
  }

  /** `r` is the active tick of `[lo, hi]` nearest to the side the search comes from, if there is one. */
  ghost predicate NearestIn(st: Storage, lo: int, hi: int, isBuy: bool, r: Option<int>) {
    match r
    case None => forall t | lo <= t <= hi :: !Active(st, t)
    case Some(pin) =>
      && lo <= pin <= hi && Active(st, pin)
      && forall t | lo <= t <= hi && (if isBuy then t < pin else t > pin) :: !Active(st, t)
  }

  lemma UncastRange(lobbyBit: int)
    requires 0 <= lobbyBit < 256
    ensures -128 <= UncastBitmapIndex(lobbyBit) < 128
  {
  }

  /** Inside word `m`, a tick is active exactly when its bit is set. */
  lemma ActiveInWord(st: Storage, m: int, b: nat)
    requires -0x8000 <= m < 0x8000 && b < 256
    ensures Active(st, m * 0x100 + b) <==> Bit(Slot(st.terminus, m), b)
  {
    hide Bit, MezzKey, TermBit;
    WordTick(m, b);
  }

  lemma SeekAtTermNearest(st: Storage, lobbyBit: int, mezzBit: int, isBuy: bool)
    requires 0 <= lobbyBit < 256 && 0 <= mezzBit < 256
    ensures var m := WeldLobbyMezz(UncastBitmapIndex(lobbyBit), mezzBit);
            NearestIn(st, m * 0x100, m * 0x100 + 0xFF, isBuy, SeekAtTerm(st, lobbyBit, mezzBit, isBuy))
  {
    hide BitAfterTrunc, Bit, MezzKey, TermBit, Active, UncastBitmapIndex;
    UncastRange(lobbyBit);
    var m := WeldLobbyMezz(UncastBitmapIndex(lobbyBit), mezzBit);
    var w := Slot(st.terminus, m);
    WordTick(m, 0);
    if isBuy {
      FirstBitAtOrAbove(w, 0);
    } else {
      LastBitBelow(w, 0);
    }
    var (b, spills) := BitAfterTrunc(w, 0, isBuy);
    assert SeekAtTerm(st, lobbyBit, mezzBit, isBuy) == if spills then None else Some(m * 0x100 + b);
    forall t | m * 0x100 <= t <= m * 0x100 + 0xFF
      ensures Active(st, t) <==> Bit(w, t - m * 0x100)
    {
      ActiveInWord(st, m, t - m * 0x100);
    }
  }

  lemma EmptyTermHasNoTicks(st: Storage, m: int, t: int)
    requires -0x8000 <= m < 0x8000 && Slot(st.terminus, m) == 0
    requires m * 0x100 <= t <= m * 0x100 + 0xFF
    ensures !Active(st, t)
  {
    hide Bit, Active;
    ActiveInWord(st, m, t - m * 0x100);
    BitZero(t - m * 0x100);
  }

  lemma NonZeroTermHasTick(st: Storage, lobbyBit: int, mezzBit: int, isBuy: bool)
    requires SlotsFit(st) && 0 <= lobbyBit < 256 && 0 <= mezzBit < 256
    requires Slot(st.terminus, WeldLobbyMezz(UncastBitmapIndex(lobbyBit), mezzBit)) != 0
    ensures SeekAtTerm(st, lobbyBit, mezzBit, isBuy).Some?
  {
    var m := WeldLobbyMezz(UncastBitmapIndex(lobbyBit), mezzBit);
    var w := Slot(st.terminus, m);
    SeekAtTermNearest(st, lobbyBit, mezzBit, isBuy);
    ZeroIffNoBits(w, WORD_BITS);
    var i: nat :| i < WORD_BITS && Bit(w, i);
    WordTick(m, i);
    assert Active(st, WeldMezzTerm(m, i));
  }

  /** The lobby's ticks from the border word on, in the search direction. */
  function LobbyFrom(lobbyBit: int, mezzBorder: int, isBuy: bool): (int, int) {
    var base := UncastBitmapIndex(lobbyBit) * 0x1_0000;
    if isBuy then (base + mezzBorder * 0x100, base + 0xFFFF)
    else (base, base + mezzBorder * 0x100 + 0xFF)
  }

  lemma LobbyOfBase(lobby: int)
    requires -128 <= lobby < 128
    ensures LobbyKey(lobby * 0x1_0000) == lobby
  {
  }

  lemma SeekAtMezzNearest(st: Storage, lobbyBit: int, mezzBorder: int, isBuy: bool)
    requires Consistent(st) && 0 <= lobbyBit < 256 && 0 <= mezzBorder < 256
    ensures var (lo, hi) := LobbyFrom(lobbyBit, mezzBorder, isBuy);
            NearestIn(st, lo, hi, isBuy, SeekAtMezz(st, lobbyBit, mezzBorder, isBuy))
  {
    hide BitAfterTrunc, SeekAtTerm, Active, Bit, UncastBitmapIndex, LobbyKey;
    UncastRange(lobbyBit);
    var lobby := UncastBitmapIndex(lobbyBit);
    LobbyOfBase(lobby);
    var (lo, hi) := LobbyFrom(lobbyBit, mezzBorder, isBuy);
    var w := Slot(st.mezzanine, lobby);
    if isBuy {
      FirstBitAtOrAbove(w, mezzBorder);
    } else {
      LastBitBelow(w, 255 - mezzBorder);
    }
    var (found, spills) := BitAfterTrunc(w, BitRelate(mezzBorder, isBuy), isBuy);
    // a word ahead whose mezzanine bit is clear holds no active tick
    forall t | lo <= t <= hi && !Bit(w, (t - lobby * 0x1_0000) / 0x100)
      ensures !Active(st, t)
    {
      var b := (t - lobby * 0x1_0000) / 0x100;
      EmptyTermHasNoTicks(st, WeldLobbyMezz(lobby, b), t);
    }
    if !spills {
      assert Bit(w, found);
      NonZeroTermHasTick(st, lobbyBit, found, isBuy);
      SeekAtTermNearest(st, lobbyBit, found, isBuy);
    }
  }

  function RootsForBorder(borderTick: int, isBuy: bool): (int, int) {
    var pinTick := if isBuy then borderTick else borderTick - 1;
    (LobbyBit(pinTick), MezzBit(pinTick))
  }

  /** What a seek answers, by looking at every tick: it starts from the edge of the word that holds the
      border (the tick below the border for a sell), in 24-bit arithmetic. */
  function Seek(st: Storage, borderTick: int, isBuy: bool): int {
    var pinTick := if isBuy then borderTick else borderTick - 1;
    if isBuy then ScanUp(st, MezzKey(pinTick) * 0x100) else ScanDown(st, MezzKey(pinTick) * 0x100 + 0xFF)
  }

  function ScanFrom(st: Storage, from: int, isBuy: bool): int {
    if isBuy then ScanUp(st, from) else ScanDown(st, from)
  }

  /** A scan that enters a range of ticks stops at the range's nearest active tick or leaves on the far side. */
  lemma ScanThrough(st: Storage, lo: int, hi: int, isBuy: bool, r: Option<int>)
    requires TICK_LOWER <= lo <= hi <= TICK_UPPER && NearestIn(st, lo, hi, isBuy, r)
    ensures r.Some? ==> ScanFrom(st, if isBuy then lo else hi, isBuy) == r.value
    ensures r.None? ==>
              ScanFrom(st, if isBuy then lo else hi, isBuy) == ScanFrom(st, if isBuy then hi + 1 else lo - 1, isBuy)
  {
    if isBuy {
      ScanUpSkips(st, lo, if r.Some? then r.value else hi + 1);
    } else {
      ScanDownSkips(st, hi, if r.Some? then r.value else lo - 1);
    }
  }

  /** The tick at which a search enters the lobby word with index `lobbyBit`. */
  function LobbyEntry(lobbyBit: int, isBuy: bool): int {
    if isBuy then UncastBitmapIndex(lobbyBit) * 0x1_0000 else UncastBitmapIndex(lobbyBit) * 0x1_0000 + 0xFFFF
  }

  lemma SeekAtMezzScans(st: Storage, lobbyBit: int, mezzBorder: int, isBuy: bool)
    requires Consistent(st) && 0 <= lobbyBit < 256 && 0 <= mezzBorder < 256
    ensures var (lo, hi) := LobbyFrom(lobbyBit, mezzBorder, isBuy);
            var scan := ScanFrom(st, if isBuy then lo else hi, isBuy);
            match SeekAtMezz(st, lobbyBit, mezzBorder, isBuy)
            case Some(pin) => scan == pin
            case None => scan == ScanFrom(st, LobbyEntry(if isBuy then lobbyBit + 1 else lobbyBit - 1, isBuy), isBuy)
  {
    hide SeekAtMezz, ScanUp, ScanDown, Consistent;
    var (lo, hi) := LobbyFrom(lobbyBit, mezzBorder, isBuy);
    SeekAtMezzNearest(st, lobbyBit, mezzBorder, isBuy);
    ScanThrough(st, lo, hi, isBuy, SeekAtMezz(st, lobbyBit, mezzBorder, isBuy));
  }

  /** Searching a whole lobby: the scan that enters it stops at the answer or enters the next lobby. */
  lemma WholeLobbyScans(st: Storage, lobbyBit: int, isBuy: bool)
    requires Consistent(st) && 0 <= lobbyBit < 256
    ensures var scan := ScanFrom(st, LobbyEntry(lobbyBit, isBuy), isBuy);
            match SeekAtMezz(st, lobbyBit, if isBuy then 0 else 255, isBuy)
            case Some(pin) => scan == pin
            case None => scan == ScanFrom(st, LobbyEntry(if isBuy then lobbyBit + 1 else lobbyBit - 1, isBuy), isBuy)
  {
    hide SeekAtMezz, Consistent, ScanFrom;
    SeekAtMezzScans(st, lobbyBit, if isBuy then 0 else 255, isBuy);
  }

  lemma ScanPastTheEnd(st: Storage)
    ensures ScanFrom(st, LobbyEntry(256, true), true) == ZeroTick(true)
    ensures ScanFrom(st, LobbyEntry(-1, false), false) == ZeroTick(false)
  {
  }

  /** The first answer among the lobbies from `lobbyBit` on. */
  function LobbyWalk(st: Storage, lobbyBit: int, isBuy: bool): int
    decreases if isBuy then 256 - lobbyBit else lobbyBit + 1
  {
    if lobbyBit < 0 || lobbyBit >= 256 then ZeroTick(isBuy)
    else
      match SeekAtMezz(st, lobbyBit, if isBuy then 0 else 255, isBuy)
      case Some(pin) => pin
      case None => LobbyWalk(st, if isBuy then lobbyBit + 1 else lobbyBit - 1, isBuy)
  }

  lemma {:induction false} LobbyWalkScans(st: Storage, lobbyBit: int, isBuy: bool)
    requires Consistent(st) && (if isBuy then 0 <= lobbyBit <= 256 else -1 <= lobbyBit < 256)
    ensures LobbyWalk(st, lobbyBit, isBuy) == ScanFrom(st, LobbyEntry(lobbyBit, isBuy), isBuy)
    decreases if isBuy then 256 - lobbyBit else lobbyBit + 1
  {
    hide SeekAtMezz, Consistent, ScanFrom, LobbyEntry;
    ScanPastTheEnd(st);
    if 0 <= lobbyBit < 256 {
      WholeLobbyScans(st, lobbyBit, isBuy);
      LobbyWalkScans(st, if isBuy then lobbyBit + 1 else lobbyBit - 1, isBuy);
    }
  }

  method SeekOverLobby(st: Storage, lobbyBit: int, isBuy: bool) returns (r: int)
    requires 0 <= lobbyBit < 256
    ensures r == LobbyWalk(st, if isBuy then lobbyBit + 1 else lobbyBit - 1, isBuy)
    ensures Consistent(st) ==> r == ScanFrom(st, LobbyEntry(if isBuy then lobbyBit + 1 else lobbyBit - 1, isBuy), isBuy)
  {
    hide SeekAtMezz, Consistent, ScanFrom, LobbyEntry;
    if Consistent(st) {
      LobbyWalkScans(st, if isBuy then lobbyBit + 1 else lobbyBit - 1, isBuy);
    }
    if isBuy {
      var i := lobbyBit + 1;
      while i < 256
        invariant lobbyBit < i <= 256
        invariant LobbyWalk(st, lobbyBit + 1, true) == LobbyWalk(st, i, true)
      {
        var pin := SeekAtMezz(st, i, 0, true);
        if pin.Some? {
          return pin.value;
        }
        i := i + 1;
      }
      return ZeroTick(true);
    }
    var i := lobbyBit - 1;
    while i >= 0
      invariant -1 <= i < lobbyBit
      invariant LobbyWalk(st, lobbyBit - 1, false) == LobbyWalk(st, i, false)
    {
      var pin := SeekAtMezz(st, i, 255, false);
      if pin.Some? {
        return pin.value;
      }
      i := i - 1;
    }
    return ZeroTick(false);
  }

  /** The edge of the border word at which a seek enters it. */
  function SeekEntry(lobbyBit: int, mezzBit: int, isBuy: bool): int {
    WeldLobbyMezz(UncastBitmapIndex(lobbyBit), mezzBit) * 0x100 + if isBuy then 0 else 0xFF
  }

  lemma SeekStages(st: Storage, lobbyBit: int, mezzBit: int, isBuy: bool)
    requires Consistent(st) && 0 <= lobbyBit < 256 && 0 <= mezzBit < 256
    ensures var scan := ScanFrom(st, SeekEntry(lobbyBit, mezzBit, isBuy), isBuy);
            match SeekAtTerm(st, lobbyBit, mezzBit, isBuy)
            case Some(pin) => scan == pin
            case None =>
              match SeekAtMezz(st, lobbyBit, mezzBit, isBuy)
              case Some(pin) => scan == pin
              case None => scan == ScanFrom(st, LobbyEntry(if isBuy then lobbyBit + 1 else lobbyBit - 1, isBuy), isBuy)
  {
    hide SeekAtMezz, SeekAtTerm, ScanUp, ScanDown, Consistent;
    var m := WeldLobbyMezz(UncastBitmapIndex(lobbyBit), mezzBit);
    SeekAtTermNearest(st, lobbyBit, mezzBit, isBuy);
    ScanThrough(st, m * 0x100, m * 0x100 + 0xFF, isBuy, SeekAtTerm(st, lobbyBit, mezzBit, isBuy));
    SeekAtMezzScans(st, lobbyBit, mezzBit, isBuy);
  }

  /** The walk from a border: its own word, the rest of its lobby, then the lobbies beyond. */
  function SeekWalk(st: Storage, borderTick: int, isBuy: bool): int {
    RootsSplit(if isBuy then borderTick else borderTick - 1);
    var (lobbyBorder, mezzBorder) := RootsForBorder(borderTick, isBuy);
    match SeekAtTerm(st, lobbyBorder, mezzBorder, isBuy)
    case Some(pin) => pin
    case None =>
      match SeekAtMezz(st, lobbyBorder, mezzBorder, isBuy)
      case Some(pin) => pin
      case None => LobbyWalk(st, if isBuy then lobbyBorder + 1 else lobbyBorder - 1, isBuy)
  }

  /** On consistent storage the three-level walk answers what the linear scan answers, for every border. */
  lemma WalkIsScan(st: Storage, borderTick: int, isBuy: bool)
    requires Consistent(st)
    ensures SeekWalk(st, borderTick, isBuy) == Seek(st, borderTick, isBuy)
  {
    var (lobbyBorder, mezzBorder) := RootsForBorder(borderTick, isBuy);
    hide SeekAtMezz, SeekAtTerm, ScanUp, ScanDown, Consistent, LobbyWalk;
    SeekEntersAtRoots(st, borderTick, isBuy);
    SeekStages(st, lobbyBorder, mezzBorder, isBuy);
    LobbyWalkScans(st, if isBuy then lobbyBorder + 1 else lobbyBorder - 1, isBuy);
  }

  method SeekMezzSpill(st: Storage, borderTick: int, isBuy: bool) returns (r: int)
    ensures r == SeekWalk(st, borderTick, isBuy)
    ensures Consistent(st) ==> r == Seek(st, borderTick, isBuy)
  {
    hide SeekAtMezz, SeekAtTerm, Consistent, LobbyWalk, Seek;
    RootsSplit(if isBuy then borderTick else borderTick - 1);
    if Consistent(st) {
      WalkIsScan(st, borderTick, isBuy);
    }
    var (lobbyBorder, mezzBorder) := RootsForBorder(borderTick, isBuy);
    var pin := SeekAtTerm(st, lobbyBorder, mezzBorder, isBuy);
    if pin.Some? {
      return pin.value;
    }
    pin := SeekAtMezz(st, lobbyBorder, mezzBorder, isBuy);
    if pin.Some? {
      return pin.value;
    }
    r := SeekOverLobby(st, lobbyBorder, isBuy);
  }

  lemma SeekEntersAtRoots(st: Storage, borderTick: int, isBuy: bool)
    ensures var (lobbyBit, mezzBit) := RootsForBorder(borderTick, isBuy);
            && 0 <= lobbyBit < 256 && 0 <= mezzBit < 256
            && Seek(st, borderTick, isBuy) == ScanFrom(st, SeekEntry(lobbyBit, mezzBit, isBuy), isBuy)
  {
    hide ScanUp, ScanDown, LobbyBit, MezzBit, MezzKey, UncastBitmapIndex;
    RootsSplit(if isBuy then borderTick else borderTick - 1);
  }

  lemma RootsSplit(t: int)
    ensures 0 <= LobbyBit(t) < 256 && 0 <= MezzBit(t) < 256
    ensures WeldLobbyMezz(UncastBitmapIndex(LobbyBit(t)), MezzBit(t)) == MezzKey(t)
  {
    var h := t / 0x100;
    var k := h / 0x1_0000;
    assert t / 0x1_0000 == h / 0x100;
    assert Int16(h) == h - 0x1_0000 * ((h + 0x8000) / 0x1_0000);
    assert Int8(h / 0x100) == h / 0x100 - 0x100 * ((h / 0x100 + 0x80) / 0x100);
    assert (h + 0x8000) / 0x1_0000 == (h / 0x100 + 0x80) / 0x100;
  }

  /** On a border the swap loop can reach, a seek is the scan from the border itself. */
  lemma SeekFromBorder(st: Storage, borderTick: int, isBuy: bool)
    requires TICK_LOWER < borderTick <= TICK_UPPER && borderTick % 0x100 == 0
    ensures Seek(st, borderTick, isBuy) == if isBuy then ScanUp(st, borderTick) else ScanDown(st, borderTick - 1)
  {
    hide ScanUp, ScanDown;
  }

  /** The ticks of the border's own word on the side the swap has already passed. */
  predicate BehindBorder(borderTick: int, isBuy: bool, t: int) {
    if isBuy then MezzKey(borderTick) * 0x100 <= t < borderTick
    else borderTick <= t <= MezzKey(borderTick - 1) * 0x100 + 0xFF
  }

  /** For a border inside the tick range, a seek is the scan from the border exactly when no active tick lies
      behind the border in its word; in particular always when the border is 256-aligned. */
  lemma SeekMeetsBorderIff(st: Storage, borderTick: int, isBuy: bool)
    requires TICK_LOWER < borderTick <= TICK_UPPER
    ensures Seek(st, borderTick, isBuy) == (if isBuy then ScanUp(st, borderTick) else ScanDown(st, borderTick - 1))
            <==> forall t | BehindBorder(borderTick, isBuy, t) :: !Active(st, t)
    ensures borderTick % 0x100 == 0 ==> forall t :: !BehindBorder(borderTick, isBuy, t)
  {
    hide Active;
    var edge := if isBuy then MezzKey(borderTick) * 0x100 else MezzKey(borderTick - 1) * 0x100 + 0xFF;
    TickWord(if isBuy then borderTick else borderTick - 1);
    if isBuy {
      ScanUpMeaning(st, edge);
      ScanUpMeaning(st, borderTick);
      if forall t | BehindBorder(borderTick, isBuy, t) :: !Active(st, t) {
        ScanUpSkips(st, edge, borderTick);
      }
    } else {
      ScanDownMeaning(st, edge);
      ScanDownMeaning(st, borderTick - 1);
      if forall t | BehindBorder(borderTick, isBuy, t) :: !Active(st, t) {
        ScanDownSkips(st, edge, borderTick - 1);
      }
    }
  }

  /** At the lower infinite tick the 24-bit split wraps: a sell seeks from the top of the tick range. It still
      answers the infinite tick, as the scan from that border does, exactly when no tick above it is active. */
  lemma SeekWrapsAtLowerInfinity(st: Storage)
    ensures Seek(st, TICK_LOWER, false) == ScanDown(st, TICK_UPPER)
    ensures Seek(st, TICK_LOWER, false) == ScanDown(st, TICK_LOWER - 1) <==> forall t | TICK_LOWER < t :: !Active(st, t)
  {
    hide Active;
    assert MezzKey(TICK_LOWER - 1) == 0x7FFF;
    ScanDownMeaning(st, TICK_UPPER);
    NoneAbove(st, TICK_UPPER + 1);
    NoneBelow(st, TICK_LOWER - 1);
    assert ScanDown(st, TICK_LOWER - 1) == TICK_LOWER;
  }
}
