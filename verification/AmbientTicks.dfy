/** Ambient ticks: the split of a tick into lobby, mezzanine and terminus coordinates, word
truncation, and the linear scans that say what "the next active tick" means.
*/
module AmbientTicks {
  import opened Arith
  import opened Bits

  const TICK_UPPER: int := 0x7F_FFFF
  const TICK_LOWER: int := -0x80_0000

  predicate IsTick(t: int) {
    TICK_LOWER <= t <= TICK_UPPER
  }

  predicate IsTickFinite(t: int) {
    TICK_LOWER < t < TICK_UPPER
  }

  function ZeroTick(isBuy: bool): int {
    if isBuy then TICK_UPPER else TICK_LOWER
  }

  // ----- narrowing conversions and key splitting

  function Int8(x: int): int {
    (x + 0x80) % 0x100 - 0x80
  }

  function Int16(x: int): int {
    (x + 0x8000) % 0x1_0000 - 0x8000
  }

  function LobbyKey(tick: int): int {
    Int8(tick / 0x1_0000)
  }

  function MezzKey(tick: int): int {
    Int16(tick / 0x100)
  }

  function MezzBit(tick: int): nat {
    MezzKey(tick) % 0x100
  }

  function TermBit(tick: int): nat {
    tick % 0x100
  }

  function CastBitmapIndex(x: int): int {
    x + 128
  }

  function UncastBitmapIndex(x: int): int {
    x - 128
  }

  function LobbyBit(tick: int): int {
    CastBitmapIndex(LobbyKey(tick))
  }

  function WeldMezzTerm(mezz: int, term: int): int {
    mezz * 0x100 + term
  }

  function WeldLobbyMezz(lobby: int, mezzBit: int): int {
    lobby * 0x100 + mezzBit
  }

  function WeldLobbyMezzTerm(lobby: int, mezzBit: int, termBit: int): int {
    lobby * 0x1_0000 + mezzBit * 0x100 + termBit
  }

  /** Splitting a tick and welding the parts gives the tick back. */
  lemma WeldUndoesSplit(t: int)
    requires IsTick(t)
    ensures -128 <= LobbyKey(t) < 128 && 0 <= MezzBit(t) < 256 && 0 <= TermBit(t) < 256
    ensures WeldLobbyMezzTerm(LobbyKey(t), MezzBit(t), TermBit(t)) == t
    ensures WeldLobbyMezz(LobbyKey(t), MezzBit(t)) == MezzKey(t)
    ensures WeldMezzTerm(MezzKey(t), TermBit(t)) == t
  {
    assert t / 0x1_0000 == (t / 0x100) / 0x100;
  }

  /** Welding coordinates and splitting the tick gives the coordinates back. */
  lemma SplitUndoesWeld(lobby: int, mezzBit: int, termBit: int)
    requires -128 <= lobby < 128 && 0 <= mezzBit < 256 && 0 <= termBit < 256
    ensures var t := WeldLobbyMezzTerm(lobby, mezzBit, termBit);
            IsTick(t) && LobbyKey(t) == lobby && MezzBit(t) == mezzBit && TermBit(t) == termBit
    ensures var t := WeldLobbyMezzTerm(lobby, mezzBit, termBit);
            MezzKey(t) == WeldLobbyMezz(lobby, mezzBit) && t == WeldMezzTerm(WeldLobbyMezz(lobby, mezzBit), termBit)
  {
    WeldedParts(lobby, mezzBit, termBit);
  }

  lemma WeldedParts(lobby: int, mezzBit: int, termBit: int)
    requires 0 <= mezzBit < 256 && 0 <= termBit < 256
    ensures var t := lobby * 0x1_0000 + mezzBit * 0x100 + termBit;
            t / 0x100 == lobby * 0x100 + mezzBit && t % 0x100 == termBit && t / 0x1_0000 == lobby
    ensures (lobby * 0x100 + mezzBit) % 0x100 == mezzBit
  {
  }

  // ----- truncation of a bitmap word

  const WORD_BITS: nat := 256

  /** Truncation of a word of `width` bits: to the right it clears the low `shift` bits, to the left
      the high ones, by shifting out and back. */
  function Truncated(bitmap: nat, shift: nat, right: bool, width: nat): nat {
    if right
    then Shl(Shr(bitmap, shift), shift) % Pow2(width)
    else Shr(Shl(bitmap, shift) % Pow2(width), shift)
  }

  /** The nearest set bit left by a truncation, and whether there was none. */
  function SearchTruncated(bitmap: nat, shift: nat, right: bool, width: nat): (nat, bool) {
    var bm := Truncated(bitmap, shift, right, width);
    if bm == 0 then (0, true)
    else if right then (TrailingZeros(bm), false)
    else (BitLen(bm) - 1, false)
  }

  function BitAfterTrunc(bitmap: nat, shift: nat, right: bool): (nat, bool) {
    var (bit, spills) := SearchTruncated(bitmap, shift, right, WORD_BITS);
    (bit % 0x100, spills)
  }

  function BitRelate(bit: int, isUpper: bool): int {
    if isUpper then bit else 255 - bit
  }

  function TermBump(tick: int, isUpper: bool): nat {
    BitRelate(TermBit(tick), isUpper) + if isUpper then 1 else 0
  }

  predicate Kept(shift: nat, right: bool, width: nat, i: nat) {
    i < width && if right then i >= shift else i < width - shift
  }

  /** Truncation clears the bits on one side of the shift and keeps all others. */
  lemma TruncatedBits(w: nat, shift: nat, right: bool, width: nat, i: nat)
    requires shift <= width
    ensures Bit(Truncated(w, shift, right, width), i) == (Kept(shift, right, width, i) && Bit(w, i))
  {
    if right {
      var kept := Shr(w, shift);
      BitMod(Shl(kept, shift), width, i);
      BitMul(kept, shift, i);
      if i >= shift {
        BitDiv(w, shift, i - shift);
      }
    } else {
      var up := Shl(w, shift);
      BitDiv(up % Pow2(width), shift, i);
      BitMod(up, width, i + shift);
      BitMul(w, shift, i + shift);
    }
  }

  lemma TruncatedFits(w: nat, shift: nat, right: bool, width: nat)
    ensures Truncated(w, shift, right, width) < Pow2(width)
  {
    if !right {
      ShrAtMost(Shl(w, shift) % Pow2(width), shift);
    }
  }

  /** The search finds a kept bit of the word with no kept bit before it, or reports that none is set. */
  lemma NearestKeptBit(w: nat, shift: nat, right: bool, width: nat)
    requires shift <= width
    ensures var (b, spills) := SearchTruncated(w, shift, right, width);
            if spills then forall i: nat | Kept(shift, right, width, i) :: !Bit(w, i)
            else
              && Kept(shift, right, width, b) && Bit(w, b)
              && forall i: nat | Kept(shift, right, width, i) && (if right then i < b else i > b) :: !Bit(w, i)
  {
    var bm := Truncated(w, shift, right, width);
    TruncatedFits(w, shift, right, width);
    forall i: nat
      ensures Bit(bm, i) == (Kept(shift, right, width, i) && Bit(w, i))
    {
      TruncatedBits(w, shift, right, width, i);
    }
    if bm == 0 {
      ZeroIffNoBits(bm, width);
    } else if right {
      TrailingZerosIsLowest(bm);
    } else {
      BitLenIsHighest(bm);
    }
  }

  /** Searching upward finds the least set bit at or above the shift, or reports that there is none. */
  lemma FirstBitAtOrAbove(w: nat, shift: nat)
    requires shift <= 256
    ensures var (b, spills) := BitAfterTrunc(w, shift, true);
            if spills then forall i: nat | shift <= i < 256 :: !Bit(w, i)
            else shift <= b < 256 && Bit(w, b) && forall i: nat | shift <= i < b :: !Bit(w, i)
  {
    hide Bit, SearchTruncated;
    NearestKeptBit(w, shift, true, WORD_BITS);
    var (b, spills) := SearchTruncated(w, shift, true, WORD_BITS);
    forall i: nat | shift <= i < 256 && (spills || i < b)
      ensures !Bit(w, i)
    {
      assert Kept(shift, true, WORD_BITS, i);
    }
  }

  /** Searching downward finds the greatest set bit below 256 - shift, or reports that there is none. */
  lemma LastBitBelow(w: nat, shift: nat)
    requires shift <= 256
    ensures var (b, spills) := BitAfterTrunc(w, shift, false);
            if spills then forall i: nat | i < 256 - shift :: !Bit(w, i)
            else b < 256 - shift && Bit(w, b) && forall i: nat | b < i < 256 - shift :: !Bit(w, i)
  {
    hide Bit, SearchTruncated;
    NearestKeptBit(w, shift, false, WORD_BITS);
    var (b, spills) := SearchTruncated(w, shift, false, WORD_BITS);
    forall i: nat | i < 256 - shift && (spills || i > b)
      ensures !Bit(w, i)
    {
      assert Kept(shift, false, WORD_BITS, i);
    }
  }

  // ----- storage

  /** The contract's storage of one pool: mezzanine words by lobby key, terminus words by mezzanine
      key, and packed price levels by tick. An absent slot reads as zero. */
  datatype Storage = Storage(mezzanine: map<int, nat>, terminus: map<int, nat>, levels: map<int, nat>)

  function Slot(m: map<int, nat>, key: int): nat {
    if key in m then m[key] else 0
  }

  ghost predicate SlotsFit(st: Storage) {
    && (forall k | k in st.mezzanine :: st.mezzanine[k] < Pow2(256))
    && (forall k | k in st.terminus :: st.terminus[k] < Pow2(256))
  }

  /** Every slot is a 256-bit word, and a mezzanine bit is set exactly when its terminus word is not zero. */
  ghost predicate Consistent(st: Storage) {
    && SlotsFit(st)
    && forall lobby, b: nat | -128 <= lobby < 128 && b < 256 ::
      Bit(Slot(st.mezzanine, lobby), b) <==> Slot(st.terminus, WeldLobbyMezz(lobby, b)) != 0
  }

  predicate Active(st: Storage, t: int) {
    IsTick(t) && Bit(Slot(st.terminus, MezzKey(t)), TermBit(t))
  }

  function ActiveTicks(st: Storage): set<int> {
    set t | TICK_LOWER <= t <= TICK_UPPER && Active(st, t)
  }

  // ----- the reference search: look at every tick in turn

  function ScanUp(st: Storage, from: int): int
    decreases TICK_UPPER - from + 1
  {
    if from > TICK_UPPER then TICK_UPPER
    else if Active(st, from) then from
    else ScanUp(st, from + 1)
  }

  function ScanDown(st: Storage, from: int): int
    decreases from - TICK_LOWER + 1
  {
    if from < TICK_LOWER then TICK_LOWER
    else if Active(st, from) then from
    else ScanDown(st, from - 1)
  }

  lemma {:induction false} ScanUpSkips(st: Storage, from: int, upto: int)
    requires from <= upto <= TICK_UPPER + 1
    requires forall t | from <= t < upto :: !Active(st, t)
    ensures ScanUp(st, from) == ScanUp(st, upto)
    decreases upto - from
  {
    if from < upto {
      ScanUpSkips(st, from + 1, upto);
    }
  }

  lemma {:induction false} ScanDownSkips(st: Storage, from: int, upto: int)
    requires TICK_LOWER - 1 <= upto <= from
    requires forall t | upto < t <= from :: !Active(st, t)
    ensures ScanDown(st, from) == ScanDown(st, upto)
    decreases from - upto
  {
    if upto < from {
      ScanDownSkips(st, from - 1, upto);
    }
  }

  lemma NoneAbove(st: Storage, from: int)
    requires from > TICK_UPPER
    ensures forall t | from <= t :: !Active(st, t)
  {
  }

  lemma NoneBelow(st: Storage, from: int)
    requires from < TICK_LOWER
    ensures forall t | t <= from :: !Active(st, t)
  {
  }

  /** What the scans find: an active tick with none before it, or the infinite tick when there is none. */
  lemma {:induction false} ScanUpMeaning(st: Storage, from: int)
    ensures var r := ScanUp(st, from);
            && (forall t | from <= t < r :: !Active(st, t))
            && ((from <= r && Active(st, r)) || (r == TICK_UPPER && forall t | from <= t :: !Active(st, t)))
    decreases TICK_UPPER - from + 1
  {
    hide Active;
    if from > TICK_UPPER {
      NoneAbove(st, from);
    } else if !Active(st, from) {
      ScanUpMeaning(st, from + 1);
    }
  }

  lemma {:induction false} ScanDownMeaning(st: Storage, from: int)
    ensures var r := ScanDown(st, from);
            && (forall t | r < t <= from :: !Active(st, t))
            && ((r <= from && Active(st, r)) || (r == TICK_LOWER && forall t | t <= from :: !Active(st, t)))
    decreases from - TICK_LOWER + 1
  {
    hide Active;
    if from < TICK_LOWER {
      NoneBelow(st, from);
    } else if !Active(st, from) {
      ScanDownMeaning(st, from - 1);
    }
  }
}
