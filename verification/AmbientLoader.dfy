/** Loading a window of ticks from storage in three batches: mezzanine words of the lobbies, terminus
words of the set mezzanine bits, and levels of the active ticks found. */
module AmbientLoader {
  import opened Bits
  import opened AmbientTicks
  import opened AmbientView
  import opened AmbientChainWalk
  import opened AmbientSnapshot
  import C = AmbientChainView

  const LIMB: nat := 0x1_0000_0000_0000_0000

  lemma LimbIsPow2()
    ensures Pow2(64) == LIMB
  {
    hide Pow2;
    SmallPower();
    PowerDoubled(4, 0x10);
    PowerDoubled(8, 0x100);
    PowerDoubled(16, 0x1_0000);
    PowerDoubled(32, 0x1_0000_0000);
  }

  lemma LimbBits(rest: nat, i: nat)
    ensures Bit(rest % LIMB, i) == (i < 64 && Bit(rest, i))
    ensures Bit(rest / LIMB, i) == Bit(rest, i + 64)
  {
    hide Bit, Pow2, Shr;
    LimbIsPow2();
    BitMod(rest, 64, i);
    BitDiv(rest, 64, i);
    ShrIs(rest, 64);
  }

  /** `out` holds, in ascending order, exactly the bits of `word` below `limit`. */
  ghost predicate BitsBelow(out: seq<nat>, word: nat, limit: int) {
    && (forall i, j | 0 <= i < j < |out| :: out[i] < out[j])
    && (forall b | b in out :: b < 256 && b < limit && Bit(word, b))
    && (forall b: nat | b < 256 && b < limit && Bit(word, b) :: b in out)
  }

  lemma BitsBelowExtends(out: seq<nat>, word: nat, limit: int, further: int)
    requires BitsBelow(out, word, limit) && limit <= further
    requires forall b: nat | limit <= b < further && b < 256 :: !Bit(word, b)
    ensures BitsBelow(out, word, further)
  {
  }

  lemma BitsBelowAppends(out: seq<nat>, word: nat, limit: int, pos: nat)
    requires BitsBelow(out, word, limit) && limit <= pos < 256 && Bit(word, pos)
    requires forall b: nat | limit <= b < pos :: !Bit(word, b)
    ensures BitsBelow(out + [pos], word, pos + 1)
  {
    hide Bit;
    var longer := out + [pos];
    forall i | 0 <= i < |out|
      ensures out[i] < pos
    {
      assert out[i] in out;
    }
    forall b: nat | b < pos + 1 && Bit(word, b)
      ensures b in longer
    {
      if b == pos {
        assert longer[|out|] == pos;
      } else {
        assert b in out;
      }
    }
  }

  /** `u` holds exactly the bits of `limb` from position `cut` on. */
  ghost predicate IsTail(u: nat, limb: nat, cut: nat) {
    forall i: nat :: Bit(u, i) == (i >= cut && Bit(limb, i))
  }

  lemma ClearedTail(u: nat, limb: nat, cut: nat)
    requires u > 0 && IsTail(u, limb, cut)
    ensures IsTail(BitAnd(u, u - 1), limb, TrailingZeros(u) + 1) && BitAnd(u, u - 1) < u
  {
    AndPredecessor(u);
    TrailingZerosIsLowest(u);
    var low := TrailingZeros(u);
    var cleared := BitAnd(u, u - 1);
    forall i: nat
      ensures Bit(cleared, i) == (i >= low + 1 && Bit(limb, i))
    {
      ClearLowestBit(u, i);
      assert i < low ==> !Bit(u, i);
      assert Bit(u, i) == (i >= cut && Bit(limb, i));
      assert Bit(u, low) == (low >= cut && Bit(limb, low));
    }
    assert IsTail(cleared, limb, low + 1);
  }

  /** The set bits of one 64-bit limb, appended in ascending order by clearing the lowest one each time;
      `full` reports that a position past the word was met. */
  method LimbPositions(before: seq<nat>, limb: nat, limbIdx: nat, ghost word: nat)
    returns (out: seq<nat>, full: bool)
    requires forall i: nat :: Bit(limb, i) == (i < 64 && Bit(word, 64 * limbIdx + i))
    requires BitsBelow(before, word, 64 * limbIdx)
    ensures BitsBelow(out, word, if full then 256 else 64 * limbIdx + 64)
  {
    hide Bit, TrailingZeros, BitAnd, BitsBelow;
    out, full := before, false;
    var u: nat := limb;
    ghost var cut: nat := 0;
    while u != 0
      invariant cut <= 64
      invariant IsTail(u, limb, cut)
      invariant BitsBelow(out, word, 64 * limbIdx + cut)
      decreases u
    {
      var low := TrailingZeros(u);
      var pos := limbIdx * 64 + low;
      TrailingZerosIsLowest(u);
      assert Bit(limb, low);
      forall b: nat | 64 * limbIdx + cut <= b < pos
        ensures !Bit(word, b)
      {
        var i: nat := b - 64 * limbIdx;
        assert b == 64 * limbIdx + i;
        assert !Bit(u, i);
      }
      if pos >= 256 {
        BitsBelowAt256(out, word, 64 * limbIdx + cut, pos);
        return out, true;
      }
      BitsBelowAppends(out, word, 64 * limbIdx + cut, pos);
      out := out + [pos];
      ClearedTail(u, limb, cut);
      u := BitAnd(u, u - 1);
      cut := low + 1;
    }
    forall b: nat | 64 * limbIdx + cut <= b < 64 * limbIdx + 64
      ensures !Bit(word, b)
    {
      var i: nat := b - 64 * limbIdx;
      assert b == 64 * limbIdx + i;
      BitZero(i);
      assert !Bit(u, i);
    }
    BitsBelowExtends(out, word, 64 * limbIdx + cut, 64 * limbIdx + 64);
  }

  lemma BitsBelowAt256(out: seq<nat>, word: nat, limit: int, further: int)
    requires BitsBelow(out, word, limit) && further >= 256
    requires forall b: nat | limit <= b < further :: !Bit(word, b)
    ensures BitsBelow(out, word, 256)
  {
    hide Bit;
  }

  /** `rest` is what remains of `word` above its first `limbIdx` limbs. */
  ghost predicate IsHigh(rest: nat, word: nat, limbIdx: nat) {
    forall i: nat :: Bit(rest, i) == Bit(word, 64 * limbIdx + i)
  }

  lemma NextLimb(rest: nat, word: nat, limbIdx: nat)
    requires IsHigh(rest, word, limbIdx)
    ensures forall i: nat :: Bit(rest % LIMB, i) == (i < 64 && Bit(word, 64 * limbIdx + i))
    ensures IsHigh(rest / LIMB, word, limbIdx + 1)
  {
    hide Bit;
    forall i: nat
      ensures Bit(rest % LIMB, i) == (i < 64 && Bit(word, 64 * limbIdx + i))
      ensures Bit(rest / LIMB, i) == Bit(word, 64 * (limbIdx + 1) + i)
    {
      LimbBits(rest, i);
      assert Bit(rest, i + 64) == Bit(word, 64 * limbIdx + (i + 64));
    }
  }

  lemma NothingHigh(word: nat, limbIdx: nat)
    requires IsHigh(0, word, limbIdx)
    ensures forall b: nat | 64 * limbIdx <= b :: !Bit(word, b)
  {
    hide Bit;
    forall b: nat | 64 * limbIdx <= b
      ensures !Bit(word, b)
    {
      var i: nat := b - 64 * limbIdx;
      assert b == 64 * limbIdx + i;
      BitZero(i);
    }
  }

  /** All set bits below 256, each once, in ascending order. */
  method SetBitPositions(word: nat) returns (out: seq<nat>)
    ensures BitsBelow(out, word, 256)
  {
    hide Bit, BitsBelow, IsHigh;
    out := [];
    var rest: nat := word;
    var limbIdx: nat := 0;
    NoBitsBelowZero(word);
    while rest != 0
      invariant IsHigh(rest, word, limbIdx)
      invariant BitsBelow(out, word, 64 * limbIdx)
      decreases rest
    {
      NextLimb(rest, word, limbIdx);
      var full;
      out, full := LimbPositions(out, rest % LIMB, limbIdx, word);
      if full {
        return;
      }
      rest := rest / LIMB;
      limbIdx := limbIdx + 1;
    }
    NothingHigh(word, limbIdx);
    BitsBelowAt256(out, word, 64 * limbIdx, 64 * limbIdx + 256);
  }

  lemma NoBitsBelowZero(word: nat)
    ensures BitsBelow([], word, 0) && IsHigh(word, word, 0)
  {
  }

  // ----- stage A and B: the words to read

  datatype MezzHit = MezzHit(lobby: int, mezzBit: nat)

  function HitKey(h: MezzHit): int {
    WeldLobbyMezz(h.lobby, h.mezzBit)
  }

  predicate MezzBitSet(st: Storage, lobby: int, b: nat) {
    b < 256 && Bit(Slot(st.mezzanine, lobby), b)
  }

  /** `hits` lists, by ascending mezzanine key, exactly the set mezzanine bits of lobbies `[from, upto)`. */
  ghost predicate HitsOf(hits: seq<MezzHit>, st: Storage, from: int, upto: int) {
    && (forall i, j | 0 <= i < j < |hits| :: HitKey(hits[i]) < HitKey(hits[j]))
    && (forall h | h in hits :: from <= h.lobby < upto && MezzBitSet(st, h.lobby, h.mezzBit))
    && (forall lobby, b: nat | from <= lobby < upto && MezzBitSet(st, lobby, b) :: MezzHit(lobby, b) in hits)
  }

  function HitsIn(lobby: int, positions: seq<nat>): (hits: seq<MezzHit>)
    ensures |hits| == |positions| && forall i | 0 <= i < |hits| :: hits[i] == MezzHit(lobby, positions[i])
  {
    seq(|positions|, i requires 0 <= i < |positions| => MezzHit(lobby, positions[i]))
  }

  lemma HitsExtend(hits: seq<MezzHit>, st: Storage, from: int, lobby: int, positions: seq<nat>)
    requires HitsOf(hits, st, from, lobby) && from <= lobby
    requires BitsBelow(positions, Slot(st.mezzanine, lobby), 256)
    ensures HitsOf(hits + HitsIn(lobby, positions), st, from, lobby + 1)
  {
    hide Bit;
    var added := HitsIn(lobby, positions);
    var all := hits + added;
    forall i, j | 0 <= i < j < |all|
      ensures HitKey(all[i]) < HitKey(all[j])
    {
      if i < |hits| {
        assert all[i] in hits;
        if j >= |hits| {
          assert positions[j - |hits|] in positions;
        }
      }
    }
    forall h | h in added
      ensures h.lobby == lobby && MezzBitSet(st, lobby, h.mezzBit)
    {
      assert h.mezzBit in positions;
    }
    forall l, b: nat | from <= l < lobby + 1 && MezzBitSet(st, l, b)
      ensures MezzHit(l, b) in all
    {
      if l == lobby {
        var k :| 0 <= k < |positions| && positions[k] == b;
        assert all[|hits| + k] == MezzHit(l, b);
      } else {
        assert MezzHit(l, b) in hits;
      }
    }
  }

  lemma NoHits(st: Storage, from: int)
    ensures HitsOf([], st, from, from)
  {
  }

  method CollectHits(st: Storage, minLobby: int, maxLobby: int) returns (hits: seq<MezzHit>)
    requires minLobby <= maxLobby
    ensures HitsOf(hits, st, minLobby, maxLobby + 1)
  {
    hide Bit, BitsBelow, HitsOf;
    hits := [];
    assert HitsOf(hits, st, minLobby, minLobby) by { NoHits(st, minLobby); }
    for lobby := minLobby to maxLobby + 1
      invariant HitsOf(hits, st, minLobby, lobby)
    {
      var positions := SetBitPositions(Slot(st.mezzanine, lobby));
      ghost var before, added := hits, HitsIn(lobby, positions);
      for k := 0 to |positions|
        invariant hits == before + added[..k]
      {
        hits := hits + [MezzHit(lobby, positions[k])];
        assert added[..k + 1] == added[..k] + [added[k]];
      }
      assert added[..|positions|] == added;
      HitsExtend(before, st, minLobby, lobby, positions);
    }
  }

  // ----- stage B: the ticks of the words

  predicate InWindow(minTick: int, maxTick: int, t: int) {
    minTick <= t <= maxTick
  }

  /** `out` adds to `before`, in order, the ticks of word `m` in the window whose term bit is below `limit`. */
  ghost predicate WordTicks(out: seq<int>, before: seq<int>, word: nat, m: int, minTick: int, maxTick: int,
      limit: int) {
    && Increasing(out)
    && (forall t | t in before :: t in out)
    && (forall t | t in out && t !in before ::
          InWindow(minTick, maxTick, t) && 0 <= t - m * 0x100 < limit && t - m * 0x100 < 256 &&
            Bit(word, t - m * 0x100))
    && (forall b: nat | b < 256 && b < limit && Bit(word, b) && InWindow(minTick, maxTick, WeldMezzTerm(m, b)) ::
          WeldMezzTerm(m, b) in out)
  }

  lemma WordTicksStep(out: seq<int>, before: seq<int>, word: nat, m: int, minTick: int, maxTick: int, limit: int,
      b: nat)
    requires WordTicks(out, before, word, m, minTick, maxTick, limit)
    requires forall t | t in before :: t < m * 0x100
    requires limit <= b < 256 && Bit(word, b) && (forall i: nat | limit <= i < b :: !Bit(word, i))
    ensures var t := WeldMezzTerm(m, b);
            WordTicks(if InWindow(minTick, maxTick, t) then out + [t] else out, before, word, m, minTick, maxTick,
              b + 1)
  {
    hide Bit, InWindow;
    var t := WeldMezzTerm(m, b);
    forall x | x in out
      ensures x < t
    {
      if x !in before {
        assert x - m * 0x100 < limit;
      }
    }
    AppendTick(out, t);
    var next := if InWindow(minTick, maxTick, t) then out + [t] else out;
    forall i: nat | i < 256 && i < b + 1 && Bit(word, i) && InWindow(minTick, maxTick, WeldMezzTerm(m, i))
      ensures WeldMezzTerm(m, i) in next
    {
      assert i < limit || i == b;
      if i < limit {
        assert WeldMezzTerm(m, i) in out;
      }
    }
    forall x | x in next && x !in before
      ensures InWindow(minTick, maxTick, x) && 0 <= x - m * 0x100 < b + 1 && Bit(word, x - m * 0x100)
    {
      assert x in out || x == t;
    }
  }

  lemma AppendTick(out: seq<int>, t: int)
    requires Increasing(out) && forall x | x in out :: x < t
    ensures Increasing(out + [t]) && t in out + [t]
    ensures forall x | x in out :: x in out + [t]
    ensures forall x | x in out + [t] :: x in out || x == t
  {
    var longer := out + [t];
    assert longer[|out|] == t;
    forall i | 0 <= i < |out|
      ensures out[i] < t
    {
      assert out[i] in out;
    }
  }

  /** The position just after the `k`-th listed bit, or 0 before the first one. */
  function AfterBit(positions: seq<nat>, k: nat): nat
    requires k <= |positions|
  {
    if k == 0 then 0 else positions[k - 1] + 1
  }

  method ExpandWord(before: seq<int>, word: nat, m: int, minTick: int, maxTick: int) returns (out: seq<int>)
    requires Increasing(before) && forall t | t in before :: t < m * 0x100
    ensures WordTicks(out, before, word, m, minTick, maxTick, 256)
  {
    hide Bit, WordTicks, BitsBelow;
    var positions := SetBitPositions(word);
    out := before;
    WordTicksStart(before, word, m, minTick, maxTick);
    for k := 0 to |positions|
      invariant WordTicks(out, before, word, m, minTick, maxTick, AfterBit(positions, k))
    {
      var tick := WeldMezzTerm(m, positions[k]);
      NoBitBetween(positions, word, k);
      WordTicksStep(out, before, word, m, minTick, maxTick, AfterBit(positions, k), positions[k]);
      if InWindow(minTick, maxTick, tick) {
        out := out + [tick];
      }
    }
    NoBitBetween(positions, word, |positions|);
    WordTicksEnd(out, before, word, m, minTick, maxTick, AfterBit(positions, |positions|));
  }

  lemma WordTicksStart(before: seq<int>, word: nat, m: int, minTick: int, maxTick: int)
    requires Increasing(before)
    ensures WordTicks(before, before, word, m, minTick, maxTick, 0)
  {
  }

  lemma WordTicksEnd(out: seq<int>, before: seq<int>, word: nat, m: int, minTick: int, maxTick: int, limit: int)
    requires WordTicks(out, before, word, m, minTick, maxTick, limit) && 0 <= limit <= 256
    requires forall i: nat | limit <= i < 256 :: !Bit(word, i)
    ensures WordTicks(out, before, word, m, minTick, maxTick, 256)
  {
    hide Bit;
  }

  /** Between two neighbouring listed bits, before the first and after the last, no bit is set. */
  lemma NoBitBetween(positions: seq<nat>, word: nat, k: nat)
    requires BitsBelow(positions, word, 256) && k <= |positions|
    ensures k < |positions| ==> Bit(word, positions[k]) && positions[k] < 256
    ensures AfterBit(positions, k) <= if k < |positions| then positions[k] else 256
    ensures forall i: nat | AfterBit(positions, k) <= i < (if k < |positions| then positions[k] else 256) ::
              !Bit(word, i)
  {
    hide Bit;
    assert k < |positions| ==> positions[k] in positions;
    assert k > 0 ==> positions[k - 1] in positions;
    forall i: nat | AfterBit(positions, k) <= i < (if k < |positions| then positions[k] else 256)
      ensures !Bit(word, i)
    {
      assert Bit(word, i) ==> i in positions;
    }
  }

  // ----- the whole load

  ghost predicate KeyIn(hits: seq<MezzHit>, k: int, key: int) {
    exists j :: 0 <= j < |hits| && j < k && HitKey(hits[j]) == key
  }

  /** `ticks` lists, in order, the active window ticks of the first `k` words read. */
  ghost predicate TicksOf(ticks: seq<int>, st: Storage, hits: seq<MezzHit>, k: int, minTick: int, maxTick: int) {
    && Increasing(ticks)
    && (forall t | t in ticks :: Active(st, t) && InWindow(minTick, maxTick, t) && KeyIn(hits, k, MezzKey(t)))
    && (forall t | Active(st, t) && InWindow(minTick, maxTick, t) && KeyIn(hits, k, MezzKey(t)) :: t in ticks)
  }

  ghost predicate HitsInRange(hits: seq<MezzHit>) {
    && (forall i, j | 0 <= i < j < |hits| :: HitKey(hits[i]) < HitKey(hits[j]))
    && (forall i | 0 <= i < |hits| :: -0x8000 <= HitKey(hits[i]) < 0x8000)
  }

  lemma ReadTicksLieBelow(ticks: seq<int>, st: Storage, hits: seq<MezzHit>, k: nat, minTick: int, maxTick: int)
    requires TicksOf(ticks, st, hits, k, minTick, maxTick) && k < |hits| && HitsInRange(hits)
    ensures forall t | t in ticks :: t < HitKey(hits[k]) * 0x100
  {
    hide Bit, MezzKey;
    forall t | t in ticks
      ensures t < HitKey(hits[k]) * 0x100
    {
      C.TickWord(t);
    }
  }

  lemma TicksExtend(ticks: seq<int>, out: seq<int>, st: Storage, hits: seq<MezzHit>, k: nat, minTick: int, maxTick: int)
    requires TicksOf(ticks, st, hits, k, minTick, maxTick) && k < |hits| && HitsInRange(hits)
    requires WordTicks(out, ticks, Slot(st.terminus, HitKey(hits[k])), HitKey(hits[k]), minTick, maxTick, 256)
    ensures TicksOf(out, st, hits, k + 1, minTick, maxTick)
  {
    hide Bit, MezzKey, TermBit;
    var m := HitKey(hits[k]);
    forall t | t in out
      ensures Active(st, t) && InWindow(minTick, maxTick, t) && KeyIn(hits, k + 1, MezzKey(t))
    {
      if t in ticks {
        assert KeyIn(hits, k, MezzKey(t));
      } else {
        C.WordTick(m, t - m * 0x100);
        assert t == WeldMezzTerm(m, t - m * 0x100);
      }
    }
    forall t | Active(st, t) && InWindow(minTick, maxTick, t) && KeyIn(hits, k + 1, MezzKey(t))
      ensures t in out
    {
      C.TickWord(t);
      if !KeyIn(hits, k, MezzKey(t)) {
        assert MezzKey(t) == m;
      }
    }
  }

  datatype LoadResult = Window(snapshot: Snapshot) | Dangling(lobby: int, mezzBit: nat)

  predicate Indexed(st: Storage, t: int) {
    MezzBitSet(st, LobbyKey(t), MezzBit(t))
  }

  /** A mezzanine bit of the window's lobbies that points at an empty terminus word. */
  ghost predicate IsDangling(st: Storage, minTick: int, maxTick: int, lobby: int, b: nat) {
    LobbyKey(minTick) <= lobby <= LobbyKey(maxTick) && MezzBitSet(st, lobby, b) &&
      Slot(st.terminus, WeldLobbyMezz(lobby, b)) == 0
  }

  lemma LobbyInOrder(minTick: int, maxTick: int, t: int)
    requires IsTick(minTick) && IsTick(maxTick) && minTick <= t <= maxTick
    ensures -128 <= LobbyKey(minTick) <= LobbyKey(t) <= LobbyKey(maxTick) < 128
  {
  }

  /** The words read are those of the window's indexed ticks. */
  lemma KeysAreIndexed(hits: seq<MezzHit>, st: Storage, minTick: int, maxTick: int, t: int)
    requires IsTick(minTick) && IsTick(maxTick) && minTick <= t <= maxTick
    requires HitsOf(hits, st, LobbyKey(minTick), LobbyKey(maxTick) + 1)
    ensures KeyIn(hits, |hits|, MezzKey(t)) <==> Indexed(st, t)
  {
    hide Bit, MezzKey, MezzBit, LobbyKey;
    LobbyInOrder(minTick, maxTick, t);
    LobbyInOrder(minTick, maxTick, minTick);
    WeldUndoesSplit(t);
    if Indexed(st, t) {
      var h := MezzHit(LobbyKey(t), MezzBit(t));
      assert h in hits;
    }
    if KeyIn(hits, |hits|, MezzKey(t)) {
      var j :| 0 <= j < |hits| && HitKey(hits[j]) == MezzKey(t);
      assert hits[j] in hits;
      SplitUndoesWeld(hits[j].lobby, hits[j].mezzBit, 0);
      SameKeySameParts(hits[j].lobby, hits[j].mezzBit, LobbyKey(t), MezzBit(t));
    }
  }

  lemma SameKeySameParts(l1: int, b1: int, l2: int, b2: int)
    requires 0 <= b1 < 256 && 0 <= b2 < 256 && WeldLobbyMezz(l1, b1) == WeldLobbyMezz(l2, b2)
    ensures l1 == l2 && b1 == b2
  {
  }

  lemma HitsAreInRange(hits: seq<MezzHit>, st: Storage, from: int, upto: int)
    requires HitsOf(hits, st, from, upto) && -128 <= from && upto <= 128
    ensures HitsInRange(hits)
  {
    hide Bit;
    forall i | 0 <= i < |hits|
      ensures -0x8000 <= HitKey(hits[i]) < 0x8000
    {
      assert hits[i] in hits;
    }
  }

  lemma ActiveTickIsIndexed(st: Storage, t: int)
    requires Consistent(st) && Active(st, t)
    ensures Indexed(st, t)
  {
    hide MezzKey, MezzBit, LobbyKey, TermBit;
    WeldUndoesSplit(t);
    BitZero(TermBit(t));
    assert Slot(st.terminus, WeldLobbyMezz(LobbyKey(t), MezzBit(t))) != 0;
  }

  /** A load fails exactly when some mezzanine bit in reach has an empty terminus word; otherwise the
      list holds exactly the indexed active ticks of the window in ascending order. On consistent
      storage it never fails and is the window of that storage. */
  method LoadWindow(st: Storage, minTick: int, maxTick: int) returns (r: LoadResult)
    requires IsTick(minTick) && IsTick(maxTick) && minTick <= maxTick
    ensures r.Dangling? ==> IsDangling(st, minTick, maxTick, r.lobby, r.mezzBit)
    ensures r.Window? ==> forall lobby, b: nat :: !IsDangling(st, minTick, maxTick, lobby, b)
    ensures r.Window? ==>
              && Increasing(r.snapshot.ticks) && r.snapshot.minTick == minTick && r.snapshot.maxTick == maxTick
              && forall t :: t in r.snapshot.ticks <==> Active(st, t) && Indexed(st, t) && minTick <= t <= maxTick
    ensures Consistent(st) ==> r.Window? && Loaded(r.snapshot, st)
  {
    hide Bit, MezzKey, TermBit, HitsOf, TicksOf, WordTicks, HitsInRange, Active, Indexed, LobbyKey;
    LobbyInOrder(minTick, maxTick, minTick);
    LobbyInOrder(minTick, maxTick, maxTick);
    var hits := CollectHits(st, LobbyKey(minTick), LobbyKey(maxTick));
    HitsAreInRange(hits, st, LobbyKey(minTick), LobbyKey(maxTick) + 1);
    var ticks: seq<int> := [];
    NoTicksYet(st, hits, minTick, maxTick);
    for k := 0 to |hits|
      invariant TicksOf(ticks, st, hits, k, minTick, maxTick)
      invariant forall j | 0 <= j < k :: Slot(st.terminus, HitKey(hits[j])) != 0
    {
      var term := Slot(st.terminus, HitKey(hits[k]));
      if term == 0 {
        DanglingHit(hits, st, minTick, maxTick, k);
        return Dangling(hits[k].lobby, hits[k].mezzBit);
      }
      ReadTicksLieBelow(ticks, st, hits, k, minTick, maxTick);
      TicksAreIncreasing(ticks, st, hits, k, minTick, maxTick);
      var out := ExpandWord(ticks, term, HitKey(hits[k]), minTick, maxTick);
      TicksExtend(ticks, out, st, hits, k, minTick, maxTick);
      ticks := out;
    }
    var levels := map t | t in ticks :: Lots(Slot(st.levels, t));
    AllHitsRead(ticks, hits, st, minTick, maxTick);
    return Window(Snapshot(ticks, levels, minTick, maxTick));
  }

  lemma NoTicksYet(st: Storage, hits: seq<MezzHit>, minTick: int, maxTick: int)
    ensures TicksOf([], st, hits, 0, minTick, maxTick)
  {
  }

  lemma TicksAreIncreasing(ticks: seq<int>, st: Storage, hits: seq<MezzHit>, k: int, minTick: int, maxTick: int)
    requires TicksOf(ticks, st, hits, k, minTick, maxTick)
    ensures Increasing(ticks)
  {
  }

  lemma DanglingHit(hits: seq<MezzHit>, st: Storage, minTick: int, maxTick: int, k: nat)
    requires HitsOf(hits, st, LobbyKey(minTick), LobbyKey(maxTick) + 1) && k < |hits|
    requires -128 <= LobbyKey(minTick) && LobbyKey(maxTick) < 128
    requires Slot(st.terminus, HitKey(hits[k])) == 0
    ensures IsDangling(st, minTick, maxTick, hits[k].lobby, hits[k].mezzBit) && !Consistent(st)
  {
    hide Bit, LobbyKey;
    assert hits[k] in hits;
  }

  lemma AllHitsRead(ticks: seq<int>, hits: seq<MezzHit>, st: Storage, minTick: int, maxTick: int)
    requires IsTick(minTick) && IsTick(maxTick) && minTick <= maxTick
    requires HitsOf(hits, st, LobbyKey(minTick), LobbyKey(maxTick) + 1)
    requires TicksOf(ticks, st, hits, |hits|, minTick, maxTick)
    requires forall j | 0 <= j < |hits| :: Slot(st.terminus, HitKey(hits[j])) != 0
    ensures Increasing(ticks)
    ensures forall lobby, b: nat :: !IsDangling(st, minTick, maxTick, lobby, b)
    ensures forall t :: t in ticks <==> Active(st, t) && Indexed(st, t) && minTick <= t <= maxTick
    ensures Consistent(st) ==>
              forall t :: t in ticks <==> Active(st, t) && minTick <= t <= maxTick
  {
    hide Bit, LobbyKey, Indexed, Active, KeyIn, Consistent;
    forall t
      ensures t in ticks <==> Active(st, t) && Indexed(st, t) && minTick <= t <= maxTick
      ensures Consistent(st) && Active(st, t) ==> Indexed(st, t)
    {
      if minTick <= t <= maxTick {
        KeysAreIndexed(hits, st, minTick, maxTick, t);
      }
      if Consistent(st) && Active(st, t) {
        ActiveTickIsIndexed(st, t);
      }
    }
    forall lobby, b: nat | LobbyKey(minTick) <= lobby <= LobbyKey(maxTick) && MezzBitSet(st, lobby, b)
      ensures Slot(st.terminus, WeldLobbyMezz(lobby, b)) != 0
    {
      var h := MezzHit(lobby, b);
      assert h in hits;
      var j :| 0 <= j < |hits| && hits[j] == h;
      assert HitKey(hits[j]) == WeldLobbyMezz(lobby, b);
    }
  }
}
