/** Bit words: shifts, masks and bit scans over naturals, as the Ambient tick bitmaps use them.

A word is a natural number. Shifting right halves it, shifting left doubles it, and masking to 256 bits is the
remainder modulo 2^256.
*/
module Bits {
  import opened Arith

  function Pow2(n: nat): (p: nat)
    ensures p > 0
  {
    if n == 0 then 1 else 2 * Pow2(n - 1)
  }

  function Shr(w: nat, n: nat): nat
    decreases n
  {
    if n == 0 then w else Shr(w / 2, n - 1)
  }

  function Shl(w: nat, n: nat): nat {
    if n == 0 then w else 2 * Shl(w, n - 1)
  }

  /** Bit `i` of `w`; bit 0 is the least significant one. */
  predicate Bit(w: nat, i: nat) {
    if i == 0 then w % 2 == 1 else Bit(w / 2, i - 1)
  }

  function TrailingZeros(w: nat): nat
    requires w > 0
  {
    if w % 2 == 1 then 0 else 1 + TrailingZeros(w / 2)
  }

  function BitLen(w: nat): nat {
    if w == 0 then 0 else 1 + BitLen(w / 2)
  }

  function BitAnd(a: nat, b: nat): nat {
    if a == 0 || b == 0 then 0 else 2 * BitAnd(a / 2, b / 2) + if a % 2 == 1 && b % 2 == 1 then 1 else 0
  }

  // ----- how division, remainder and multiplication by a power of two move bits

  lemma {:induction false} Pow2Add(m: nat, n: nat)
    ensures Pow2(m + n) == Pow2(m) * Pow2(n)
  {
    if m > 0 {
      Pow2Add(m - 1, n);
      assert Pow2(m) * Pow2(n) == 2 * (Pow2(m - 1) * Pow2(n));
    }
  }

  lemma PowerDoubled(n: nat, v: nat)
    requires Pow2(n) == v
    ensures Pow2(2 * n) == v * v
  {
    Pow2Add(n, n);
  }

  lemma SmallPower()
    ensures Pow2(4) == 16
  {
  }

  lemma Pow2One()
    ensures Pow2(1) == 2
  {
  }

  lemma DivTwice(w: nat, p: nat)
    requires p > 0
    ensures w / (2 * p) == (w / 2) / p
    ensures w % (2 * p) == 2 * ((w / 2) % p) + w % 2
  {
    var h := w / 2;
    var q, r := h / p, h % p;
    assert w == (2 * p) * q + (2 * r + w % 2);
    DivModUnique(w, 2 * p, q, 2 * r + w % 2);
  }

  lemma {:induction false} BitZero(i: nat)
    ensures !Bit(0, i)
  {
    if i > 0 {
      BitZero(i - 1);
    }
  }

  lemma {:induction false} BitDiv(w: nat, n: nat, i: nat)
    ensures Bit(Shr(w, n), i) == Bit(w, i + n)
    decreases n
  {
    if n > 0 {
      BitDiv(w / 2, n - 1, i);
    }
  }

  lemma {:induction false} ShrAtMost(w: nat, n: nat)
    ensures Shr(w, n) <= w
    decreases n
  {
    if n > 0 {
      ShrAtMost(w / 2, n - 1);
    }
  }

  lemma {:induction false} ShrIs(w: nat, n: nat)
    ensures Shr(w, n) == w / Pow2(n)
    decreases n
  {
    if n > 0 {
      ShrIs(w / 2, n - 1);
      DivTwice(w, Pow2(n - 1));
    }
  }

  lemma {:induction false} ShlIs(w: nat, n: nat)
    ensures Shl(w, n) == w * Pow2(n)
  {
    if n > 0 {
      ShlIs(w, n - 1);
      TwiceProduct(w, Pow2(n - 1));
    }
  }

  lemma TwiceProduct(w: nat, p: nat)
    ensures w * (2 * p) == 2 * (w * p)
  {
  }

  lemma {:induction false} BitMul(w: nat, n: nat, i: nat)
    ensures Bit(Shl(w, n), i) == (i >= n && Bit(w, i - n))
  {
    if n > 0 && i > 0 {
      BitMul(w, n - 1, i - 1);
      BitOfDouble(Shl(w, n - 1), i);
    }
  }

  lemma BitOfDouble(w: nat, i: nat)
    requires i > 0
    ensures Bit(2 * w, i) == Bit(w, i - 1)
  {
    assert 2 * w / 2 == w;
  }

  lemma {:induction false} BitMod(w: nat, n: nat, i: nat)
    ensures Bit(w % Pow2(n), i) == (i < n && Bit(w, i))
  {
    if n == 0 {
      BitZero(i);
    } else {
      var rest := w % Pow2(n);
      DivTwice(w, Pow2(n - 1));
      assert rest / 2 == (w / 2) % Pow2(n - 1) && rest % 2 == w % 2;
      if i > 0 {
        BitMod(w / 2, n - 1, i - 1);
        assert Bit(rest, i) == Bit(rest / 2, i - 1);
      }
    }
  }

  lemma SingleBit(n: nat, i: nat)
    ensures Bit(Shl(1, n), i) <==> i == n
  {
    BitMul(1, n, i);
    if i > n {
      BitZero(i - n - 1);
    }
  }

  // ----- the lowest and the highest set bit

  lemma {:induction false} TrailingZerosIsLowest(w: nat)
    requires w > 0
    ensures Bit(w, TrailingZeros(w))
    ensures forall i: nat | i < TrailingZeros(w) :: !Bit(w, i)
  {
    if w % 2 == 0 {
      TrailingZerosIsLowest(w / 2);
      forall i: nat | i < TrailingZeros(w)
        ensures !Bit(w, i)
      {
        if i > 0 {
          assert !Bit(w / 2, i - 1);
        }
      }
    }
  }

  lemma {:induction false} BitLenIsHighest(w: nat)
    ensures w > 0 ==> Bit(w, BitLen(w) - 1)
    ensures forall i: nat | i >= BitLen(w) :: !Bit(w, i)
  {
    if w > 0 {
      BitLenIsHighest(w / 2);
      forall i: nat | i >= BitLen(w)
        ensures !Bit(w, i)
      {
        assert !Bit(w / 2, i - 1);
      }
    } else {
      forall i: nat
        ensures !Bit(w, i)
      {
        BitZero(i);
      }
    }
  }

  lemma {:induction false} NoHighBits(w: nat, n: nat, i: nat)
    requires w < Pow2(n) && i >= n
    ensures !Bit(w, i)
  {
    if n == 0 {
      BitZero(i);
    } else {
      NoHighBits(w / 2, n - 1, i - 1);
    }
  }

  /** A word is zero exactly when none of its bits is set. */
  lemma ZeroIffNoBits(w: nat, n: nat)
    requires w < Pow2(n)
    ensures w == 0 ==> forall i: nat | i < n :: !Bit(w, i)
    ensures w > 0 ==> exists i: nat | i < n :: Bit(w, i)
  {
    if w == 0 {
      forall i: nat ensures !Bit(w, i) { BitZero(i); }
    } else {
      BitLenIsHighest(w);
      var top := BitLen(w) - 1;
      if top >= n {
        NoHighBits(w, n, top);
      }
      assert Bit(w, top);
    }
  }

  // ----- clearing the lowest set bit

  lemma {:induction false} BitAndSelf(a: nat)
    ensures BitAnd(a, a) == a
  {
    if a > 0 {
      BitAndSelf(a / 2);
    }
  }

  lemma {:induction false} AndPredecessor(u: nat)
    requires u > 0
    ensures BitAnd(u, u - 1) == u - Pow2(TrailingZeros(u))
    ensures BitAnd(u, u - 1) < u
  {
    if u % 2 == 1 {
      BitAndSelf(u / 2);
      assert u > 1 ==> (u - 1) / 2 == u / 2 && (u - 1) % 2 == 0;
    } else {
      AndPredecessor(u / 2);
      assert (u - 1) / 2 == u / 2 - 1 && (u - 1) % 2 == 1;
    }
  }

  lemma {:induction false} ClearLowestBit(u: nat, i: nat)
    requires u > 0
    ensures Bit(BitAnd(u, u - 1), i) == (Bit(u, i) && i != TrailingZeros(u))
  {
    AndPredecessor(u);
    var c := u - Pow2(TrailingZeros(u));
    if u % 2 == 1 {
      assert c == u - 1 && c / 2 == u / 2;
    } else {
      AndPredecessor(u / 2);
      var p := Pow2(TrailingZeros(u / 2));
      assert c == 2 * (u / 2 - p);
      assert c / 2 == u / 2 - p && c % 2 == 0;
      if i > 0 {
        ClearLowestBit(u / 2, i - 1);
      }
    }
  }
}
