/** Carbon's wide arithmetic: the 512-bit product from 128-bit halves and the least factor that brings a
product back into a word. The proofs are for halves of any size `b` and words of size `b * b`. */
module CarbonMath {
  import opened Arith
  import opened Words

  // ----- the product, for words of b * b values

  function AddIn(w: nat, x: nat, y: nat): nat
    requires w > 0
  {
    (x + y) % w
  }

  /** The high word assembled from the four partial products, with two carries. */
  function HighWord(b: nat, hh: nat, hl: nat, lh: nat, ll: nat): nat
    requires b > 0
  {
    var w := b * b;
    DivNat(ll, b);
    var c0: nat := ll / b;
    var cross1, carry1 := AddIn(w, c0, hl), c0 + hl >= w;
    var cross2, carry2 := AddIn(w, cross1, lh), cross1 + lh >= w;
    DivNat(cross2, b);
    var h0 := AddIn(w, hh, cross2 / b);
    var h1 := if carry1 then AddIn(w, h0, b) else h0;
    if carry2 then AddIn(w, h1, b) else h1
  }

  /** High and low word of x * y. */
  function WideMul(b: nat, x: nat, y: nat): (nat, nat)
    requires b > 0
  {
    DivNat(x, b);
    DivNat(y, b);
    var xL: nat, xH: nat := x % b, x / b;
    var yL: nat, yH: nat := y % b, y / b;
    var w := b * b;
    (HighWord(b, Times(xH, yH) % w, Times(xH, yL) % w, Times(xL, yH) % w, Times(xL, yL) % w), Times(x, y) % w)
  }

  lemma MulBelow(b: nat, x: nat, y: nat)
    requires b > 0 && x < b && y < b
    ensures x * y <= (b - 1) * (b - 1) && x * y <= b * b - 2 * b + 1 && x * y < b * b
  {
    MulMono(x, b - 1, y);
    MulMono(y, b - 1, b - 1);
    assert (b - 1) * (b - 1) == b * b - 2 * b + 1;
  }

  lemma DivBelow(x: nat, b: nat)
    requires b > 0 && x < b * b
    ensures 0 <= x / b < b
  {
    FloorAtLeast(x, b, b);
    DivNat(x, b);
  }

  lemma DivPastSquare(n: nat, b: nat, w: nat)
    requires b > 0 && w == b * b
    ensures (n + w) / b == n / b + b
  {
    var q, r := n / b, n % b;
    assert b * (q + b) == b * q + w;
    DivModUnique(n + w, b, q + b, r);
  }

  /** One addition with carry. */
  lemma CarryStep(b: nat, w: nat, x: nat, y: nat)
    requires b > 0 && w == b * b && x < w && y < w
    ensures var s := AddIn(w, x, y);
            && s < w && x + y == s + (if x + y >= w then w else 0)
            && (x + y) / b == s / b + (if x + y >= w then b else 0)
  {
    if x + y >= w {
      DivModUnique(x + y, w, 1, x + y - w);
      DivPastSquare(x + y - w, b, w);
    } else {
      DivModUnique(x + y, w, 0, x + y);
    }
  }

  lemma RollUp(b: nat, w: nat, sum: nat, q: int, s: int)
    requires w == b * b && sum == b * q + s
    ensures sum * b == w * q + s * b
  {
    assert b * q * b == b * b * q;
  }

  lemma TopHalf(b: nat, w: nat, s: nat)
    requires w == b * b && s < b
    ensures 0 <= s * b <= w - b
  {
    MulMono(s, b - 1, b);
    NonNegative(s, b);
    assert (b - 1) * b == w - b;
  }

  /** Rolling a sum of partial products over the half size. */
  lemma HighOfSum(b: nat, w: nat, hh: nat, sum: nat, r: nat)
    requires b > 0 && w == b * b && r < b
    ensures w > 0 && (hh * w + sum * b + r) / w == hh + sum / b
  {
    MulAtLeast(b, b);
    TopHalf(b, w, sum % b);
    RollUp(b, w, sum, sum / b, sum % b);
    WholePart(w, hh, sum / b, sum % b * b + r);
  }

  lemma WholePart(w: nat, hh: nat, q: int, low: nat)
    requires low < w
    ensures (hh * w + w * q + low) / w == hh + q
  {
    assert w * (hh + q) == hh * w + w * q;
    DivModUnique(hh * w + w * q + low, w, hh + q, low);
  }

  lemma NoWrap(w: nat, x: nat, y: nat)
    requires w > 0 && x + y < w
    ensures AddIn(w, x, y) == x + y
  {
    DivModUnique(x + y, w, 0, x + y);
  }

  lemma AssembleHigh(w: nat, b: nat, hh: nat, q: nat, carry1: bool, carry2: bool)
    requires w > 0 && hh + q + (if carry1 then b else 0) + (if carry2 then b else 0) < w
    ensures var h0 := AddIn(w, hh, q);
            var h1 := if carry1 then AddIn(w, h0, b) else h0;
            (if carry2 then AddIn(w, h1, b) else h1) == hh + q + (if carry1 then b else 0) + (if carry2 then b else 0)
  {
    hide AddIn;
    NoWrap(w, hh, q);
    if carry1 {
      NoWrap(w, hh + q, b);
    }
    if carry2 {
      NoWrap(w, hh + q + if carry1 then b else 0, b);
    }
  }

  /** The assembled high word is the high word of the sum of the partial products. */
  lemma HighWordExact(b: nat, w: nat, hh: nat, hl: nat, lh: nat, ll: nat)
    requires b > 0 && w == b * b && hl < w && lh < w && ll < w
    requires (hh * w + (hl + lh) * b + ll) / w < w
    ensures HighWord(b, hh, hl, lh, ll) == (hh * w + (hl + lh) * b + ll) / w
  {
    hide AddIn;
    DivBelow(ll, b);
    var c0, r := ll / b, ll % b;
    assert c0 < w by { MulAtLeast(b, b); }
    SplitCarry(b, w, c0, hl, lh);
    var cross1 := AddIn(w, c0, hl);
    var cross2 := AddIn(w, cross1, lh);
    DivNat(cross2, b);
    HighOfSum(b, w, hh, c0 + hl + lh, r);
    RegroupLow(b, hl + lh, ll);
    AssembleHigh(w, b, hh, cross2 / b, c0 + hl >= w, cross1 + lh >= w);
  }

  lemma RegroupLow(b: nat, mid: nat, ll: nat)
    requires b > 0
    ensures mid * b + ll == (ll / b + mid) * b + ll % b
  {
  }

  lemma SplitCarry(b: nat, w: nat, c0: nat, hl: nat, lh: nat)
    requires b > 0 && w == b * b && c0 < w && hl < w && lh < w
    ensures var cross1 := AddIn(w, c0, hl);
            var cross2 := AddIn(w, cross1, lh);
            (c0 + hl + lh) / b
            == cross2 / b + (if c0 + hl >= w then b else 0) + (if cross1 + lh >= w then b else 0)
  {
    hide AddIn;
    CarryStep(b, w, c0, hl);
    var cross1 := AddIn(w, c0, hl);
    CarryStep(b, w, cross1, lh);
    CarriedQuotient(cross1 + lh, b, w, c0 + hl >= w);
  }

  lemma CarriedQuotient(n: nat, b: nat, w: nat, carried: bool)
    requires b > 0 && w == b * b
    ensures (n + if carried then w else 0) / b == n / b + if carried then b else 0
  {
    if carried {
      DivPastSquare(n, b, w);
    }
  }

  lemma SplitProduct(xH: nat, xL: nat, yH: nat, yL: nat, b: nat)
    ensures (b * xH + xL) * (b * yH + yL) == (xH * yH) * (b * b) + (xH * yL + xL * yH) * b + xL * yL
  {
    assert (b * xH + xL) * (b * yH + yL) == (b * xH) * (b * yH + yL) + xL * (b * yH + yL);
    assert (b * xH) * (b * yH + yL) == (xH * yH) * (b * b) + (xH * yL) * b;
    assert xL * (b * yH + yL) == (xL * yH) * b + xL * yL;
  }

  lemma QuotientBelow(n: nat, w: nat)
    requires w > 0 && n < w * w
    ensures 0 <= n / w < w
  {
    FloorAtLeast(n, w, w);
    DivNat(n, w);
  }

  lemma PartBelow(b: nat, x: nat, y: nat)
    requires b > 0 && x < b && y < b
    ensures b * b > 0 && 0 <= x * y < b * b && Times(x, y) == x * y && Times(x, y) % (b * b) == x * y
  {
    TimesIs(x, y);
    MulBelow(b, x, y);
    NonNegative(x, y);
    ModSmall(x * y, b * b);
  }

  lemma Halves(b: nat, x: nat)
    requires b > 0 && x < b * b
    ensures 0 <= x / b < b && 0 <= x % b < b && x == b * (x / b) + x % b
  {
    DivBelow(x, b);
  }

  lemma SameProduct(x: int, y: int, u: int, v: int)
    requires x == u && y == v
    ensures x * y == u * v
  {
  }

  lemma ProductOfHalves(x: nat, y: nat, xH: nat, xL: nat, yH: nat, yL: nat, b: nat)
    requires x == b * xH + xL && y == b * yH + yL
    ensures x * y == (xH * yH) * (b * b) + (xH * yL + xL * yH) * b + xL * yL
  {
    SplitProduct(xH, xL, yH, yL, b);
    SameProduct(x, y, b * xH + xL, b * yH + yL);
  }

  /** The two words are exactly the product, whatever the half size. */
  lemma WideMulExact(b: nat, x: nat, y: nat)
    requires b > 0 && x < b * b && y < b * b
    ensures var (hi, lo) := WideMul(b, x, y);
            hi < b * b && lo < b * b && hi * (b * b) + lo == x * y
  {
    hide HighWord, Times;
    TimesIs(x, y);
    Halves(b, x);
    Halves(b, y);
    var xL: nat, xH: nat := x % b, x / b;
    var yL: nat, yH: nat := y % b, y / b;
    PartBelow(b, xH, yH);
    PartBelow(b, xH, yL);
    PartBelow(b, xL, yH);
    PartBelow(b, xL, yL);
    ProductOfHalves(x, y, xH, xL, yH, yL, b);
    WordsOfParts(b, b * b, x, y, xH * yH, xH * yL, xL * yH, xL * yL);
  }

  lemma WordsOfParts(b: nat, w: nat, x: nat, y: nat, hh: nat, hl: nat, lh: nat, ll: nat)
    requires b > 0 && w == b * b && x < w && y < w
    requires x * y == hh * w + (hl + lh) * b + ll
    requires ll < w && hl < w && lh < w
    ensures HighWord(b, hh, hl, lh, ll) < w
    ensures HighWord(b, hh, hl, lh, ll) * w + x * y % w == x * y
  {
    hide HighWord;
    MulBelow(w, x, y);
    NonNegative(x, y);
    QuotientBelow(x * y, w);
    HighWordExact(b, w, hh, hl, lh, ll);
    DivisionIdentity(x * y, w);
  }

  /** The 512-bit product of two 256-bit words as the matcher computes it. */
  function Mul512(x: nat, y: nat): (nat, nat) {
    WideMul(TWO_128, x, y)
  }

  /** The two words are exactly the product. */
  lemma Mul512Exact(x: nat, y: nat)
    requires x < TWO_256 && y < TWO_256
    ensures var (hi, lo) := Mul512(x, y); hi < TWO_256 && lo < TWO_256 && hi * TWO_256 + lo == x * y
  {
    hide WideMul;
    assert TWO_128 * TWO_128 == TWO_256;
    WideMulExact(TWO_128, x, y);
  }

  // ----- the least scaling factor

  /** The factor for words of `w` values, from the two words of a product. */
  function FactorOf(w: nat, hi: nat, lo: nat): nat
    requires w > 0
  {
    if hi > w - 1 - lo then AddIn(w, hi, 2) else AddIn(w, hi, 1)
  }

  function MinFactorOf(b: nat, x: nat, y: nat): nat
    requires b > 0
  {
    var (hi, lo) := WideMul(b, x, y);
    FactorOf(b * b, hi, lo)
  }

  function MinFactor(x: nat, y: nat): nat {
    MinFactorOf(TWO_128, x, y)
  }

  lemma HighWordBound(w: nat, hi: nat, lo: nat, x: nat, y: nat)
    requires w >= 2 && lo < w && x < w && y < w && hi * w + lo == x * y
    ensures hi < w - 1 && (hi > w - 1 - lo ==> hi + 2 < w)
  {
    MulBelow(w, x, y);
    assert (w - 1) * w == w * w - w && (w - 2) * w == w * w - 2 * w;
    if hi >= w - 1 {
      MulMono(w - 1, hi, w);
    }
  }

  /** A factor g brings n, rounded up, into a word exactly when it is at least the computed one. */
  lemma FactorIsLeast(w: nat, n: nat, hi: nat, lo: nat, g: nat)
    requires w >= 2 && lo < w && hi < w - 1 && n == hi * w + lo && g >= 1
    ensures CeilDiv(n, g) < w <==> g >= if hi > w - 1 - lo then hi + 2 else hi + 1
  {
    hide CeilDiv;
    var m := w - 1;
    CeilAtMost(n, g, m);
    assert n == hi * m + (hi + lo);
    var f := if hi > m - lo then hi + 2 else hi + 1;
    if g >= f {
      MulMono(f, g, m);
      assert f * m == hi * m + (f - hi) * m;
    } else {
      MulMono(g, f - 1, m);
      assert (f - 1) * m == hi * m + (f - 1 - hi) * m;
    }
  }

  lemma FactorFits(w: nat, n: nat, hi: nat, lo: nat, x: nat, y: nat)
    requires w >= 2 && lo < w && x < w && y < w && n == x * y && n == hi * w + lo
    ensures 1 <= FactorOf(w, hi, lo) < w
    ensures forall g: nat | g >= 1 :: CeilDiv(n, g) < w <==> g >= FactorOf(w, hi, lo)
  {
    hide CeilDiv;
    HighWordBound(w, hi, lo, x, y);
    NoWrap(w, hi, if hi > w - 1 - lo then 2 else 1);
    forall g: nat | g >= 1
      ensures CeilDiv(n, g) < w <==> g >= FactorOf(w, hi, lo)
    {
      FactorIsLeast(w, n, hi, lo, g);
    }
  }

  ghost predicate IsLeastFactor(w: nat, n: nat, f: nat) {
    1 <= f < w && forall g: nat | g >= 1 :: CeilDiv(n, g) < w <==> g >= f
  }

  lemma MinFactorOfIsLeast(b: nat, x: nat, y: nat)
    requires b >= 2 && x < b * b && y < b * b
    ensures IsLeastFactor(b * b, x * y, MinFactorOf(b, x, y))
  {
    hide WideMul, FactorOf, CeilDiv;
    var (hi, lo) := WideMul(b, x, y);
    WideMulExact(b, x, y);
    assert b * b >= 2 by { MulAtLeast(b, b); }
    FactorFits(b * b, x * y, hi, lo, x, y);
  }

  /** The factor does not wrap, and it is the least one that brings the product, rounded up, into a word; it
  is 1 exactly when the product already fits. */
  lemma MinFactorIsLeast(x: nat, y: nat, p: nat)
    requires IsWord(x) && IsWord(y) && p == x * y
    ensures 1 <= MinFactor(x, y) && IsWord(MinFactor(x, y))
    ensures forall g: nat | g >= 1 :: IsWord(CeilDiv(p, g)) <==> g >= MinFactor(x, y)
    ensures MinFactor(x, y) == 1 <==> IsWord(p)
  {
    hide MinFactorOf, CeilDiv;
    assert TWO_128 * TWO_128 == TWO_256;
    MinFactorOfIsLeast(TWO_128, x, y);
    CeilByOne(p);
  }

  lemma CeilByOne(p: nat)
    ensures CeilDiv(p, 1) == p
  {
  }
}
