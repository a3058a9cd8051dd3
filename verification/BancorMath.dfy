/** Bancor v3's multiply-then-divide: the 512-bit product found from a remainder modulo 2^256 - 1, and its
exact quotient found by multiplying with an inverse modulo 2^256. The proofs are for words of any power
of two `w` of values; the code's words are those of 2^256. */
module BancorMath {
  import opened Arith
  import opened Words
  import opened Outcomes
  import opened Bits

  // ----- the product from two remainders

  /** High word of x * y, given its remainders modulo w - 1 and modulo w. */
  function HighFrom(w: nat, p: nat, q: nat): nat
    requires w > 0
  {
    if p >= q then p - q else ((p - q) % w - 1) % w
  }

  lemma HighBelow(w: nat, x: nat, y: nat)
    requires w > 1 && x < w && y < w
    ensures 0 <= x * y / w <= w - 2
  {
    MulMono(x, w - 1, y);
    MulMono(y, w - 1, w - 1);
    NonNegative(x, y);
    DivNat(x * y, w);
    assert (w - 1) * (w - 1) == w * (w - 2) + 1;
    assert w * (w - 1) == w * (w - 2) + w;
    FloorAtLeast(x * y, w, w - 1);
  }

  /** Dividing by w - 1 instead of w leaves the sum of the two words. */
  lemma SumOfWords(w: nat, n: nat, hi: nat, lo: nat)
    requires w > 1 && n == w * hi + lo && hi <= w - 2 && lo < w
    ensures n % (w - 1) == if hi + lo < w - 1 then hi + lo else hi + lo - (w - 1)
  {
    var v := w - 1;
    assert w * hi == v * hi + hi;
    if hi + lo < v {
      DivModUnique(n, v, hi, hi + lo);
    } else {
      assert v * (hi + 1) == v * hi + v;
      DivModUnique(n, v, hi + 1, hi + lo - v);
    }
  }

  /** The two words are exactly the product. */
  lemma HighFromExact(w: nat, x: nat, y: nat)
    requires w > 1 && x < w && y < w
    ensures x * y >= 0 && HighFrom(w, x * y % (w - 1), x * y % w) == x * y / w
  {
    HighBelow(w, x, y);
    var hi, lo := x * y / w, x * y % w;
    NonNegative(x, y);
    SumOfWords(w, x * y, hi, lo);
    if hi + lo >= w - 1 {
      var d := hi - (w - 1);
      DivModUnique(d, w, -1, d + w);
      DivModUnique(d + w - 1, w, 0, hi);
    }
  }

  // ----- the largest power of two in a word

  lemma {:induction false} ComplementAnd(n: nat, a: nat)
    requires a < Pow2(n)
    ensures BitAnd(Pow2(n) - 1 - a, a) == 0
  {
    if n > 0 {
      var c := Pow2(n) - 1 - a;
      assert c / 2 == Pow2(n - 1) - 1 - a / 2;
      assert c % 2 == 1 - a % 2;
      ComplementAnd(n - 1, a / 2);
    }
  }

  /** A word and its negation share exactly the word's lowest set bit. */
  lemma {:induction false} NegationAnd(n: nat, z: nat)
    requires 0 < z < Pow2(n)
    ensures BitAnd(Pow2(n) - z, z) == Pow2(TrailingZeros(z))
  {
    var c := Pow2(n) - z;
    if z % 2 == 1 {
      assert c / 2 == Pow2(n - 1) - 1 - z / 2 && c % 2 == 1;
      ComplementAnd(n - 1, z / 2);
    } else {
      assert c / 2 == Pow2(n - 1) - z / 2 && c % 2 == 0;
      NegationAnd(n - 1, z / 2);
    }
  }

  lemma {:induction false} OddFactor(z: nat) returns (k: nat)
    requires z > 0
    ensures z == Pow2(TrailingZeros(z)) * k && k % 2 == 1
  {
    if z % 2 == 0 {
      k := OddFactor(z / 2);
      Reassociate(2, Pow2(TrailingZeros(z / 2)), k);
    } else {
      k := z;
    }
  }

  /** A word is its lowest set bit times an odd number. */
  lemma OddPart(z: nat)
    requires z > 0
    ensures var p := Pow2(TrailingZeros(z)); z == p * (z / p) && (z / p) % 2 == 1
  {
    hide Pow2, TrailingZeros;
    var k := OddFactor(z);
    DivModUnique(z, Pow2(TrailingZeros(z)), k, 0);
  }

  lemma {:induction false} TrailingZerosBelow(n: nat, z: nat)
    requires 0 < z < Pow2(n)
    ensures TrailingZeros(z) < n
  {
    if z % 2 == 0 {
      TrailingZerosBelow(n - 1, z / 2);
    }
  }

  // ----- dividing two words by a power of two

  function BitOr(a: nat, b: nat): nat
    decreases a + b
  {
    if a == 0 then b else if b == 0 then a else 2 * BitOr(a / 2, b / 2) + (if a % 2 == 1 || b % 2 == 1 then 1 else 0)
  }

  /** Without a bit in common, or is sum. */
  lemma {:induction false} OrIsSum(s: nat, a: nat, b: nat)
    requires b < Pow2(s)
    ensures BitOr(Pow2(s) * a, b) == Pow2(s) * a + b
  {
    var x := Pow2(s) * a;
    NonNegative(Pow2(s), a);
    if s > 0 && x > 0 && b > 0 {
      assert x == 2 * (Pow2(s - 1) * a);
      NonNegative(Pow2(s - 1), a);
      OrIsSum(s - 1, a, b / 2);
    }
  }

  /** The low word of (w * hi + lo) / p, for words of w = p * s values. */
  lemma QuotientWord(w: nat, p: nat, s: nat, hi: nat, lo: nat)
    requires p > 0 && w == p * s && lo < w
    ensures s > 0 && 0 <= lo / p < s
    ensures (w * hi + lo) / p % w == s * hi % w + lo / p
  {
    var c, r := lo / p, lo % p;
    DivNat(lo, p);
    FloorAtLeast(lo, p, s);
    Reassociate(p, s, hi);
    DivModUnique(w * hi + lo, p, s * hi + c, r);
    LowWordOfSum(p, s, hi, c);
  }

  lemma Reassociate(a: int, b: int, c: int)
    ensures a * b * c == a * (b * c)
  {
  }

  lemma LowWordOfSum(p: nat, s: nat, hi: nat, c: nat)
    requires p > 0 && c < s
    ensures p * s > 0 && (s * hi + c) % (p * s) == s * hi % (p * s) + c
  {
    MulAtLeast(p, s);
    var w, g := p * s, hi / p;
    var h := hi % p;
    assert s * hi == w * g + s * h by { assert hi == p * g + h; assert s * (p * g + h) == p * s * g + s * h; }
    MulMono(h, p - 1, s);
    assert s * (p - 1) == w - s;
    NonNegative(s, h);
    DivModUnique(s * hi, w, g, s * h);
    DivModUnique(s * hi + c, w, g, s * h + c);
  }

  /** What the code multiplies the high word by stands for w / p, also when that wraps to zero. */
  lemma InverseOfPower(w: nat, p: nat, s: nat, hi: nat)
    requires p > 0 && s > 0 && w == p * s
    ensures var inverse := ((w - p) % w / p + 1) % w;
            inverse >= 0 && hi * inverse % w == s * hi % w
  {
    MulAtLeast(s, p);
    MulAtLeast(p, s);
    ModSmall(w - p, w);
    assert w - p == p * (s - 1);
    DivModUnique(w - p, p, s - 1, 0);
    ModMul(s, hi, w);
    assert hi * (s % w) == (s % w) * hi;
    assert s * hi == hi * s;
  }

  // ----- the inverse of an odd word

  lemma Multiple(m: int, k: int)
    requires m > 0
    ensures m * k % m == 0
  {
    DivModUnique(m * k, m, k, 0);
  }

  /** x inverts d up to multiples of m. */
  predicate Inverts(x: int, d: int, m: nat)
    requires m > 0
  {
    (1 - x * d) % m == 0
  }

  lemma NewtonWraps(x: int, t: int, w: int) returns (g: int)
    requires w > 0
    ensures x * ((2 - t % w) % w) % w == x * (2 - t) + w * g
  {
    var u := t / w;
    var a := 2 - t % w;
    var b := a / w;
    var s := a % w;
    var y := x * s;
    var v := y / w;
    assert s == 2 - t + w * (u - b);
    assert y == x * (2 - t) + w * (x * (u - b)) by {
      var c := u - b;
      assert x * (2 - t + w * c) == x * (2 - t) + x * (w * c);
      assert x * (w * c) == w * (x * c);
    }
    g := x * (u - b) - v;
    assert w * g == w * (x * (u - b)) - w * v;
  }

  lemma NewtonError(x: int, d: int, w: int, g: int)
    ensures 1 - (x * (2 - x * d) + w * g) * d == (1 - x * d) * (1 - x * d) - w * (g * d)
  {
    var t := x * d;
    assert (x * (2 - t) + w * g) * d == x * (2 - t) * d + w * g * d;
    assert x * (2 - t) * d == t * (2 - t);
    assert (1 - t) * (1 - t) == 1 - 2 * t + t * t;
    assert t * (2 - t) == 2 * t - t * t;
    Reassociate(w, g, d);
  }

  /** Each Newton step squares the modulus up to which the inverse is right. */
  lemma NewtonStep(x: int, d: int, m: nat, w: nat, c: nat)
    requires m > 0 && w > 0 && w == m * m * c && Inverts(x, d, m)
    ensures m * m > 0 && Inverts(x * ((2 - x * d % w) % w) % w, d, m * m)
  {
    var g := NewtonWraps(x, x * d, w);
    NewtonError(x, d, w, g);
    var e := (1 - x * d) / m;
    MulAtLeast(m, m);
    SquareOfMultiple(1 - x * d, m, e);
    Reassociate(m * m, c, g * d);
    var y := x * ((2 - x * d % w) % w) % w;
    assert m * m * (e * e) - m * m * (c * (g * d)) == m * m * (e * e - c * (g * d));
    assert 1 - y * d == m * m * (e * e - c * (g * d));
    Multiple(m * m, e * e - c * (g * d));
  }

  lemma SquareOfMultiple(f: int, m: int, e: int)
    requires f == m * e
    ensures f * f == m * m * (e * e)
  {
  }

  // ----- the quotient

  /** Multiplying the odd part's share by the inverse of the odd part leaves the quotient. */
  lemma QuotientByInverse(w: nat, quotient: nat, d: nat, r: nat)
    requires 0 <= quotient < w && r * d % w == 1
    ensures d * quotient % w * r % w == quotient
  {
    ModMul(d * quotient, r, w);
    assert d * quotient * r == r * d * quotient;
    ModMul(r * d, quotient, w);
    ModSmall(quotient, w);
  }

  // ----- the code on 256-bit words

  type Result<T> = Outcome<T, string>

  datatype Uint512 = Uint512(hi: nat, lo: nat)

  const OVERFLOW := "overflow"

  function Value(n: Uint512): nat {
    n.hi * TWO_256 + n.lo
  }

  predicate IsWide(n: Uint512) {
    IsWord(n.hi) && IsWord(n.lo)
  }

  function Mul512(x: nat, y: nat): Uint512 {
    NonNegative(x, y);
    var p: nat, q := x * y % (TWO_256 - 1), Mul(x, y);
    Uint512(if p >= q then p - q else Sub(Sub(p, q), 1), q)
  }

  function Sub512(n: Uint512, y: nat): Uint512 {
    if n.lo >= y then Uint512(n.hi, n.lo - y) else Uint512(Sub(n.hi, 1), Sub(n.lo, y))
  }

  /** Divides by a power of two, keeping the low word. */
  function Div512(n: Uint512, pow2n: nat): nat {
    BitOr(Mul(n.hi, Add(Div(Neg(pow2n), pow2n), 1)), Div(n.lo, pow2n))
  }

  lemma MulIs(x: nat, y: nat, w: nat)
    requires w == TWO_256
    ensures x * y >= 0 && Mul(x, y) == x * y % w
  {
    TimesIs(x, y);
    NonNegative(x, y);
  }

  lemma SubIs(x: nat, y: nat, w: nat)
    requires w == TWO_256
    ensures Sub(x, y) == (x - y) % w
  {
  }

  lemma WordOf(x: nat, w: nat)
    requires w == TWO_256
    ensures IsWord(x) <==> x < w
  {
  }

  lemma HighIs(p: nat, q: nat)
    ensures (if p >= q then p - q else Sub(Sub(p, q), 1)) == HighFrom(TWO_256, p, q)
  {
  }

  lemma WordsOf(n: nat, w: nat)
    requires w == TWO_256 && n / w >= 0 && n / w <= w - 2
    ensures IsWide(Uint512(n / w, n % w)) && Value(Uint512(n / w, n % w)) == n
  {
    hide IsWord;
    WordOf(n / w, w);
    WordOf(n % w, w);
    DivisionIdentity(n, w);
  }

  lemma Mul512Exact(x: nat, y: nat)
    requires IsWord(x) && IsWord(y)
    ensures x * y >= 0 && IsWide(Mul512(x, y)) && Value(Mul512(x, y)) == x * y
  {
    hide Mul, Sub, IsWord, HighFrom, IsWide, Value;
    WordOf(x, TWO_256);
    WordOf(y, TWO_256);
    MulIs(x, y, TWO_256);
    HighIs(x * y % (TWO_256 - 1), x * y % TWO_256);
    HighFromExact(TWO_256, x, y);
    HighBelow(TWO_256, x, y);
    WordsOf(x * y, TWO_256);
  }

  lemma Sub512Exact(n: Uint512, y: nat)
    requires IsWide(n) && y <= Value(n) && IsWord(y)
    ensures IsWide(Sub512(n, y)) && Value(Sub512(n, y)) == Value(n) - y
  {
  }

  lemma PowerOfWord()
    ensures Pow2(256) == TWO_256
  {
    hide Pow2;
    SmallPower();
    PowerDoubled(4, 16);
    PowerDoubled(8, 0x100);
    PowerDoubled(16, 0x1_0000);
    PowerDoubled(32, 0x1_0000_0000);
    PowerDoubled(64, TWO_64);
    PowerDoubled(128, TWO_128);
  }

  lemma Div512Exact(n: Uint512, p: nat, t: nat)
    requires IsWide(n) && t < 256 && p == Pow2(t)
    ensures Value(n) / p >= 0 && Div512(n, p) == Value(n) / p % TWO_256
  {
    hide Mul, Add, Sub, IsWord, BitOr, Pow2, Div;
    var w, s := TWO_256, Pow2(256 - t);
    PowerOfWord();
    Pow2Add(t, 256 - t);
    WordOf(n.lo, w);
    DivNat(Value(n), p);
    QuotientWord(w, p, s, n.hi, n.lo);
    InverseOfPower(w, p, s, n.hi);
    NegatedPower(p, s, w);
    DivIs(n.lo, p);
    var inverse := ((w - p) % w / p + 1) % w;
    MulIs(n.hi, inverse, w);
    SharedFactor(s, p, n.hi, w);
    var h := s * n.hi % w;
    OrIsSum(256 - t, h / s, n.lo / p);
  }

  lemma NegatedPower(p: nat, s: nat, w: nat)
    requires p > 0 && s > 0 && w == p * s && w == TWO_256
    ensures (w - p) % w / p >= 0 && Add(Div(Neg(p), p), 1) == ((w - p) % w / p + 1) % w
  {
    hide Div;
    MulAtLeast(s, p);
    assert (0 - p) % w == (w - p) % w;
    DivIs((w - p) % w, p);
  }

  /** The remainder of a multiple of s modulo a multiple of s is a multiple of s. */
  lemma SharedFactor(s: nat, p: nat, hi: nat, w: nat)
    requires s > 0 && p > 0 && w == p * s
    ensures w > 0 && 0 <= s * hi % w && s * hi % w / s >= 0 && s * hi % w == s * (s * hi % w / s)
  {
    MulAtLeast(p, s);
    NonNegative(s, hi);
    LowWordOfSum(p, s, hi, 0);
    var g, h := hi / p, hi % p;
    assert s * hi == w * g + s * h by { assert hi == p * g + h; assert s * (p * g + h) == p * s * g + s * h; }
    MulMono(h, p - 1, s);
    assert s * (p - 1) == w - s;
    NonNegative(s, h);
    DivModUnique(s * hi, w, g, s * h);
    DivModUnique(s * h, s, h, 0);
  }

  /** Newton's iteration, eight steps from 1. */
  method Inv256(d: nat) returns (x: nat)
    requires d % 2 == 1
    ensures IsWord(x) && Mul(x, d) == 1
  {
    hide Mul, Sub, IsWord, Pow2;
    ghost var w := TWO_256;
    x := 1;
    WordOf(1, w);
    OddIsOwnInverse(d);
    for i := 0 to 8
      invariant IsWord(x) && Inverts(x, d, Pow2(Pow2(i)))
    {
      PowersOfSteps(i);
      MulIs(x, d, w);
      SubIs(2, x * d % w, w);
      MulIs(x, (2 - x * d % w) % w, w);
      NewtonStep(x, d, Pow2(Pow2(i)), w, Pow2(256 - Pow2(i + 1)));
      x := Mul(x, Sub(2, Mul(x, d)));
      WordOf(x, w);
    }
    PowersOfSteps(7);
    PowerOfWord();
    MulIs(x, d, w);
    InverseIsOne(x, d, w);
  }

  lemma OddIsOwnInverse(d: nat)
    requires d % 2 == 1
    ensures Inverts(1, d, Pow2(Pow2(0)))
  {
    assert Pow2(1) == 2;
  }

  lemma InverseIsOne(x: nat, d: nat, w: nat)
    requires w > 1 && Inverts(x, d, w)
    ensures x * d % w == 1
  {
    var k := (1 - x * d) / w;
    DivModUnique(x * d, w, -k, 1);
  }

  /** Step i + 1 works modulo the square of step i's modulus, which divides the word's. */
  lemma PowersOfSteps(i: nat)
    requires i < 8
    ensures Pow2(i + 1) <= 256 && Pow2(Pow2(i + 1)) == Pow2(Pow2(i)) * Pow2(Pow2(i))
    ensures TWO_256 == Pow2(Pow2(i)) * Pow2(Pow2(i)) * Pow2(256 - Pow2(i + 1))
    ensures i == 7 ==> Pow2(i + 1) == 256
  {
    hide Pow2;
    PowerAtMost(i + 1);
    PowerOfWord();
    PowerStep(i);
    Pow2Add(Pow2(i), Pow2(i));
    Pow2Add(Pow2(i + 1), 256 - Pow2(i + 1));
  }

  lemma PowerStep(i: nat)
    ensures Pow2(i + 1) == Pow2(i) + Pow2(i)
  {
  }

  lemma PowerAtMost(i: nat)
    requires i <= 8
    ensures Pow2(i) <= 256 && (i == 8 ==> Pow2(i) == 256)
  {
    Pow2Add(i, 8 - i);
    MulAtLeast(Pow2(8 - i), Pow2(i));
    assert Pow2(8) == 256;
  }

  /** The exact floored quotient of the product, or an error when it does not fit a word; dividing by zero
  gives zero while the product fits a word. */
  function FloorDivided(x: nat, y: nat, z: nat): Result<nat> {
    if z == 0 then if IsWord(Times(x, y)) then Ok(0) else Err(OVERFLOW)
    else if IsWord(Div(Times(x, y), z)) then Ok(Div(Times(x, y), z)) else Err(OVERFLOW)
  }

  lemma FloorDividedIs(x: nat, y: nat, z: nat, p: nat)
    requires p == x * y
    ensures z == 0 ==> FloorDivided(x, y, z) == if IsWord(p) then Ok(0) else Err(OVERFLOW)
    ensures z > 0 ==> p / z >= 0 && FloorDivided(x, y, z) == if IsWord(p / z) then Ok(p / z) else Err(OVERFLOW)
  {
    hide IsWord, Div, Times;
    TimesIs(x, y);
    if z > 0 {
      DivIs(p, z);
    }
  }

  method MulDivF(x: nat, y: nat, z: nat) returns (r: Result<nat>)
    requires IsWord(x) && IsWord(y) && IsWord(z)
    ensures r == FloorDivided(x, y, z)
  {
    hide Mul, Sub, IsWord, Pow2, Mul512, Sub512, Div512, Neg, BitAnd, Div, TrailingZeros, Value, FloorDivided, Times;
    var xy := Mul512(x, y);
    Mul512Exact(x, y);
    if xy.hi == 0 {
      SmallProduct(x, y, z, xy);
      return Ok(Div(xy.lo, z));
    }
    if xy.hi >= z {
      LargeQuotient(x, y, z, xy);
      return Err(OVERFLOW);
    }
    var m := x * y % z;
    WordMono(m, z);
    RemainderBelow(x * y, z);
    var n := Sub512(xy, m);
    Sub512Exact(xy, m);
    QuotientFits(x, y, z, xy);
    ExactPart(x * y, z);
    if n.hi == 0 {
      LowOnly(n);
      DivIs(n.lo, z);
      return Ok(Div(n.lo, z));
    }
    var p := BitAnd(Neg(z), z);
    LowestBit(z);
    var q := Div512(n, p);
    Div512Exact(n, p, TrailingZeros(z));
    OddPart(z);
    DivIs(z, p);
    var inverse := Inv256(Div(z, p));
    Finish(n, x * y / z, z, p, inverse);
    return Ok(Mul(q, inverse));
  }

  lemma SmallProduct(x: nat, y: nat, z: nat, xy: Uint512)
    requires IsWide(xy) && Value(xy) == x * y && xy.hi == 0
    ensures FloorDivided(x, y, z) == Ok(Div(xy.lo, z))
  {
    hide IsWord, FloorDivided;
    NonNegative(x, y);
    FloorDividedIs(x, y, z, x * y);
    assert x * y == xy.lo;
    if z > 0 {
      DivAtMost(xy.lo, z);
      DivIs(xy.lo, z);
      WordMono(xy.lo / z, xy.lo);
    }
  }

  lemma LargeQuotient(x: nat, y: nat, z: nat, xy: Uint512)
    requires IsWide(xy) && Value(xy) == x * y && xy.hi > 0 && xy.hi >= z
    ensures FloorDivided(x, y, z) == Err(OVERFLOW)
  {
    hide IsWord, FloorDivided;
    NonNegative(x, y);
    FloorDividedIs(x, y, z, x * y);
    var w := TWO_256;
    NonNegative(x, y);
    MulMono(z, xy.hi, w);
    MulMono(1, xy.hi, w);
    WordOf(x * y, w);
    if z > 0 {
      FloorAtLeast(x * y, z, w);
      DivNat(x * y, z);
      WordOf(x * y / z, w);
    }
  }

  lemma QuotientFits(x: nat, y: nat, z: nat, xy: Uint512)
    requires IsWide(xy) && Value(xy) == x * y && xy.hi < z
    ensures x * y / z >= 0 && IsWord(x * y / z) && FloorDivided(x, y, z) == Ok(x * y / z)
  {
    hide IsWord, FloorDivided;
    NonNegative(x, y);
    FloorDividedIs(x, y, z, x * y);
    var w := TWO_256;
    NonNegative(x, y);
    WordOf(xy.lo, w);
    MulMono(xy.hi + 1, z, w);
    assert (xy.hi + 1) * w == xy.hi * w + w;
    FloorAtLeast(x * y, z, w);
    DivNat(x * y, z);
    WordOf(x * y / z, w);
  }

  lemma RemainderBelow(n: nat, z: nat)
    requires z > 0
    ensures 0 <= n % z < z && n % z <= n
  {
    DivNat(n, z);
    NonNegative(z, n / z);
  }

  lemma ExactPart(n: nat, z: nat)
    requires z > 0
    ensures n - n % z == z * (n / z) && (n - n % z) / z == n / z
  {
    DivModUnique(n - n % z, z, n / z, 0);
  }

  lemma LowOnly(n: Uint512)
    requires n.hi == 0
    ensures Value(n) == n.lo
  {
  }

  lemma LowestBit(z: nat)
    requires IsWord(z) && z > 0
    ensures BitAnd(Neg(z), z) == Pow2(TrailingZeros(z)) && TrailingZeros(z) < 256
  {
    hide Pow2, BitAnd, TrailingZeros;
    PowerOfWord();
    NegationAnd(256, z);
    TrailingZerosBelow(256, z);
    assert Neg(z) == TWO_256 - z;
  }

  lemma Finish(n: Uint512, quotient: nat, z: nat, p: nat, inverse: nat)
    requires IsWord(quotient) && z > 0 && p > 0 && z == p * (z / p) && Value(n) == z * quotient && z / p >= 0
    requires Mul(inverse, z / p) == 1
    ensures Value(n) / p >= 0 && Mul(Value(n) / p % TWO_256, inverse) == quotient
  {
    hide Mul, IsWord, Value;
    var w, d := TWO_256, z / p;
    WordOf(quotient, w);
    NonNegative(d, quotient);
    Reassociate(p, d, quotient);
    DivModUnique(Value(n), p, d * quotient, 0);
    MulIs(inverse, d, w);
    QuotientByInverse(w, quotient, d, inverse);
    MulIs(d * quotient % w, inverse, w);
  }
}
