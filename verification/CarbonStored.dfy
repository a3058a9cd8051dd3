/** Carbon's two formulas under scaling: what the cost of an order's whole liquidity is against an input that
would buy more, and orders within the sizes the contract stores. */
module CarbonStored {
  import opened Arith
  import opened Words
  import opened CarbonMath
  import opened CarbonTrade

  // ----- what a quote by source reports: the cost of the whole liquidity against an input that buys more

  /** B Z: what is left of T once the whole liquidity is sold. */
  function Rest(o: Order): nat {
    Times(RateB(o), o.Z)
  }

  /** The target paid never exceeds the exact curve's, for amounts up to `most`: either the inverted form fits
      from one unit on, or it is never used. */
  predicate PaysWithin(o: Order, most: nat) {
    && ParamsFit(o) && IsWord(Times(Tee(o), most))
    && (InvertedFits(RateA(o), Zed(o), Tee(o)) ||
        IsWord(Times(Zed(o), Zed(o)) + Times(Times(Tee(o), most), RateA(o))))
  }

  lemma InvertedFitsFrom(a: nat, z: nat, m: nat, n: nat)
    requires InvertedFits(a, z, m) && m <= n
    ensures InvertedFits(a, z, n)
  {
    hide IsWord, CeilDiv;
    NonNegative(z, z);
    var c := CeilDiv(z * z, m);
    CeilAtMost(z * z, m, c);
    MulMono(m, n, c);
    CeilAtMost(z * z, n, c);
    WordMono(CeilDiv(z * z, n), c);
    WordMono(a + CeilDiv(z * z, n), a + c);
  }

  lemma PlainSumFits(a: nat, z: nat, n: nat)
    requires IsWord(a) && IsWord(z) && IsWord(n) && IsWord(Times(z, z) + Times(n, a))
    ensures !SumOverflows(a, z, n)
  {
    hide MinFactor, RoundedUp, IsWord, Times;
    TimesIs(z, z);
    TimesIs(n, a);
    WordMono(z * z, z * z + n * a);
    WordMono(n * a, z * z + n * a);
    MinFactorIsLeast(z, z, z * z);
    MinFactorIsLeast(n, a, n * a);
    DivideByOne(z * z);
    DivideByOne(n * a);
  }

  lemma NeverUnfit(x: nat, o: Order, most: nat)
    requires 1 <= x <= most && PaysWithin(o, most)
    ensures var n := Times(Tee(o), x);
            && n == Tee(o) * x && IsWord(n)
            && (SumOverflows(RateA(o), Zed(o), n) ==> InvertedFits(RateA(o), Zed(o), n))
  {
    hide IsWord, Times, Tee, Zed, RateA, SumOverflows, InvertedFits;
    var n, m := Times(Tee(o), x), Times(Tee(o), most);
    TimesIs(Tee(o), x);
    TimesIs(Tee(o), most);
    ProductMono(Tee(o), x, Tee(o), most);
    WordMono(n, m);
    RateFits(o);
    if InvertedFits(RateA(o), Zed(o), Tee(o)) {
      MulAtLeast(x, Tee(o));
      InvertedFitsFrom(RateA(o), Zed(o), Tee(o), n);
    } else {
      TimesIs(n, RateA(o));
      TimesIs(m, RateA(o));
      ProductMono(n, RateA(o), m, RateA(o));
      WordMono(Times(Zed(o), Zed(o)) + Times(n, RateA(o)), Times(Zed(o), Zed(o)) + Times(m, RateA(o)));
      PlainSumFits(RateA(o), Zed(o), n);
    }
  }

  lemma Distribute(y: int, u: int, v: int)
    ensures (y + 1) * (u + v) == (y + 1) * u + v + y * v
  {
  }

  lemma TeeTimes(a: int, y: int, rest: int, n: int)
    ensures (a * y + rest) * n == y * (n * a) + rest * n
  {
    assert (a * y) * n == y * (n * a);
  }

  lemma Regroup(rest: int, tt: int, x: int)
    ensures rest * (tt * x) == (tt * rest) * x
  {
  }

  /** An input that buys more than y pays for y + 1 on the exact curve. */
  lemma MoreCosts(y: nat, a: nat, z: nat, rest: nat, tt: nat, x: nat, n: nat, r: nat)
    requires tt == a * y + rest && n == tt * x && r > y && AtMostExact(r, a, z, tt, n)
    ensures (y + 1) * (z * z) + n * a <= (tt * rest) * x
  {
    NonNegative(z, z);
    NonNegative(n, a);
    MulMono(y + 1, r, z * z + n * a);
    Distribute(y, z * z, n * a);
    TeeTimes(a, y, rest, n);
    Regroup(rest, tt, x);
  }

  /** One unit of slack covers what scaling the cost of the whole liquidity can add to it. */
  predicate SlackCovers(factor: nat, y: nat, z: nat, tt: nat, rest: nat) {
    var zz, p := Times(z, z), Times(tt, rest);
    Times(factor, Times(y, p) + Times(y + 1, zz)) <= Times(zz, p)
  }

  lemma SlackIs(factor: nat, y: nat, z: nat, tt: nat, rest: nat)
    ensures SlackCovers(factor, y, z, tt, rest)
       <==> factor * (y * (tt * rest) + (y + 1) * (z * z)) <= (z * z) * (tt * rest)
  {
    hide Times;
    TimesIs(z, z);
    TimesIs(tt, rest);
    NonNegative(z, z);
    NonNegative(tt, rest);
    var zz, p := z * z, tt * rest;
    TimesIs(y, p);
    TimesIs(y + 1, zz);
    TimesIs(factor, y * p + (y + 1) * zz);
    TimesIs(zz, p);
  }

  lemma FactorBelow(f: nat, y: nat, zz: nat, p: nat)
    requires f * (y * p + (y + 1) * zz) <= zz * p && zz > 0
    ensures f <= p
  {
    SlackParts(f, y, zz, p);
    MulCancel((y + 1) * f, p, zz);
    MulAtLeast(y + 1, f);
  }

  lemma SlackParts(f: nat, y: nat, zz: nat, p: nat)
    ensures f * (y * p + (y + 1) * zz) == (y * f) * p + ((y + 1) * f) * zz
    ensures (y * f) * p >= 0 && ((y + 1) * f) * zz >= 0
  {
    SlackSum(f, y * p, (y + 1) * zz);
    assert f * (y * p) == (y * f) * p;
    assert f * ((y + 1) * zz) == ((y + 1) * f) * zz;
    NonNegative(y, f);
    NonNegative(y * f, p);
    NonNegative(y + 1, f);
    NonNegative((y + 1) * f, zz);
  }

  lemma SlackSum(f: int, u: int, v: int)
    ensures f * (u + v) == f * u + f * v
  {
  }

  lemma SlackProduct(s: int, p: int, f: int, y: int, zz: int)
    requires s == (y + 1) * zz
    ensures s * (p - f) == (y * zz) * p + zz * p - ((y + 1) * f) * zz
    ensures (y * (zz + f)) * p == (y * zz) * p + (y * f) * p
  {
    assert s * p == (y * zz) * p + zz * p;
    assert s * f == ((y + 1) * f) * zz;
    assert y * (zz + f) == y * zz + y * f;
  }

  /** With that slack the scaled quotient stays within any input that pays for one unit more. */
  lemma SlackBounds(f: nat, y: nat, zz: nat, p: nat, x: nat)
    requires f * (y * p + (y + 1) * zz) <= zz * p && (y + 1) * zz <= p * x && zz > 0
    ensures y * (zz + f) <= x * (p - f) && p >= f
  {
    FactorBelow(f, y, zz, p);
    SlackParts(f, y, zz, p);
    var s := (y + 1) * zz;
    SlackProduct(s, p, f, y, zz);
    MulMono(s, p * x, p - f);
    Regroup(p - f, p, x);
    PositiveFactor(y + 1, zz, p, x);
    Commute(p * (p - f), x, p, p - f);
    MulCancel(y * (zz + f), x * (p - f), p);
  }

  lemma PositiveFactor(y: nat, zz: nat, p: nat, x: nat)
    requires y > 0 && zz > 0 && y * zz <= p * x
    ensures p > 0
  {
    MulAtLeast(y, zz);
    ZeroTimes(p, x);
  }

  lemma ZeroTimes(p: int, x: int)
    ensures p == 0 ==> p * x == 0
  {
  }

  lemma Commute(q: int, x: int, p: int, d: int)
    requires q == p * d
    ensures q * x == (x * d) * p
  {
  }

  lemma ScaledWithin(f: nat, y: nat, zz: nat, p: nat, z2: nat, d2: nat, x: nat)
    requires f >= 1 && f * z2 < zz + f && f * d2 > p - f && y * (zz + f) <= x * (p - f) && p >= f
    ensures y * z2 <= x * d2
  {
    MulMono(f * z2, zz + f, y);
    MulMono(p - f, f * d2, x);
    assert y * (f * z2) == (y * z2) * f;
    assert x * (f * d2) == (x * d2) * f;
    MulCancel(y * z2, x * d2, f);
  }

  lemma RoundingBounds(zz: nat, p: nat, f: nat)
    requires f >= 1
    ensures f * RoundedUp(zz, f) < zz + f && f * Quotient(p, f) > p - f
  {
    CeilAbove(zz, f, RoundedUp(zz, f));
    assert f * (RoundedUp(zz, f) - 1) == f * RoundedUp(zz, f) - f;
  }

  /** The scaled cost of the whole liquidity is at most any input that pays for one unit more. */
  lemma ScaledCostWithin(f: nat, y: nat, z: nat, tt: nat, rest: nat, x: nat)
    requires f >= 1 && z > 0 && (f == 1 || SlackCovers(f, y, z, tt, rest))
    requires (y + 1) * (z * z) <= (tt * rest) * x
    ensures y * RoundedUp(Times(z, z), f) <= x * Quotient(Times(tt, rest), f)
  {
    hide RoundedUp, Quotient, Times, SlackCovers;
    TimesIs(z, z);
    TimesIs(tt, rest);
    NonNegative(z, z);
    NonNegative(tt, rest);
    MulAtLeast(z, z);
    if f == 1 {
      DivideByOne(z * z);
      DivideByOne(tt * rest);
      assert (y + 1) * (z * z) == y * (z * z) + z * z;
    } else {
      SlackIs(f, y, z, tt, rest);
      RoundingBounds(z * z, tt * rest, f);
      SlackBounds(f, y, z * z, tt * rest, x);
      ScaledWithin(f, y, z * z, tt * rest, RoundedUp(z * z, f), Quotient(tt * rest, f), x);
    }
  }

  /** What rounding can add to the cost of the whole liquidity is covered: there is nothing left to sell it
      against, nothing is scaled, or one unit of slack is enough. */
  predicate RoundingCovered(o: Order) {
    var f := SourceFactor(Zed(o), Tee(o), Rest(o));
    Rest(o) == 0 || f == 1 || SlackCovers(f, o.Y, Zed(o), Tee(o), Rest(o))
  }

  lemma TeeOfRest(o: Order)
    ensures Tee(o) == RateA(o) * o.Y + Rest(o) && Tee(o) - Times(o.Y, RateA(o)) == Rest(o)
  {
    hide Times, ExpandRate;
    TimesIs(RateA(o), o.Y);
    TimesIs(o.Y, RateA(o));
  }

  lemma RestNeedsCapacity(o: Order)
    ensures Rest(o) > 0 ==> Zed(o) > 0
  {
    hide ExpandRate;
  }

  lemma RoundedWithin(t: nat, z2: nat, d2: nat, x: nat)
    requires t > 0 && z2 > 0 && t * z2 <= x * d2 && IsWord(x)
    ensures d2 > 0 && MulDivUp(t, z2, d2) <= x
  {
    hide CeilDiv, IsWord;
    PositiveFactor(t, z2, d2, x);
    CeilAtMost(t * z2, d2, x);
    WordMono(CeilDiv(t * z2, d2), x);
  }

  lemma RoundedUpPositive(n: nat, d: nat)
    requires n > 0 && d > 0
    ensures RoundedUp(n, d) > 0
  {
    CeilAtMost(n, d, 0);
  }

  /** What an amount buys beyond the liquidity is paid for on the exact curve; without a rest there is nothing
      beyond it. */
  lemma BuyingMoreIsPaid(x: nat, o: Order, most: nat)
    requires 1 <= x <= most && Sign(x) > 0 && o.Y > 0 && RateA(o) > 0 && PaysWithin(o, most)
    requires TradeTargetAmount(x, o) > o.Y
    ensures Rest(o) > 0 && (o.Y + 1) * (Zed(o) * Zed(o)) <= (Tee(o) * Rest(o)) * x
  {
    hide TradeTargetAmount, PaysWithin, SumOverflows, InvertedFits, InvertedPaysNothing, IsWord, AtMostExact, Sign, Zed,
      Tee, Rest, Times, RateA;
    var n := Times(Tee(o), x);
    NeverUnfit(x, o, most);
    PaysParams(o, most);
    TargetRoundsDownIff(x, o, n);
    TeeOfRest(o);
    MoreCosts(o.Y, RateA(o), Zed(o), Rest(o), Tee(o), x, n, TradeTargetAmount(x, o));
    TeePositive(o);
    PositiveProduct(Tee(o), x);
    PositiveProduct(n, RateA(o));
    NonNegative(Zed(o), Zed(o));
    NonNegative(o.Y + 1, Zed(o) * Zed(o));
    ZeroRest(Tee(o), Rest(o), x);
  }

  lemma PaysParams(o: Order, most: nat)
    requires PaysWithin(o, most)
    ensures ParamsFit(o)
  {
  }

  lemma PositiveProduct(x: nat, y: nat)
    requires x > 0 && y > 0
    ensures x * y > 0
  {
    MulAtLeast(x, y);
  }

  lemma ZeroRest(tt: int, rest: int, x: int)
    ensures rest == 0 ==> (tt * rest) * x == 0
  {
  }

  /** An amount that would buy more than the liquidity is at least what the whole liquidity costs. */
  lemma BuyingMoreCostsAll(x: nat, o: Order, most: nat)
    requires 1 <= x <= most && IsWord(x) && Sign(x) > 0 && Sign(o.Y) > 0 && o.Y > 0 && RateA(o) > 0
    requires PaysWithin(o, most) && RoundingCovered(o) && TradeTargetAmount(x, o) > o.Y
    ensures TradeSourceAmount(o.Y, o) <= x
  {
    hide TradeTargetAmount, TradeSourceAmount, PaysWithin, IsWord, Sign, Zed, Tee, Rest, Times, RateA, SourceFactor,
      RoundedUp, Quotient, MulDivUp, SlackCovers;
    BuyingMoreIsPaid(x, o, most);
    PaysParams(o, most);
    TeeOfRest(o);
    var z, tt, rest := Zed(o), Tee(o), Rest(o);
    WordMono(Times(o.Y, RateA(o)), tt);
    SourceIsScaled(o.Y, o, Times(o.Y, RateA(o)));
    var f := SourceFactor(z, tt, rest);
    RestNeedsCapacity(o);
    ScaledCostWithin(f, o.Y, z, tt, rest, x);
    TimesIs(z, z);
    PositiveProduct(z, z);
    RoundedUpPositive(Times(z, z), f);
    RoundedWithin(o.Y, RoundedUp(Times(z, z), f), ScaledDen(f, tt, rest), x);
  }

  // ----- orders as the contract stores them

  /** Liquidity within a 128-bit capacity and rates below 2^96. */
  predicate Stored(o: Order) {
    o.Y <= o.Z && o.Z < TWO_128 && RateA(o) < ONE * ONE && RateB(o) < ONE * ONE
  }

  /** A factor above one is at most twice what it has to be. */
  lemma FactorBound(x: nat, y: nat, p: nat)
    requires IsWord(x) && IsWord(y) && p == x * y && MinFactor(x, y) >= 2
    ensures MinFactor(x, y) * U_MAX <= 2 * p
  {
    hide MinFactor, CeilDiv, IsWord;
    MinFactorIsLeast(x, y, p);
    WordAtMost(p, MinFactor(x, y) - 1);
  }

  lemma CancelBound(f: nat, u: nat, p: nat, q: nat, x: nat)
    requires u > 0 && f * u <= 2 * p && 2 * x <= u * q
    ensures f * x <= p * q
  {
    MulMono(f * u, 2 * p, x);
    MulMono(2 * x, u * q, p);
    Swap(f, u, x);
    Swap(p, u, q);
    Doubles(p, x);
    MulCancel(f * x, p * q, u);
  }

  lemma Swap(a: int, b: int, c: int)
    ensures (a * b) * c == (a * c) * b && a * (b * c) == (a * c) * b
  {
  }

  lemma Doubles(p: int, x: int)
    ensures (2 * p) * x == p * (2 * x)
  {
  }

  /** The square of the scaled capacity and the product of T with its rest, compared. */
  lemma SquareAgainstProduct(cap: nat, c: nat, tt: nat, rest: nat)
    requires cap <= rest <= c * cap && rest <= tt <= 2 * (c * cap)
    ensures 0 <= c * (cap * cap) <= c * (tt * rest) && tt * rest <= 2 * c * (c * (cap * cap))
  {
    ProductMono(cap, cap, tt, rest);
    MulMono(cap * cap, tt * rest, c);
    NonNegative(c, cap * cap);
    NonNegative(c, cap);
    ProductMono(tt, rest, 2 * (c * cap), c * cap);
    assert (2 * (c * cap)) * (c * cap) == 2 * c * (c * (cap * cap));
  }

  /** What slack has to cover, if the other product is at most k times q. */
  lemma SlackAgainst(y: nat, k: nat, q: nat, u: nat, other: nat)
    requires other <= k * q && 2 * ((y + 1) * (k + 1)) <= u
    ensures 0 <= (y + 1) * other && 0 <= (y + 1) * q
    ensures 2 * ((y + 1) * other + (y + 1) * q) <= u * q
  {
    NonNegative(y + 1, other);
    NonNegative(y + 1, q);
    MulMono(other, k * q, y + 1);
    MulMono(2 * ((y + 1) * (k + 1)), u, q);
    Expand(y + 1, k, q);
  }

  lemma Expand(y: int, k: int, q: int)
    ensures (2 * (y * (k + 1))) * q == 2 * (y * (k * q) + y * q)
  {
    assert (2 * (y * (k + 1))) * q == 2 * ((y * (k + 1)) * q);
    assert (y * (k + 1)) * q == y * (k * q) + y * q;
  }

  lemma SlackSumBelow(y: nat, p: nat, zz: nat)
    ensures 0 <= y * p + (y + 1) * zz <= (y + 1) * p + (y + 1) * zz
  {
    NonNegative(y, p);
    NonNegative(y + 1, zz);
    MulMono(y, y + 1, p);
  }

  lemma StoredSizes(o: Order)
    requires Stored(o) && RateA(o) > 0 && RateB(o) > 0
    ensures ParamsFit(o) && o.Z <= Rest(o) <= (ONE * ONE) * o.Z && Rest(o) <= Tee(o) <= 2 * ((ONE * ONE) * o.Z)
    ensures Zed(o) * Zed(o) == (ONE * ONE) * (o.Z * o.Z)
  {
    hide ExpandRate, Times;
    TimesIs(RateA(o), o.Y);
    TimesIs(RateB(o), o.Z);
    var a, b := RateA(o), RateB(o);
    hide RateA, RateB;
    ProductMono(a, o.Y, ONE * ONE, o.Z);
    MulMono(1, b, o.Z);
    MulMono(b, ONE * ONE, o.Z);
    SquareScaled(o.Z, ONE);
  }

  lemma SquareScaled(z: int, one: int)
    ensures (z * one) * (z * one) == (one * one) * (z * z)
  {
  }

  /** The inverted form of a stored order fits a word from one unit on. */
  lemma StoredInverts(o: Order)
    requires Stored(o) && RateA(o) > 0 && RateB(o) > 0 && o.Y > 0
    ensures InvertedFits(RateA(o), Zed(o), Tee(o))
  {
    hide ExpandRate, Times, CeilDiv;
    StoredSizes(o);
    var z := Zed(o);
    NonNegative(z, z);
    MulMono(o.Z, Tee(o), (ONE * ONE) * o.Z);
    Regroup(o.Z, ONE * ONE, o.Z);
    CeilAtMost(z * z, Tee(o), (ONE * ONE) * o.Z);
  }

  /** Scaling the cost of a stored order's whole liquidity never adds more than a unit's worth. */
  lemma StoredCovered(o: Order)
    requires Stored(o) && RateA(o) > 0 && RateB(o) > 0
    ensures RoundingCovered(o)
  {
    hide RateA, RateB, Times, MinFactor, IsWord, SlackCovers, Stored, ParamsFit, Zed, Tee, Rest;
    StoredSizes(o);
    StoredLiquidity(o);
    StoredWords(o);
    var z, tt, rest := Zed(o), Tee(o), Rest(o);
    var f := SourceFactor(z, tt, rest);
    if f > 1 {
      var zz, p := z * z, tt * rest;
      NonNegative(z, z);
      NonNegative(tt, rest);
      SquareAgainstProduct(o.Z, ONE * ONE, tt, rest);
      SlackSumBelow(o.Y, p, zz);
      SlackIs(f, o.Y, z, tt, rest);
      if f == MinFactor(z, z) {
        FactorBound(z, z, zz);
        SlackAgainst(o.Y, ONE * ONE, p, U_MAX, zz);
        CancelBound(f, U_MAX, zz, p, o.Y * p + (o.Y + 1) * zz);
      } else {
        FactorBound(tt, rest, p);
        SlackAgainst(o.Y, 2 * (ONE * ONE), zz, U_MAX, p);
        CancelBound(f, U_MAX, p, zz, o.Y * p + (o.Y + 1) * zz);
        Regroup(p, zz, 1);
      }
    }
  }

  lemma StoredWords(o: Order)
    requires Stored(o) && ParamsFit(o) && Rest(o) <= Tee(o)
    ensures IsWord(Zed(o)) && IsWord(Tee(o)) && IsWord(Rest(o))
  {
    hide Zed, Tee, Rest;
  }

  lemma StoredLiquidity(o: Order)
    requires Stored(o)
    ensures 2 * ((o.Y + 1) * (ONE * ONE + 1)) <= U_MAX && 2 * ((o.Y + 1) * (2 * (ONE * ONE) + 1)) <= U_MAX
  {
    hide RateA, RateB;
  }

  /** The target paid for a stored order with a positive lower price never exceeds the exact curve's. */
  lemma StoredTargetRoundsDown(x: nat, o: Order, n: nat)
    requires Stored(o) && RateA(o) > 0 && RateB(o) > 0 && o.Y > 0
    requires n == Tee(o) * x && IsWord(n) && Sign(x) > 0
    ensures AtMostExact(TradeTargetAmount(x, o), RateA(o), Zed(o), Tee(o), n)
  {
    hide TradeTargetAmount, Stored, SumOverflows, InvertedFits, InvertedPaysNothing, IsWord, AtMostExact, Zed, Tee,
      RateA, RateB, Times, Sign;
    StoredSizes(o);
    StoredInverts(o);
    TimesIs(Tee(o), x);
    SignPositive(x);
    NeverUnfit(x, o, x);
    TargetRoundsDownIff(x, o, n);
  }

  /** A factor is small against both products it scales. */
  lemma SmallFactor(f: nat, u: nat, c: nat, t: nat, zz: nat, p: nat)
    requires f * u <= 2 * (c * p) && zz <= c * p && t * c + 4 * c <= u && t <= u && c >= 1
    ensures f <= p && t * (zz + f) <= u * (p - f)
  {
    MulMono(zz, c * p, t);
    MulMono(t, u, f);
    MulMono(t * c + 4 * c, u, p);
    assert (t * c + 4 * c) * p == t * (c * p) + 4 * (c * p);
    assert t * (zz + f) == t * zz + t * f;
    assert u * (p - f) == u * p - f * u;
    NonNegative(t, c);
    NonNegative(c, p);
    NonNegative(t, c * p);
    MulMono(4 * c, u, p);
    FactorAtMost(f, u, c, p);
  }

  lemma FactorAtMost(f: nat, u: nat, c: nat, p: nat)
    requires f * u <= 2 * (c * p) && 4 * c <= u && c >= 1
    ensures f <= p
  {
    MulMono(4 * c, u, f);
    assert (4 * c) * f == (4 * f) * c;
    assert 2 * (c * p) == (2 * p) * c;
    assert f * u == u * f;
    MulCancel(4 * f, 2 * p, c);
  }

  /** Any part of a stored order's liquidity is sold at or above the exact curve, if its lower price is positive. */
  lemma StoredSourceRoundsUp(t: nat, o: Order, at: nat)
    requires Stored(o) && RateA(o) > 0 && RateB(o) > 0 && 0 < t <= o.Y && at == Times(t, RateA(o))
    ensures Tee(o) > at && AtLeastExact(TradeSourceAmount(t, o), t, Zed(o), Tee(o), Tee(o) - at)
  {
    hide TradeSourceAmount, Stored, IsWord, Zed, Tee, Rest, RateA, RateB, Times, SourceFactor, RoundedUp, Quotient,
      MulDivUp, AtLeastExact, Sign;
    StoredSizes(o);
    StoredPart(t, o, at);
    var z, tt, d := Zed(o), Tee(o), Tee(o) - at;
    SourceIsScaled(t, o, at);
    var f := SourceFactor(z, tt, d);
    var z2, d2 := RoundedUp(Times(z, z), f), ScaledDen(f, tt, d);
    StoredCostWithin(t, o, d);
    TimesIs(z, z);
    RestNeedsCapacity(o);
    PositiveProduct(z, z);
    RoundedUpPositive(Times(z, z), f);
    QuotientFits(t, z2, d2);
    SourceCovers(t, z, tt, d, f, z2, d2);
  }

  lemma QuotientFits(t: nat, z2: nat, d2: nat)
    requires t > 0 && z2 > 0 && t * z2 <= U_MAX * d2
    ensures d2 > 0 && MulDivUp(t, z2, d2) == RoundedUp(Times(t, z2), d2)
  {
    hide CeilDiv, Times;
    PositiveFactor(t, z2, d2, U_MAX);
    CeilAtMost(t * z2, d2, U_MAX);
    TimesIs(t, z2);
  }

  lemma StoredPart(t: nat, o: Order, at: nat)
    requires Stored(o) && RateA(o) > 0 && RateB(o) > 0 && 0 < t <= o.Y && at == Times(t, RateA(o)) && ParamsFit(o)
    requires o.Z <= Rest(o)
    ensures 0 < Rest(o) <= Tee(o) - at && IsWord(at) && Sign(t) > 0 && t < TWO_128
  {
    hide Times, RateA, RateB;
    TimesIs(t, RateA(o));
    TimesIs(RateA(o), o.Y);
    MulMono(t, o.Y, RateA(o));
  }

  /** The scaled cost of part of a stored order's liquidity fits a word. */
  lemma StoredCostWithin(t: nat, o: Order, d: nat)
    requires Stored(o) && RateA(o) > 0 && RateB(o) > 0 && t < TWO_128
    requires ParamsFit(o) && o.Z <= Rest(o) <= d <= Tee(o)
    ensures var f := SourceFactor(Zed(o), Tee(o), d);
            f >= 1 && t * RoundedUp(Times(Zed(o), Zed(o)), f) <= U_MAX * Quotient(Times(Tee(o), d), f)
  {
    hide Stored, IsWord, Zed, Tee, Rest, RateA, RateB, Times, MinFactor, RoundedUp, Quotient;
    StoredSizes(o);
    var z, tt := Zed(o), Tee(o);
    var f, zz, p := SourceFactor(z, tt, d), z * z, tt * d;
    WordMono(d, tt);
    StoredWords(o);
    TimesIs(z, z);
    TimesIs(tt, d);
    NonNegative(z, z);
    NonNegative(tt, d);
    ProductMono(o.Z, o.Z, tt, d);
    MulMono(o.Z * o.Z, p, ONE * ONE);
    SizesOfPart(t);
    if f == 1 {
      DivideByOne(zz);
      DivideByOne(p);
      CostOfPart(t, zz, p, ONE * ONE, U_MAX);
    } else {
      MulAtLeast(ONE * ONE, p);
      if f == MinFactor(z, z) {
        FactorBound(z, z, zz);
      } else {
        FactorBound(tt, d, p);
      }
      SmallFactor(f, U_MAX, ONE * ONE, t, zz, p);
      RoundingBounds(zz, p, f);
      ScaledWithin(f, t, zz, p, RoundedUp(zz, f), Quotient(p, f), U_MAX);
    }
  }

  lemma CostOfPart(t: nat, zz: nat, p: nat, c: nat, u: nat)
    requires zz <= c * p && t * c + 4 * c <= u
    ensures t * zz <= u * p
  {
    MulMono(zz, c * p, t);
    MulMono(t * c, u, p);
    assert t * (c * p) == (t * c) * p;
  }

  lemma SizesOfPart(t: nat)
    requires t < TWO_128
    ensures t * (ONE * ONE) + 4 * (ONE * ONE) <= U_MAX && t <= U_MAX
  {
  }

  /** Any amount below 2^128 of an order with constant price is sold at or above that price, unless its square wraps
      to zero. */
  lemma FlatFieldRoundsUp(t: nat, o: Order)
    requires 0 < t < TWO_128 && o.Y > 0 && RateA(o) == 0 && Mul(RateB(o), RateB(o)) > 0
    ensures AtLeastFlat(TradeSourceAmount(t, o), t, RateB(o))
  {
    hide TradeSourceAmount, RateA, RateB, Mul, Times, AtLeastFlat, CeilDiv;
    FlatSourceRoundsUpIff(t, o);
    var bSq := Mul(RateB(o), RateB(o));
    TimesIs(t, ONE * ONE);
    SizesOfPart(t);
    MulAtLeast(bSq, t * (ONE * ONE));
    CeilAtMost(t * (ONE * ONE), bSq, t * (ONE * ONE));
  }
}
