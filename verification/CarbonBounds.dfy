/** How close Carbon's amounts come to the exact curve from the other side: what the rounding and the scaling lose. */
module CarbonBounds {
  import opened Arith
  import opened Words
  import opened CarbonMath
  import opened CarbonTrade

  // ----- ceilings and floors of one product, once scaled

  lemma CeilWithin(n: nat, f: nat)
    requires f > 0
    ensures RoundedUp(n, f) * f < n + f
  {
    hide CeilDiv;
    CeilAtMost(n, f, RoundedUp(n, f) - 1);
    assert f * (RoundedUp(n, f) - 1) == RoundedUp(n, f) * f - f;
  }

  lemma FloorWithin(n: nat, f: nat)
    requires f > 0
    ensures Quotient(n, f) * f > n - f
  {
    FloorAtLeast(n, f, Quotient(n, f) + 1);
    assert f * (Quotient(n, f) + 1) == Quotient(n, f) * f + f;
  }

  // ----- the target is not far below the curve

  /** r is at most one unit, and what two units of each scaled product make, below T n / (Z^2 + n A). */
  predicate NotFarBelow(r: nat, a: nat, z: nat, tt: nat, n: nat, f: nat) {
    (r + 1) * (z * z + n * a + 2 * f) > tt * (n - f)
  }

  /** In the inverted form: at most one unit, and what one unit of Z^2 / n makes. */
  predicate NotFarBelowInverted(r: nat, a: nat, z: nat, tt: nat, n: nat) {
    (r + 1) * (z * z + n * a + n) > tt * n
  }

  lemma ScaledLower(tt: nat, n: nat, a: nat, z: nat, f: nat, z2: nat, na: nat, num: nat, r: nat)
    requires f > 0 && z2 * f < z * z + f && na * f < n * a + f && num * f > n - f && (r + 1) * (z2 + na) > tt * num
    ensures NotFarBelow(r, a, z, tt, n, f)
  {
    var den := z2 + na;
    assert den * f == z2 * f + na * f;
    MulMono(den * f, z * z + n * a + 2 * f, r + 1);
    MulMono(tt * num + 1, (r + 1) * den, f);
    assert (r + 1) * den * f == (r + 1) * (den * f);
    assert (tt * num + 1) * f == tt * (num * f) + f;
    MulMono(n - f, num * f, tt);
  }

  lemma FlooredAbove(n: nat, d: nat)
    requires d > 0
    ensures (Quotient(n, d) + 1) * d > n
  {
    FloorAtLeast(n, d, Quotient(n, d) + 1);
  }

  /** The scaled quotient is at most T, and so a word. */
  lemma ScaledAtMostT(tt: nat, num: nat, den: nat)
    requires 0 < den && num <= den && IsWord(tt)
    ensures tt * num >= 0 && Quotient(tt * num, den) <= tt && MulDivDown(tt, num, den) == Quotient(tt * num, den)
  {
    NonNegative(tt, num);
    MulMono(num, den, tt);
    FloorAtLeast(tt * num, den, tt + 1);
    assert den * (tt + 1) == den * tt + den;
  }

  lemma PositiveFactor(x: nat, f: nat)
    requires x * f > 0
    ensures x > 0
  {
  }

  lemma NumeratorBelow(n: nat, a: nat, f: nat, na: nat, num: nat)
    requires a > 0 && f > 0 && num * f <= n && n * a <= na * f
    ensures num <= na
  {
    MulAtLeast(a, n);
    MulCancel(num, na, f);
  }

  lemma TargetOfNotFarBelow(a: nat, z: nat, tt: nat, n: nat)
    requires 0 < a && IsWord(a) && IsWord(z) && IsWord(n) && n > 0 && IsWord(tt)
    ensures !SumOverflows(a, z, n) ==> NotFarBelow(TargetOf(a, z, tt, n), a, z, tt, n, TargetFactor(a, z, n))
    ensures SumOverflows(a, z, n) && InvertedFits(a, z, n) ==> NotFarBelowInverted(TargetOf(a, z, tt, n), a, z, tt, n)
  {
    hide MinFactor, RoundedUp, Quotient, MulDivUp, MulDivDown, IsWord, Add, Div, NotFarBelow, NotFarBelowInverted;
    var f := TargetFactor(a, z, n);
    NonNegative(z, z);
    MinFactorIsLeast(z, z, z * z);
    UpFits(z, z, f, z * z);
    NonNegative(n, a);
    MinFactorIsLeast(n, a, n * a);
    UpFits(n, a, f, n * a);
    var z2, na := RoundedUp(z * z, f), RoundedUp(n * a, f);
    if IsWord(z2 + na) {
      SumFits(z2, na);
      ScaledPart(a, z, tt, n, f);
    } else {
      SumWraps(z2, na);
      if InvertedFits(a, z, n) {
        InvertedMulDivUp(z, n);
        SumFits(a, RoundedUp(z * z, n));
        InvertedPart(a, z, tt, n, RoundedUp(z * z, n));
      }
    }
  }

  lemma ScaledPart(a: nat, z: nat, tt: nat, n: nat, f: nat)
    requires 0 < a && n > 0 && IsWord(tt) && f > 0
    ensures z * z >= 0 && n * a >= 0
    ensures var den := RoundedUp(z * z, f) + RoundedUp(n * a, f);
            den > 0 && NotFarBelow(MulDivDown(tt, Quotient(n, f), den), a, z, tt, n, f)
  {
    hide RoundedUp, Quotient, MulDivDown, IsWord, NotFarBelow;
    NonNegative(z, z);
    NonNegative(n, a);
    MulAtLeast(a, n);
    var z2, na, num := RoundedUp(z * z, f), RoundedUp(n * a, f), Quotient(n, f);
    CeilWithin(z * z, f);
    CeilWithin(n * a, f);
    CeilCovers(n * a, f);
    FloorWithin(n, f);
    QuotientCovers(n, f);
    NumeratorBelow(n, a, f, na, num);
    PositiveFactor(na, f);
    ScaledAtMostT(tt, num, z2 + na);
    FlooredAbove(tt * num, z2 + na);
    ScaledLower(tt, n, a, z, f, z2, na, num, MulDivDown(tt, num, z2 + na));
  }

  lemma InvertedPart(a: nat, z: nat, tt: nat, n: nat, c: nat)
    requires 0 < a && n > 0 && z * z >= 0 && c == RoundedUp(z * z, n)
    ensures NotFarBelowInverted(Div(tt, a + c), a, z, tt, n)
  {
    hide RoundedUp, Div;
    CeilWithin(z * z, n);
    DivIs(tt, a + c);
    var r := Div(tt, a + c);
    FloorAtLeast(tt, a + c, r + 1);
    MulMono(tt + 1, (a + c) * (r + 1), n);
    assert (a + c) * n == n * a + c * n;
    MulMono((a + c) * n, z * z + n * a + n, r + 1);
    assert (a + c) * (r + 1) * n == (r + 1) * ((a + c) * n);
    assert (tt + 1) * n == tt * n + n;
  }

  /** What a source amount buys of a sloped order is, scaled or not, at most that far below the exact curve. */
  lemma TargetNotFarBelow(x: nat, o: Order, n: nat)
    requires ParamsFit(o) && n == Times(Tee(o), x) && IsWord(n) && Sign(x) > 0 && o.Y > 0 && RateA(o) > 0
    ensures var r, a, z, tt := TradeTargetAmount(x, o), RateA(o), Zed(o), Tee(o);
            && (!SumOverflows(a, z, n) ==> NotFarBelow(r, a, z, tt, n, TargetFactor(a, z, n)))
            && (SumOverflows(a, z, n) && InvertedFits(a, z, n) ==> NotFarBelowInverted(r, a, z, tt, n))
  {
    hide ExpandRate, TargetOf, Mul, Add, SumOverflows, InvertedFits, IsWord, Sign, Times, NotFarBelow,
      NotFarBelowInverted, TargetFactor, Zed, Tee;
    SignPositive(x);
    TeeOfWords(o);
    RateFits(o);
    TeePositive(o);
    TimesIs(Tee(o), x);
    MulAtLeast(Tee(o), x);
    ProductFits(Tee(o), x, n);
    TargetOfNotFarBelow(RateA(o), Zed(o), Tee(o), n);
  }

  // ----- the source is not far above the curve

  /** r is at most one unit, and what one unit of each scaled product makes, above t Z^2 / (T d). */
  predicate NotFarAbove(r: nat, t: nat, z: nat, tt: nat, d: nat, f: nat) {
    (r - 1) * (tt * d - f) < t * (z * z + f)
  }

  lemma SourceScalesUp(t: nat, z: nat, den: nat, f: nat, z2: nat, d2: nat, r: nat)
    requires f > 0 && t > 0 && r > 0 && z2 * f < z * z + f && d2 * f > den - f && (r - 1) * d2 < t * z2
    ensures (r - 1) * (den - f) < t * (z * z + f)
  {
    MulMono(den - f, d2 * f, r - 1);
    MulMono(z2 * f, z * z + f, t);
    ScaleBoth((r - 1) * d2, t * z2, f);
    Regroup(r - 1, d2, f);
    Regroup(t, z2, f);
  }

  lemma ScaleBoth(x: int, y: int, f: int)
    requires x < y && f > 0
    ensures x * f < y * f
  {
  }

  lemma Regroup(x: int, y: int, f: int)
    ensures x * (y * f) == x * y * f
  {
  }

  /** What a target amount of a sloped order costs is, scaled or not, at most that far above the exact curve, where its
      cost fits a word. */
  lemma SourceNotFarAbove(t: nat, o: Order, at: nat)
    requires ParamsFit(o) && at == Times(t, RateA(o)) && IsWord(at) && Sign(t) > 0 && o.Y > 0 && RateA(o) > 0
    ensures var r, z, tt, d := TradeSourceAmount(t, o), Zed(o), Tee(o), Tee(o) - at;
            d > 0 ==>
              var f := SourceFactor(z, tt, d);
              f > 0 && (ScaledDen(f, tt, d) > 0 && CostFits(f, t, z, tt, d) ==> NotFarAbove(r, t, z, tt, d, f))
  {
    hide TradeSourceAmount, ParamsFit, RateA, MulDivDown, IsWord, SourceFactor, RoundedUp, Quotient, Sign, Zed, Tee,
      Times, NotFarAbove;
    SourceIsScaled(t, o, at);
    if Tee(o) > at {
      var z, tt, d := Zed(o), Tee(o), Tee(o) - at;
      var f := SourceFactor(z, tt, d);
      if ScaledDen(f, tt, d) > 0 && CostFits(f, t, z, tt, d) {
        SignPositive(t);
        CostWithin(t, z, tt, d, f);
      }
    }
  }

  lemma CostWithin(t: nat, z: nat, tt: nat, d: nat, f: nat)
    requires t > 0 && f > 0 && ScaledDen(f, tt, d) > 0 && CostFits(f, t, z, tt, d)
    ensures NotFarAbove(MulDivUp(t, RoundedUp(Times(z, z), f), ScaledDen(f, tt, d)), t, z, tt, d, f)
  {
    hide RoundedUp, Quotient, Times, IsWord;
    TimesIs(z, z);
    TimesIs(tt, d);
    var z2, d2 := RoundedUp(z * z, f), Quotient(tt * d, f);
    TimesIs(t, z2);
    CeilWithin(z * z, f);
    FloorWithin(tt * d, f);
    CeilWithin(t * z2, d2);
    var r := RoundedUp(t * z2, d2);
    if r > 0 {
      assert (r - 1) * d2 == r * d2 - d2;
      SourceScalesUp(t, z, tt * d, f, z2, d2, r);
    } else {
      QuotientCovers(tt * d, f);
      NothingCosts(t, z, tt * d, f, d2);
    }
  }

  lemma NothingCosts(t: nat, z: nat, den: nat, f: nat, d2: nat)
    requires t > 0 && f > 0 && d2 > 0 && d2 * f <= den
    ensures (0 - 1) * (den - f) < t * (z * z + f)
  {
    MulMono(1, d2, f);
    NonNegative(z, z);
    MulAtLeast(t, z * z + f);
  }

  // ----- constant prices, exactly

  /** A constant-price order pays the exact floor. */
  lemma FlatTargetIs(x: nat, o: Order)
    requires 0 < x < TWO_255 && o.Y > 0 && RateA(o) == 0
    requires RateB(o) * RateB(o) < TWO_256 && Quotient(x * (RateB(o) * RateB(o)), ONE * ONE) < TWO_256
    ensures TradeTargetAmount(x, o) == Quotient(x * (RateB(o) * RateB(o)), ONE * ONE)
  {
    hide ExpandRate, Mul, Quotient;
    var b := RateB(o);
    ProductFits(b, b, b * b);
    WordBelow(Quotient(x * (b * b), ONE * ONE));
    if b == 0 {
      NoRate(x);
    }
  }

  lemma NoRate(x: nat)
    ensures Quotient(x * (0 * 0), ONE * ONE) == 0
  {
  }

  /** And charges the exact ceiling. */
  lemma FlatSourceIs(t: nat, o: Order)
    requires 0 < t < TWO_255 && o.Y > 0 && RateA(o) == 0 && RateB(o) > 0
    requires RateB(o) * RateB(o) < TWO_256 && RoundedUp(t * (ONE * ONE), RateB(o) * RateB(o)) < TWO_256
    ensures TradeSourceAmount(t, o) == RoundedUp(t * (ONE * ONE), RateB(o) * RateB(o))
  {
    hide ExpandRate, Mul, RoundedUp, MulDivDown;
    var b := RateB(o);
    MulAtLeast(b, b);
    ProductFits(b, b, b * b);
  }

  /** So the source amount is the least that buys the target, at constant prices too. */
  lemma FlatLeastInput(x: nat, t: nat, o: Order)
    requires 0 < x < TWO_255 && 0 < t < TWO_255 && o.Y > 0 && RateA(o) == 0 && RateB(o) > 0
    requires RateB(o) * RateB(o) < TWO_256 && Quotient(x * (RateB(o) * RateB(o)), ONE * ONE) < TWO_256
    requires RoundedUp(t * (ONE * ONE), RateB(o) * RateB(o)) < TWO_256
    ensures TradeTargetAmount(x, o) >= t <==> x >= TradeSourceAmount(t, o)
  {
    hide ExpandRate, TradeTargetAmount, TradeSourceAmount, CeilDiv;
    FlatTargetIs(x, o);
    FlatSourceIs(t, o);
    var p := RateB(o) * RateB(o);
    MulAtLeast(RateB(o), RateB(o));
    NonNegative(x, p);
    FloorAtLeast(x * p, ONE * ONE, t);
    CeilAtMost(t * (ONE * ONE), p, x);
    assert x * p == p * x;
  }
}
