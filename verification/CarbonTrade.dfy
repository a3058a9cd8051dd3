/** Carbon's curve: how much target a source amount buys and how much source a target amount costs. */
module CarbonTrade {
  import opened Arith
  import opened Bits
  import opened Words
  import opened CarbonMath

  const ONE: nat := TWO_48
  const U_MAX: nat := TWO_256 - 1

  /** An order: liquidity Y out of capacity Z, and two rates in compressed form. */
  datatype Order = Order(Y: nat, Z: nat, A: nat, B: nat)

  function ExpandRate(rate: nat): nat {
    if rate == 0 then 0 else Shl(rate % ONE, rate / ONE) % TWO_256
  }

  function Quotient(n: nat, d: nat): nat {
    if d == 0 then 0 else DivNat(n, d); n / d
  }

  function RoundedUp(n: nat, d: nat): nat {
    if d == 0 then 0 else CeilDiv(n, d)
  }

  /** Quotient rounded down, cut to a word. */
  function MulDivDown(x: nat, y: nat, d: nat): nat {
    Quotient(x * y, d) % TWO_256
  }

  /** Quotient rounded up; one that does not fit a word is instead rounded down and cut to a word. */
  function MulDivUp(x: nat, y: nat, d: nat): nat {
    if IsWord(RoundedUp(x * y, d)) then RoundedUp(x * y, d) else MulDivDown(x, y, d)
  }

  // ----- the two formulas

  function TargetFactor(a: nat, temp1: nat, temp3: nat): nat {
    Max(1, Max(MinFactor(temp1, temp1), MinFactor(temp3, a)))
  }

  /** x T^2 / (A x T + Z^2) for `temp1` = Z, `temp2` = T, `temp3` = x T. */
  function TargetOf(a: nat, temp1: nat, temp2: nat, temp3: nat): nat {
    var factor := TargetFactor(a, temp1, temp3);
    var temp4 := MulDivUp(temp1, temp1, factor);
    var temp5 := Add(temp4, MulDivUp(temp3, a, factor));
    if temp5 >= temp4 then MulDivDown(temp2, Quotient(temp3, factor), temp5)
    else Div(temp2, Add(a, MulDivUp(temp1, temp1, temp3)))
  }

  function TradeTargetAmount(x: nat, o: Order): nat {
    var a, b := ExpandRate(o.A), ExpandRate(o.B);
    if Sign(x) <= 0 || o.Y == 0 || (a == 0 && b == 0) then 0
    else if a == 0 then MulDivDown(x, Mul(b, b), ONE * ONE)
    else
      var temp2 := Add(Mul(a, o.Y), Mul(b, o.Z));
      TargetOf(a, Mul(o.Z, ONE), temp2, Mul(temp2, x))
  }

  function SourceFactor(temp1: nat, temp2: nat, temp3: nat): nat {
    Max(1, Max(MinFactor(temp1, temp1), MinFactor(temp2, temp3)))
  }

  /** t Z^2 / (T (T - A t)) for `temp1` = Z, `temp2` = T, `temp3` = T - A t, with both products scaled down. */
  function ScaledSource(factor: nat, t: nat, temp1: nat, temp2: nat, temp3: nat): nat {
    var temp4 := MulDivUp(temp1, temp1, factor);
    var temp5 := MulDivDown(temp2, temp3, factor);
    if temp5 == 0 then U_MAX else MulDivUp(t, temp4, temp5)
  }

  function SourceOf(t: nat, temp1: nat, temp2: nat, temp3: nat): nat {
    ScaledSource(SourceFactor(temp1, temp2, temp3), t, temp1, temp2, temp3)
  }

  function TradeSourceAmount(t: nat, o: Order): nat {
    var a, b := ExpandRate(o.A), ExpandRate(o.B);
    if Sign(t) <= 0 then 0
    else if o.Y == 0 || (a == 0 && b == 0) then U_MAX
    else if a == 0 then
      var bSq := Mul(b, b);
      if bSq == 0 then U_MAX else MulDivUp(t, ONE * ONE, bSq)
    else
      var temp2 := Add(Mul(o.Y, a), Mul(o.Z, b));
      var at := Mul(t, a);
      if temp2 <= at then U_MAX else SourceOf(t, Mul(o.Z, ONE), temp2, temp2 - at)
  }

  // ----- quotient facts, free of words

  lemma CeilCovers(n: nat, d: nat)
    requires d > 0
    ensures n <= RoundedUp(n, d) * d
  {
    CeilAtMost(n, d, CeilDiv(n, d));
  }

  lemma QuotientCovers(n: nat, d: nat)
    ensures Quotient(n, d) * d <= n
  {
  }

  lemma QuotientBelowCeil(n: nat, d: nat)
    requires d > 0
    ensures Quotient(n, d) <= RoundedUp(n, d)
  {
    FloorBelowCeil(n, d);
  }

  lemma DivCovers(x: nat, y: nat)
    ensures Div(x, y) * y <= x
  {
    hide Div;
    if y > 0 {
      DivIs(x, y);
    } else {
      assert Div(x, y) * y == 0;
    }
  }

  lemma DivideByOne(n: nat)
    ensures RoundedUp(n, 1) == n && Quotient(n, 1) == n
  {
  }

  /** Scaling both parts of the denominator up and the numerator down only lowers the quotient. */
  lemma ScaledTarget(tt: nat, n: nat, a: nat, z: nat, f: nat, z2: nat, na: nat, num: nat, r: nat)
    requires z * z <= z2 * f && n * a <= na * f && num * f <= n && r * (z2 + na) <= tt * num
    ensures r * (z * z + n * a) <= tt * n
  {
    MulMono(z * z + n * a, (z2 + na) * f, r);
    MulMono(r * (z2 + na), tt * num, f);
    MulMono(num * f, n, tt);
    assert r * ((z2 + na) * f) == (r * (z2 + na)) * f;
    assert (tt * num) * f == tt * (num * f);
  }

  lemma InvertedTarget(tt: nat, n: nat, a: nat, z: nat, c: nat, r: nat)
    requires z * z <= c * n && r * (a + c) <= tt
    ensures r * (z * z + n * a) <= tt * n
  {
    MulMono(z * z + n * a, (a + c) * n, r);
    assert (a + c) * n == n * a + c * n;
    MulMono(r * (a + c), tt, n);
    assert r * ((a + c) * n) == (r * (a + c)) * n;
  }

  /** Scaling the numerator up and the denominator down only raises the quotient. */
  lemma SourceScales(t: nat, z: nat, den: nat, f: nat, z2: nat, d2: nat, r: nat)
    requires z * z <= z2 * f && d2 * f <= den && t * z2 <= r * d2
    ensures t * (z * z) <= r * den
  {
    MulMono(z * z, z2 * f, t);
    MulMono(t * z2, r * d2, f);
    MulMono(d2 * f, den, r);
    assert t * (z2 * f) == (t * z2) * f;
    assert (r * d2) * f == r * (d2 * f);
  }

  // ----- rounding direction in every branch

  lemma UpFits(x: nat, y: nat, f: nat, p: nat)
    requires p == x * y && f >= 1 && IsWord(CeilDiv(p, f))
    ensures MulDivUp(x, y, f) == RoundedUp(p, f) == CeilDiv(p, f)
  {
  }

  lemma MulDivDownCovers(x: nat, y: nat, d: nat)
    ensures MulDivDown(x, y, d) * d <= x * y
  {
    hide Quotient;
    var q := Quotient(x * y, d);
    QuotientCovers(x * y, d);
    WordBelow(q);
    MulMono(q % TWO_256, q, d);
  }

  /** Whether the summed denominator overflows a word. */
  predicate SumOverflows(a: nat, z: nat, n: nat) {
    var f := TargetFactor(a, z, n);
    NonNegative(z, z);
    NonNegative(n, a);
    !IsWord(RoundedUp(z * z, f) + RoundedUp(n * a, f))
  }

  /** What the inverted form, used when the summed denominator overflows, needs to fit a word. */
  predicate InvertedFits(a: nat, z: nat, n: nat) {
    n > 0 && IsWord(RoundedUp(z * z, n)) && IsWord(a + RoundedUp(z * z, n))
  }

  /** r is at most T n / (Z^2 + n A), the exact curve for n = x T. */
  predicate AtMostExact(r: nat, a: nat, z: nat, tt: nat, n: nat) {
    r * (z * z + n * a) <= tt * n
  }

  /** r is at least t Z^2 / (T d), the exact curve for d = T - A t. */
  predicate AtLeastExact(r: nat, t: nat, z: nat, tt: nat, d: nat) {
    t * (z * z) <= r * (tt * d)
  }

  /** The target formula never pays more than the exact curve, scaled or inverted. */
  lemma TargetOfRoundsDown(a: nat, z: nat, tt: nat, n: nat)
    requires IsWord(a) && IsWord(z) && IsWord(n)
    requires SumOverflows(a, z, n) ==> InvertedFits(a, z, n)
    ensures AtMostExact(TargetOf(a, z, tt, n), a, z, tt, n)
  {
    hide MinFactor, RoundedUp, Quotient, MulDivUp, MulDivDown, IsWord, Add, Div;
    var f := TargetFactor(a, z, n);
    NonNegative(z, z);
    MinFactorIsLeast(z, z, z * z);
    UpFits(z, z, f, z * z);
    NonNegative(n, a);
    MinFactorIsLeast(n, a, n * a);
    UpFits(n, a, f, n * a);
    CeilCovers(z * z, f);
    CeilCovers(n * a, f);
    var z2, na := RoundedUp(z * z, f), RoundedUp(n * a, f);
    var r := TargetOf(a, z, tt, n);
    if IsWord(z2 + na) {
      var num := Quotient(n, f);
      QuotientCovers(n, f);
      SumFits(z2, na);
      MulDivDownCovers(tt, num, z2 + na);
      ScaledTarget(tt, n, a, z, f, z2, na, num, r);
    } else {
      SumWraps(z2, na);
      var c := RoundedUp(z * z, n);
      InvertedMulDivUp(z, n);
      CeilCovers(z * z, n);
      SumFits(a, c);
      DivCovers(tt, a + c);
      InvertedTarget(tt, n, a, z, c, r);
    }
  }

  lemma InvertedMulDivUp(z: nat, n: nat)
    requires n > 0 && IsWord(RoundedUp(z * z, n))
    ensures MulDivUp(z, z, n) == RoundedUp(z * z, n)
  {
    hide IsWord, RoundedUp;
  }

  /** The inverted form gives nothing: its denominator, cut to a word, is zero or exceeds T. */
  predicate InvertedPaysNothing(a: nat, z: nat, tt: nat, n: nat) {
    NonNegative(z, z);
    var den := Add(a, MulDivUp(z, z, n));
    den == 0 || tt < den
  }

  /** Where the inverted form does not fit, the exact curve pays less than one unit. */
  lemma UnfitPaysNothing(a: nat, z: nat, tt: nat, n: nat)
    requires n > 0 && IsWord(tt) && !InvertedFits(a, z, n)
    ensures tt * n < z * z + n * a
  {
    hide RoundedUp, IsWord;
    NonNegative(z, z);
    NonNegative(n, a);
    var c := RoundedUp(z * z, n);
    CeilAbove(z * z, n, c);
    if IsWord(c) {
      BelowUnfit(tt, a + c);
      MulMono(tt, a + c - 1, n);
      DistributeLess(n, a, c);
    } else {
      BelowUnfit(tt, c);
      MulMono(tt, c - 1, n);
    }
  }

  lemma DistributeLess(n: int, a: int, c: int)
    ensures n * (a + c - 1) == n * a + n * (c - 1)
  {
  }

  lemma CeilAbove(m: nat, n: nat, c: nat)
    requires n > 0 && c == RoundedUp(m, n)
    ensures n * (c - 1) < m
  {
    CeilAtMost(m, n, c - 1);
  }

  lemma BelowUnfit(x: nat, y: nat)
    requires IsWord(x) && !IsWord(y)
    ensures x <= y - 1
  {
  }

  lemma OverflowNeedsInput(a: nat, z: nat)
    requires IsWord(a) && IsWord(z)
    ensures !SumOverflows(a, z, 0)
  {
    hide MinFactor, RoundedUp, IsWord;
    var f := TargetFactor(a, z, 0);
    NonNegative(z, z);
    MinFactorIsLeast(z, z, z * z);
    UpFits(z, z, f, z * z);
    RoundedUpZero(f);
  }

  lemma RoundedUpZero(f: nat)
    ensures RoundedUp(0, f) == 0
  {
    if f > 0 {
      CeilAtMost(0, f, 0);
    }
  }

  /** The target formula stays within the exact curve exactly when the inverted form, if it is used, fits a
      word or pays nothing. */
  lemma TargetOfRoundsDownIff(a: nat, z: nat, tt: nat, n: nat)
    requires IsWord(a) && IsWord(z) && IsWord(n) && IsWord(tt)
    ensures AtMostExact(TargetOf(a, z, tt, n), a, z, tt, n)
       <==> (SumOverflows(a, z, n) ==> InvertedFits(a, z, n) || InvertedPaysNothing(a, z, tt, n))
  {
    hide InvertedFits, InvertedPaysNothing, IsWord, MinFactor, RoundedUp, Quotient, CeilDiv, MulDivUp, MulDivDown,
      Add, Div;
    if SumOverflows(a, z, n) && !InvertedFits(a, z, n) {
      if n == 0 {
        OverflowNeedsInput(a, z);
      }
      UnfitPaysNothing(a, z, tt, n);
      var f := TargetFactor(a, z, n);
      NonNegative(z, z);
      MinFactorIsLeast(z, z, z * z);
      UpFits(z, z, f, z * z);
      NonNegative(n, a);
      MinFactorIsLeast(n, a, n * a);
      UpFits(n, a, f, n * a);
      SumWraps(RoundedUp(z * z, f), RoundedUp(n * a, f));
      PaysNothingIff(TargetOf(a, z, tt, n), z * z + n * a, tt * n);
      InvertedQuotient(a, z, tt, n);
    } else {
      TargetOfRoundsDown(a, z, tt, n);
    }
  }

  lemma PaysNothingIff(r: nat, den: nat, num: nat)
    requires num < den
    ensures r * den <= num <==> r == 0
  {
    if r >= 1 {
      MulAtLeast(r, den);
    }
  }

  lemma InvertedQuotient(a: nat, z: nat, tt: nat, n: nat)
    requires z * z >= 0
    ensures Div(tt, Add(a, MulDivUp(z, z, n))) == 0 <==> InvertedPaysNothing(a, z, tt, n)
  {
    hide Add, MulDivUp;
    var den := Add(a, MulDivUp(z, z, n));
    if den > 0 {
      FloorAtLeast(tt, den, 1);
      DivIs(tt, den);
    }
  }

  /** Numerator and denominator of the source formula after scaling. */
  function ScaledNum(factor: nat, t: nat, z: nat): nat {
    Times(t, RoundedUp(Times(z, z), factor))
  }

  function ScaledDen(factor: nat, tt: nat, d: nat): nat {
    Quotient(Times(tt, d), factor)
  }

  /** Whether the scaled quotient of the source formula, rounded up, fits a word. */
  predicate CostFits(factor: nat, t: nat, z: nat, tt: nat, d: nat) {
    IsWord(RoundedUp(ScaledNum(factor, t, z), ScaledDen(factor, tt, d)))
  }

  /** What the formula gives otherwise: the low word of the scaled quotient. */
  function LowWord(factor: nat, t: nat, z: nat, tt: nat, d: nat): nat {
    Quotient(ScaledNum(factor, t, z), ScaledDen(factor, tt, d)) % TWO_256
  }

  /** The exact curve asks for more than any word. */
  predicate CostExceedsWords(t: nat, z: nat, tt: nat, d: nat) {
    t * (z * z) > U_MAX * (tt * d)
  }

  /** No word covers a cost that exceeds all of them. */
  lemma NoWordCovers(r: nat, t: nat, z: nat, tt: nat, d: nat)
    requires IsWord(r) && CostExceedsWords(t, z, tt, d)
    ensures !AtLeastExact(r, t, z, tt, d)
  {
    NonNegative(tt, d);
    MulMono(r, U_MAX, tt * d);
  }

  /** Unscaled, a quotient that does not fit is a cost that exceeds all words. */
  lemma UnscaledCost(t: nat, z: nat, tt: nat, d: nat)
    requires Times(tt, d) > 0 && !CostFits(1, t, z, tt, d)
    ensures CostExceedsWords(t, z, tt, d)
  {
    hide Times, RoundedUp, Quotient;
    TimesIs(z, z);
    TimesIs(tt, d);
    TimesIs(t, z * z);
    DivideByOne(Times(z, z));
    DivideByOne(Times(tt, d));
    CeilWord(t * (z * z), tt * d);
  }

  lemma CeilWord(n: nat, d: nat)
    requires d > 0
    ensures IsWord(RoundedUp(n, d)) <==> n <= U_MAX * d
  {
    CeilAtMost(n, d, U_MAX);
    hide CeilDiv;
  }

  // ----- the same for an order

  function RateA(o: Order): nat {
    ExpandRate(o.A)
  }

  function RateB(o: Order): nat {
    ExpandRate(o.B)
  }

  /** T = A Y + B Z. */
  function Tee(o: Order): nat {
    Times(RateA(o), o.Y) + Times(RateB(o), o.Z)
  }

  /** Z scaled by 2^48. */
  function Zed(o: Order): nat {
    o.Z * ONE
  }

  predicate ParamsFit(o: Order) {
    IsWord(Tee(o)) && IsWord(Zed(o))
  }

  lemma TeeOfWords(o: Order)
    requires ParamsFit(o)
    ensures Add(Mul(RateA(o), o.Y), Mul(RateB(o), o.Z)) == Tee(o)
    ensures Add(Mul(o.Y, RateA(o)), Mul(o.Z, RateB(o))) == Tee(o)
    ensures Mul(o.Z, ONE) == Zed(o)
  {
    hide Mul, ExpandRate, Add, IsWord, Times;
    var p, q := Times(RateA(o), o.Y), Times(RateB(o), o.Z);
    TimesIs(RateA(o), o.Y);
    TimesIs(RateB(o), o.Z);
    WordMono(p, p + q);
    WordMono(q, p + q);
    ProductFits(RateA(o), o.Y, p);
    ProductFits(RateB(o), o.Z, q);
    ProductFits(o.Y, RateA(o), p);
    ProductFits(o.Z, RateB(o), q);
    ProductFits(o.Z, ONE, Zed(o));
    SumFits(p, q);
  }

  lemma RateFits(o: Order)
    ensures IsWord(RateA(o)) && IsWord(RateB(o))
  {
    hide Shl;
  }

  lemma FlatCurve(r: nat, x: nat, b: nat, z: nat, one: nat)
    requires r * (one * one) <= x * (b * b)
    ensures r * ((z * one) * (z * one)) <= (b * z) * ((b * z) * x)
  {
    MulMono(r * (one * one), x * (b * b), z * z);
    assert r * ((z * one) * (z * one)) == (r * (one * one)) * (z * z);
    assert (b * z) * ((b * z) * x) == (x * (b * b)) * (z * z);
  }

  lemma FlatTarget(x: nat, b: nat, one: nat)
    ensures MulDivDown(x, Mul(b, b), one * one) * (one * one) <= x * (b * b)
  {
    hide MulDivDown, Mul;
    MulDivDownCovers(x, Mul(b, b), one * one);
    MulIsReduced(b, b);
    MulMono(Mul(b, b), b * b, x);
  }

  lemma MulIsReduced(x: nat, y: nat)
    ensures Mul(x, y) <= x * y
  {
    TimesIs(x, y);
    NonNegative(x, y);
    WordBelow(x * y);
  }

  /** An order without a slope, whose price is constant, never pays more than its price. */
  lemma FlatTargetRoundsDown(x: nat, o: Order)
    requires RateA(o) == 0
    ensures var tt := RateB(o) * o.Z;
            tt >= 0 && tt * x >= 0 && AtMostExact(TradeTargetAmount(x, o), 0, Zed(o), tt, tt * x)
  {
    hide MulDivDown, Mul, ExpandRate, Sign, AtMostExact;
    var b := RateB(o);
    NonNegative(b, o.Z);
    NonNegative(b * o.Z, x);
    ZeroIsBelow(0, Zed(o), b * o.Z, b * o.Z * x);
    FlatOrder(x, b, o.Z, b * o.Z, b * o.Z * x);
  }

  lemma FlatOrder(x: nat, b: nat, z: nat, tt: nat, n: nat)
    requires tt == b * z && n == tt * x
    ensures AtMostExact(MulDivDown(x, Mul(b, b), ONE * ONE), 0, z * ONE, tt, n)
  {
    hide MulDivDown, Mul;
    FlatTarget(x, b, ONE);
    FlatCurve(MulDivDown(x, Mul(b, b), ONE * ONE), x, b, z, ONE);
  }

  lemma ZeroIsBelow(a: nat, z: nat, tt: nat, n: nat)
    ensures AtMostExact(0, a, z, tt, n)
  {
    NonNegative(tt, n);
  }

  /** For an order with a slope, the paid amount stays within the exact curve exactly when the inverted form,
      if it is used, fits a word or pays nothing. */
  lemma TargetRoundsDownIff(x: nat, o: Order, n: nat)
    requires ParamsFit(o) && n == Tee(o) * x && IsWord(n) && Sign(x) > 0 && o.Y > 0 && RateA(o) > 0
    ensures AtMostExact(TradeTargetAmount(x, o), RateA(o), Zed(o), Tee(o), n)
       <==> (SumOverflows(RateA(o), Zed(o), n) ==>
              InvertedFits(RateA(o), Zed(o), n) || InvertedPaysNothing(RateA(o), Zed(o), Tee(o), n))
  {
    hide ExpandRate, TargetOf, Mul, Add, SumOverflows, InvertedFits, InvertedPaysNothing, IsWord, AtMostExact, Sign,
      Zed, Tee;
    TeeOfWords(o);
    ProductFits(Tee(o), x, n);
    RateFits(o);
    TargetOfRoundsDownIff(RateA(o), Zed(o), Tee(o), n);
  }

  lemma NothingBuysNothing(a: nat, z: nat, tt: nat)
    requires IsWord(a) && IsWord(z)
    ensures TargetOf(a, z, tt, 0) == 0
  {
    hide MinFactor, RoundedUp, IsWord, CeilDiv, Div, Times;
    var f := TargetFactor(a, z, 0);
    NonNegative(z, z);
    MinFactorIsLeast(z, z, z * z);
    UpFits(z, z, f, z * z);
    RoundedUpZero(f);
    AddZero(RoundedUp(z * z, f));
    ZeroQuotient(f);
    ZeroQuotient(RoundedUp(z * z, f));
  }

  lemma AddZero(x: nat)
    requires IsWord(x)
    ensures Add(x, 0) == x && IsWord(0)
  {
  }

  lemma ZeroQuotient(d: nat)
    ensures Quotient(0, d) == 0
  {
    if d > 0 {
      DivModUnique(0, d, 0, 0);
    }
  }

  /** The exact curve pays no less for more. */
  lemma ExactGrows(r: nat, a: nat, z: nat, tt: nat, m: nat, n: nat)
    requires AtMostExact(r, a, z, tt, m) && m <= n && (m > 0 || r == 0)
    ensures AtMostExact(r, a, z, tt, n)
  {
    if r == 0 {
      ZeroIsBelow(a, z, tt, n);
    } else {
      var gain := tt - r * a;
      assert m * gain == tt * m - r * (m * a) by { assert m * (r * a) == r * (m * a); assert m * tt == tt * m; }
      assert n * gain == tt * n - r * (n * a) by { assert n * (r * a) == r * (n * a); assert n * tt == tt * n; }
      assert r * (z * z + m * a) == r * (z * z) + r * (m * a);
      assert r * (z * z + n * a) == r * (z * z) + r * (n * a);
      NonNegative(z, z);
      NonNegative(r, z * z);
      if gain < 0 {
        MulMono(gain, -1, m);
      } else {
        MulMono(m, n, gain);
      }
    }
  }

  /** Where T x wraps, the formula works on the remainder, and still pays no more than the exact curve for x. */
  lemma TargetRoundsDownWrapped(x: nat, o: Order, n: nat, wrapped: nat)
    requires ParamsFit(o) && n == Tee(o) * x && wrapped == n % TWO_256 && Sign(x) > 0 && o.Y > 0 && RateA(o) > 0
    requires SumOverflows(RateA(o), Zed(o), wrapped) ==>
               InvertedFits(RateA(o), Zed(o), wrapped) || InvertedPaysNothing(RateA(o), Zed(o), Tee(o), wrapped)
    ensures AtMostExact(TradeTargetAmount(x, o), RateA(o), Zed(o), Tee(o), n)
  {
    hide ExpandRate, TargetOf, Add, SumOverflows, InvertedFits, InvertedPaysNothing, IsWord, AtMostExact, Sign, Zed,
      Tee, Times;
    TeeOfWords(o);
    TimesIs(Tee(o), x);
    RateFits(o);
    RemainderIsWord(n);
    TargetOfRoundsDownIff(RateA(o), Zed(o), Tee(o), wrapped);
    NothingBuysNothing(RateA(o), Zed(o), Tee(o));
    ExactGrows(TargetOf(RateA(o), Zed(o), Tee(o), wrapped), RateA(o), Zed(o), Tee(o), wrapped, n);
  }

  lemma RemainderIsWord(n: nat)
    ensures IsWord(n % TWO_256) && n % TWO_256 <= n
  {
  }

  /** An order whose capacity, at 2^207, is far beyond its single unit of liquidity. */
  function VastOrder(): Order {
    Order(1, TWO_64 * TWO_128 * 0x8000, 81 * ONE + ONE / 2, 0)
  }

  lemma VastRate()
    ensures ExpandRate(81 * ONE + ONE / 2) == TWO_128 && ExpandRate(0) == 0
  {
    hide Pow2;
    SmallPower();
    PowerDoubled(4, 0x10);
    PowerDoubled(8, 0x100);
    PowerDoubled(16, 0x1_0000);
    PowerDoubled(32, 0x1_0000_0000);
    Pow2Add(64, 16);
    Pow2Add(80, 1);
    Pow2One();
    hide Shl;
    ShlIs(ONE / 2, 81);
  }

  lemma WordAtMost(n: nat, g: nat)
    requires g > 0
    ensures IsWord(CeilDiv(n, g)) <==> n <= g * U_MAX
  {
    CeilAtMost(n, g, U_MAX);
    hide CeilDiv;
  }

  lemma SmallWords()
    ensures IsWord(TWO_255) && IsWord(TWO_128) && IsWord(0)
  {
  }

  lemma VastFactor()
    ensures TargetFactor(TWO_128, TWO_255, TWO_128) == TWO_255 / 2 + 1
  {
    hide MinFactor, CeilDiv, IsWord;
    SmallWords();
    MinFactorIsLeast(TWO_255, TWO_255, TWO_255 * TWO_255);
    WordAtMost(TWO_255 * TWO_255, TWO_255 / 2);
    WordAtMost(TWO_255 * TWO_255, TWO_255 / 2 + 1);
    MinFactorIsLeast(TWO_128, TWO_128, TWO_256);
    WordAtMost(TWO_256, 2);
  }

  lemma VastOverflows()
    ensures SumOverflows(TWO_128, TWO_255, TWO_128)
    ensures !InvertedFits(TWO_128, TWO_255, TWO_128) && !InvertedPaysNothing(TWO_128, TWO_255, TWO_128, TWO_128)
  {
    hide TargetFactor, CeilDiv;
    VastFactor();
    var z2, f := TWO_255 * TWO_255, TWO_255 / 2 + 1;
    CeilAtMost(z2, f, TWO_256 - 4);
    CeilAtMost(TWO_256, f, 3);
    WordAtMost(z2, TWO_128);
  }

  /** One unit of source is paid one unit of target, although the exact curve pays less than one. */
  lemma UnfitInvertedOverpays()
    ensures var o := VastOrder();
            ParamsFit(o) && RateA(o) > 0 && Tee(o) == TWO_128 &&
              !AtMostExact(TradeTargetAmount(1, o), RateA(o), Zed(o), Tee(o), Tee(o))
  {
    hide ExpandRate, SumOverflows, InvertedFits, InvertedPaysNothing, AtMostExact, TradeTargetAmount;
    VastRate();
    VastOverflows();
    SmallWords();
    TimesIs(TWO_128, 1);
    TimesIs(0, VastOrder().Z);
    hide Times;
    TargetRoundsDownIff(1, VastOrder(), TWO_128);
  }

  /** The source formula on words is the scaled quotient rounded up and cut to a word, or the sentinel. */
  lemma SourceIsScaled(t: nat, o: Order, at: nat)
    requires ParamsFit(o) && at == Times(t, RateA(o)) && IsWord(at) && Sign(t) > 0 && o.Y > 0 && RateA(o) > 0
    ensures Tee(o) <= at ==> TradeSourceAmount(t, o) == U_MAX
    ensures var z, tt, d := Zed(o), Tee(o), Tee(o) - at;
            d > 0 ==>
              var f := SourceFactor(z, tt, d);
              && f >= 1 && (f == 1 <==> IsWord(Times(z, z)) && IsWord(Times(tt, d)))
              && TradeSourceAmount(t, o) ==
                if ScaledDen(f, tt, d) == 0 then U_MAX
                else MulDivUp(t, RoundedUp(Times(z, z), f), ScaledDen(f, tt, d))
  {
    hide ExpandRate, Mul, Add, IsWord, MinFactor, RoundedUp, Quotient, CeilDiv, Sign, Zed, Tee, Times;
    TeeOfWords(o);
    TimesIs(t, RateA(o));
    ProductFits(t, RateA(o), at);
    if Tee(o) > at {
      var z, tt, d := Zed(o), Tee(o), Tee(o) - at;
      WordMono(d, tt);
      var f := SourceFactor(z, tt, d);
      TimesIs(z, z);
      TimesIs(tt, d);
      MinFactorIsLeast(z, z, Times(z, z));
      UpFits(z, z, f, Times(z, z));
      MinFactorIsLeast(tt, d, Times(tt, d));
      UpFits(tt, d, f, Times(tt, d));
      QuotientBelowCeil(Times(tt, d), f);
      var d2 := ScaledDen(f, tt, d);
      WordMono(d2, RoundedUp(Times(tt, d), f));
      WordBelow(d2);
      assert TradeSourceAmount(t, o) == ScaledSource(f, t, z, tt, d);
    }
  }

  /** A target amount is sold at or above the exact curve exactly when its scaled cost fits a word, or the low
      word of it happens to cover the exact cost, which it never does where that exceeds all words. Where the
      scaled denominator vanishes the answer is the sentinel. */
  lemma SourceRoundsUpIff(t: nat, o: Order, at: nat)
    requires ParamsFit(o) && at == Times(t, RateA(o)) && IsWord(at) && Sign(t) > 0 && o.Y > 0 && RateA(o) > 0
    ensures Tee(o) <= at ==> TradeSourceAmount(t, o) == U_MAX
    ensures var r, z, tt, d := TradeSourceAmount(t, o), Zed(o), Tee(o), Tee(o) - at;
            d > 0 ==>
              var f := SourceFactor(z, tt, d);
              if ScaledDen(f, tt, d) == 0 then r == U_MAX
              else
                && (AtLeastExact(r, t, z, tt, d) <==>
                      CostFits(f, t, z, tt, d) || AtLeastExact(LowWord(f, t, z, tt, d), t, z, tt, d))
                && (CostExceedsWords(t, z, tt, d) ==> !AtLeastExact(r, t, z, tt, d))
                && (f == 1 && !CostFits(f, t, z, tt, d) ==> CostExceedsWords(t, z, tt, d))
  {
    hide TradeSourceAmount, ParamsFit, RateA, MulDivDown, IsWord, SourceFactor, RoundedUp, Quotient, Sign, Zed, Tee,
      Times, AtLeastExact, CostExceedsWords;
    SourceIsScaled(t, o, at);
    if Tee(o) > at {
      var z, tt, d := Zed(o), Tee(o), Tee(o) - at;
      var f := SourceFactor(z, tt, d);
      var z2, d2 := RoundedUp(Times(z, z), f), ScaledDen(f, tt, d);
      if d2 > 0 {
        TimesIs(t, z2);
        MulDivDownIs(t, z2, d2);
        SourceCovers(t, z, tt, d, f, z2, d2);
        AnswerIsWord(TradeSourceAmount(t, o), t, z2, d2);
        if CostExceedsWords(t, z, tt, d) {
          NoWordCovers(TradeSourceAmount(t, o), t, z, tt, d);
        }
        if f == 1 && !CostFits(f, t, z, tt, d) {
          DivideByOne(Times(tt, d));
          UnscaledCost(t, z, tt, d);
        }
      }
    }
  }

  lemma MulDivDownIs(x: nat, y: nat, d: nat)
    ensures x * y >= 0 && MulDivDown(x, y, d) == Quotient(x * y, d) % TWO_256
  {
    NonNegative(x, y);
  }

  lemma SourceCovers(t: nat, z: nat, tt: nat, d: nat, f: nat, z2: nat, d2: nat)
    requires f >= 1 && d2 > 0 && z2 == RoundedUp(Times(z, z), f) && d2 == Quotient(Times(tt, d), f)
    ensures AtLeastExact(RoundedUp(Times(t, z2), d2), t, z, tt, d)
  {
    hide RoundedUp, Quotient, Times;
    TimesIs(z, z);
    TimesIs(tt, d);
    TimesIs(t, z2);
    CeilCovers(z * z, f);
    QuotientCovers(tt * d, f);
    CeilCovers(t * z2, d2);
    SourceScales(t, z, tt * d, f, z2, d2, RoundedUp(t * z2, d2));
  }

  lemma AnswerIsWord(r: nat, t: nat, z2: nat, d2: nat)
    requires r == MulDivUp(t, z2, d2)
    ensures IsWord(r)
  {
    hide RoundedUp, Quotient;
  }

  /** For an order without a slope: r is at least t 2^96 / B^2, its constant price. */
  predicate AtLeastFlat(r: nat, t: nat, b: nat) {
    Times(t, ONE * ONE) <= Times(r, Times(b, b))
  }

  lemma FlatIffAtMost(r: nat, t: nat, b: nat)
    ensures AtLeastFlat(r, t, b) <==> t * (ONE * ONE) <= r * (b * b)
  {
    hide Times;
    TimesIs(t, ONE * ONE);
    TimesIs(b, b);
    TimesIs(r, b * b);
  }

  /** What such an order answers when the quotient does not fit: its low word. */
  function FlatLowWord(t: nat, bSq: nat): nat {
    Quotient(Times(t, ONE * ONE), bSq) % TWO_256
  }

  /** The answer for such an order is the sentinel when the square of its price wraps to zero; otherwise it rounds up
      exactly when it fits a word or its low word happens to cover the price, which it never does where the square
      does not wrap. */
  lemma FlatSourceRoundsUpIff(t: nat, o: Order)
    requires Sign(t) > 0 && o.Y > 0 && RateA(o) == 0
    ensures var r, b := TradeSourceAmount(t, o), RateB(o);
            var bSq := Mul(b, b);
            if bSq == 0 then r == U_MAX
            else
              && (AtLeastFlat(r, t, b) <==>
                    IsWord(RoundedUp(Times(t, ONE * ONE), bSq)) || AtLeastFlat(FlatLowWord(t, bSq), t, b))
              && (IsWord(Times(b, b)) && !IsWord(RoundedUp(Times(t, ONE * ONE), bSq)) ==> !AtLeastFlat(r, t, b))
  {
    hide ExpandRate, Mul, Add, RoundedUp, IsWord, AtLeastFlat, Sign, Quotient, Times;
    var r, b := TradeSourceAmount(t, o), RateB(o);
    var bSq := Mul(b, b);
    if b == 0 {
      MulIsReduced(0, 0);
    }
    if bSq > 0 {
      MulIsReduced(b, b);
      TimesIs(t, ONE * ONE);
      TimesIs(b, b);
      AnswerIsWord(r, t, ONE * ONE, bSq);
      FlatIffAtMost(r, t, b);
      MulDivDownIs(t, ONE * ONE, bSq);
      if IsWord(RoundedUp(Times(t, ONE * ONE), bSq)) {
        CeilCovers(t * (ONE * ONE), bSq);
        MulMono(bSq, b * b, r);
      } else if IsWord(Times(b, b)) {
        ProductFits(b, b, b * b);
        CeilWord(t * (ONE * ONE), bSq);
        WordIsAtMost(r);
        MulMono(r, U_MAX, b * b);
      }
    }
  }

  lemma WordIsAtMost(r: nat)
    requires IsWord(r)
    ensures r <= U_MAX
  {
  }

  // ----- orders whose cost exceeds a word are sold for next to nothing

  const TWO_94: nat := 0x40000000_00000000_00000000
  const TWO_34: nat := 0x4_0000_0000

  /** Buying all but one unit of an order that is nearly flat at its end costs about 2^282 units. */
  function SteepOrder(): Order {
    Order(TWO_94 + 2, TWO_128 / 2, TWO_34, 0)
  }

  lemma SteepRates()
    ensures ExpandRate(TWO_34) == TWO_34 && ExpandRate(0) == 0 && ExpandRate(1) == 1
  {
    assert Pow2(0) == 1;
  }

  lemma SteepTerms()
    ensures Tee(SteepOrder()) == TWO_128 + 2 * TWO_34 && Zed(SteepOrder()) == TWO_128 / 2 * ONE
    ensures Times(TWO_94 + 1, TWO_34) == TWO_128 + TWO_34
  {
    hide Times, ExpandRate;
    SteepRates();
    TimesIs(TWO_34, TWO_94 + 2);
    TimesIs(0, TWO_128 / 2);
    TimesIs(TWO_94 + 1, TWO_34);
  }

  lemma SteepFactor(z: nat, tt: nat, d: nat)
    requires z == TWO_128 / 2 * ONE && tt == TWO_128 + 2 * TWO_34 && d == TWO_34
    ensures SourceFactor(z, tt, d) == TWO_94 + 1
  {
    hide MinFactor, CeilDiv, IsWord;
    SteepWords();
    MinFactorIsLeast(z, z, z * z);
    WordAtMost(z * z, TWO_94);
    WordAtMost(z * z, TWO_94 + 1);
    MinFactorIsLeast(tt, d, tt * d);
  }

  lemma SteepWords()
    ensures IsWord(TWO_128 / 2 * ONE) && IsWord(TWO_128 + 2 * TWO_34) && IsWord(TWO_34) && IsWord(TWO_128 + TWO_34)
    ensures IsWord((TWO_128 + 2 * TWO_34) * TWO_34)
  {
  }

  /** The scaled square of Z: 2^350 / (2^94 + 1), rounded up. */
  const STEEP_SQUARE: nat := 0xfffffffffffffffffffffffc0000000000000000000000100000000000000000
  const TWO_68: nat := 0x10_0000_0000_0000_0000

  lemma SteepQuotients(z: nat, tt: nat, d: nat, f: nat)
    requires z == TWO_128 / 2 * ONE && tt == TWO_128 + 2 * TWO_34 && d == TWO_34 && f == TWO_94 + 1
    ensures RoundedUp(Times(z, z), f) == STEEP_SQUARE && Quotient(Times(tt, d), f) == TWO_68
  {
    hide Times, CeilDiv;
    TimesIs(z, z);
    TimesIs(tt, d);
    DivModUnique(tt * d, f, TWO_68, TWO_68);
    SteepCeil(z * z, f);
  }

  lemma SteepCeil(n: nat, f: nat)
    requires f == TWO_94 + 1 && n == (TWO_128 / 2 * ONE) * (TWO_128 / 2 * ONE)
    ensures CeilDiv(n, f) == STEEP_SQUARE
  {
    hide CeilDiv;
    CeilAtMost(n, f, STEEP_SQUARE);
    CeilAtMost(n, f, STEEP_SQUARE - 1);
  }

  lemma SteepAnswer()
    ensures MulDivUp(TWO_94 + 1, STEEP_SQUARE, TWO_68) == 1
  {
    hide CeilDiv;
    var n := (TWO_94 + 1) * STEEP_SQUARE;
    WordAtMost(n, TWO_68);
    assert n / TWO_68 == TWO_256 * 0x400_0000 + 1;
  }

  /** All but one unit of an order below 2^128 in both its liquidity and its capacity are sold for a single unit,
      although the exact curve asks for more than any word. */
  lemma SteepOrderUndercharges()
    ensures var o, t := SteepOrder(), TWO_94 + 1;
            && ParamsFit(o) && RateA(o) > 0 && t < o.Y && TradeSourceAmount(t, o) == 1
            && Tee(o) == t * RateA(o) + TWO_34 && CostExceedsWords(t, Zed(o), Tee(o), TWO_34)
  {
    hide ExpandRate, MinFactor, CeilDiv, Times, IsWord, RoundedUp, Quotient, MulDivUp, MulDivDown, Mul, Add;
    var o, t := SteepOrder(), TWO_94 + 1;
    SteepRates();
    SteepTerms();
    SteepWords();
    TeeOfWords(o);
    TimesIs(t, TWO_34);
    ProductFits(t, TWO_34, TWO_128 + TWO_34);
    var z, tt, d := Zed(o), Tee(o), TWO_34;
    SteepFactor(z, tt, d);
    SteepQuotients(z, tt, d, TWO_94 + 1);
    SteepParts(z, tt, d);
    SteepAnswer();
  }

  lemma SteepParts(z: nat, tt: nat, d: nat)
    requires z == TWO_128 / 2 * ONE && tt == TWO_128 + 2 * TWO_34 && d == TWO_34
    ensures MulDivUp(z, z, TWO_94 + 1) == RoundedUp(Times(z, z), TWO_94 + 1)
    ensures MulDivDown(tt, d, TWO_94 + 1) == Quotient(Times(tt, d), TWO_94 + 1)
  {
    hide Times, RoundedUp, Quotient;
    SteepQuotients(z, tt, d, TWO_94 + 1);
    TimesIs(z, z);
    TimesIs(tt, d);
  }

  /** A flat order sells 2^160 units, whose exact cost is 2^256, for nothing. */
  lemma FlatOrderGivesAway()
    ensures var o := Order(TWO_128 * 0x1_0000_0000, TWO_128 * 0x1_0000_0000, 0, 1);
            RateA(o) == 0 && RateB(o) == 1 && TradeSourceAmount(o.Y, o) == 0
  {
    hide ExpandRate, Times, CeilDiv;
    SteepRates();
    TimesIs(1, 1);
    WordAtMost(TWO_256, 1);
  }

  // ----- the two formulas invert each other where nothing is scaled

  /** T n / (Z^2 + n A), rounded down. */
  function PlainTarget(a: nat, z: nat, tt: nat, n: nat): nat {
    Quotient(Times(tt, n), Times(z, z) + Times(n, a))
  }

  /** t Z^2 / (T d), rounded up. */
  function PlainSource(t: nat, z: nat, tt: nat, d: nat): nat {
    RoundedUp(Times(t, Times(z, z)), Times(tt, d))
  }

  lemma ProductsMeet(tt: nat, x: nat, a: nat, zz: nat, t: nat, d: nat)
    requires d == tt - t * a
    ensures (zz + (tt * x) * a) * t - tt * (tt * x) == t * zz - (tt * d) * x
  {
    var n := tt * x;
    assert (zz + n * a) * t == t * zz + n * (t * a);
    assert n * (t * a) + n * d == n * tt;
    assert n * d == (tt * d) * x;
  }

  /** The plain quotients are adjoint. */
  lemma Adjoint(tt: nat, x: nat, a: nat, z: nat, t: nat, d: nat)
    requires d == tt - Times(t, a) && Times(tt, d) > 0 && Times(z, z) + Times(Times(tt, x), a) > 0
    ensures t <= PlainTarget(a, z, tt, Times(tt, x)) <==> PlainSource(t, z, tt, d) <= x
  {
    hide Times;
    var n := Times(tt, x);
    TimesIs(t, a);
    TimesIs(tt, d);
    TimesIs(tt, x);
    TimesIs(z, z);
    TimesIs(n, a);
    TimesIs(tt, n);
    TimesIs(t, Times(z, z));
    FloorAtLeast(tt * n, z * z + n * a, t);
    CeilAtMost(t * (z * z), tt * d, x);
    ProductsMeet(tt, x, a, z * z, t, d);
  }

  /** The target quotient is at most T. */
  lemma PlainTargetAtMostT(tt: nat, n: nat, a: nat, z: nat)
    requires a > 0 && n > 0
    ensures Times(z, z) + Times(n, a) > 0 && PlainTarget(a, z, tt, n) <= tt
  {
    hide Times;
    TimesIs(n, a);
    TimesIs(tt, n);
    var den := Times(z, z) + Times(n, a);
    MulAtLeast(a, n);
    FloorAtLeast(tt * n, den, tt + 1);
    MulMono(n, den, tt + 1);
    assert n * (tt + 1) == tt * n + n;
  }

  lemma TargetOfIsPlain(a: nat, z: nat, tt: nat, n: nat)
    requires a > 0 && n > 0 && IsWord(a) && IsWord(z) && IsWord(tt) && IsWord(n) && IsWord(Times(z, z) + Times(n, a))
    ensures TargetOf(a, z, tt, n) == PlainTarget(a, z, tt, n)
  {
    hide MinFactor, RoundedUp, Quotient, IsWord, Add, Div, Times;
    TimesIs(z, z);
    TimesIs(n, a);
    TimesIs(tt, n);
    var z2, na := Times(z, z), Times(n, a);
    WordMono(z2, z2 + na);
    WordMono(na, z2 + na);
    MinFactorIsLeast(z, z, z2);
    MinFactorIsLeast(n, a, na);
    DivideByOne(z2);
    DivideByOne(na);
    DivideByOne(n);
    SumFits(z2, na);
    PlainTargetAtMostT(tt, n, a, z);
    WordMono(PlainTarget(a, z, tt, n), tt);
    WordBelow(PlainTarget(a, z, tt, n));
  }

  lemma SourceOfIsPlain(t: nat, z: nat, tt: nat, d: nat)
    requires Times(tt, d) > 0 && IsWord(PlainSource(t, z, tt, d))
    requires IsWord(z) && IsWord(tt) && IsWord(d) && IsWord(Times(z, z)) && IsWord(Times(tt, d))
    ensures SourceOf(t, z, tt, d) == PlainSource(t, z, tt, d)
  {
    hide MinFactor, RoundedUp, Quotient, IsWord, Times;
    TimesIs(z, z);
    TimesIs(tt, d);
    TimesIs(t, Times(z, z));
    MinFactorIsLeast(z, z, Times(z, z));
    MinFactorIsLeast(tt, d, Times(tt, d));
    DivideByOne(Times(z, z));
    DivideByOne(Times(tt, d));
    WordBelow(Times(tt, d));
  }

  /** Nothing is scaled for a target amount t: the terms of the source formula fit a word. */
  predicate PlainForTarget(o: Order, t: nat) {
    && ParamsFit(o) && Times(t, RateA(o)) < Tee(o)
    && IsWord(Times(Zed(o), Zed(o))) && IsWord(Times(Tee(o), Tee(o) - Times(t, RateA(o))))
  }

  /** Nothing is scaled for a source amount x: the terms of the target formula fit a word. */
  predicate PlainForSource(o: Order, x: nat) {
    && ParamsFit(o) && IsWord(Times(Tee(o), x))
    && IsWord(Times(Zed(o), Zed(o)) + Times(Times(Tee(o), x), RateA(o)))
  }

  lemma TradeTargetIsPlain(x: nat, o: Order)
    requires Sign(x) > 0 && o.Y > 0 && RateA(o) > 0 && PlainForSource(o, x)
    ensures TradeTargetAmount(x, o) == PlainTarget(RateA(o), Zed(o), Tee(o), Times(Tee(o), x))
    ensures Times(Zed(o), Zed(o)) + Times(Times(Tee(o), x), RateA(o)) > 0
  {
    hide ExpandRate, TargetOf, Mul, Add, PlainTarget, IsWord, Times, Sign;
    var n := Times(Tee(o), x);
    SignPositive(x);
    TeeOfWords(o);
    RateFits(o);
    TeePositive(o);
    TimesIs(Tee(o), x);
    MulAtLeast(Tee(o), x);
    ProductFits(Tee(o), x, n);
    TargetOfIsPlain(RateA(o), Zed(o), Tee(o), n);
    PlainTargetAtMostT(Tee(o), n, RateA(o), Zed(o));
  }

  lemma SignPositive(x: nat)
    requires Sign(x) > 0
    ensures x > 0
  {
  }

  lemma TeePositive(o: Order)
    requires o.Y > 0 && RateA(o) > 0
    ensures Tee(o) > 0
  {
    hide Times, ExpandRate;
    TimesIs(RateA(o), o.Y);
    MulAtLeast(RateA(o), o.Y);
  }

  lemma PlainSourceAtMostSquare(t: nat, a: nat, z: nat, tt: nat, d: nat)
    requires a > 0 && d > 0 && d == tt - Times(t, a)
    ensures Times(tt, d) > 0 && PlainSource(t, z, tt, d) <= Times(z, z)
  {
    hide Times;
    TimesIs(t, a);
    TimesIs(tt, d);
    TimesIs(t, Times(z, z));
    MulAtLeast(a, t);
    MulAtLeast(d, tt);
    MulMono(t, tt * d, Times(z, z));
    CeilAtMost(t * Times(z, z), tt * d, Times(z, z));
  }

  lemma TradeSourceIsPlain(t: nat, o: Order)
    requires Sign(t) > 0 && o.Y > 0 && RateA(o) > 0 && PlainForTarget(o, t)
    ensures Times(Tee(o), Tee(o) - Times(t, RateA(o))) > 0
    ensures TradeSourceAmount(t, o) == PlainSource(t, Zed(o), Tee(o), Tee(o) - Times(t, RateA(o)))
  {
    hide SourceOf, PlainSource, IsWord, ExpandRate, Sign, Zed, Tee, Mul, Add, Times;
    var z, tt, at := Zed(o), Tee(o), Times(t, RateA(o));
    var d := tt - at;
    TimesIs(t, RateA(o));
    TeeOfWords(o);
    WordMono(at, tt);
    WordMono(d, tt);
    ProductFits(t, RateA(o), at);
    PlainSourceAtMostSquare(t, RateA(o), z, tt, d);
    WordMono(PlainSource(t, z, tt, d), Times(z, z));
    SourceOfIsPlain(t, z, tt, d);
  }

  /** The source amount for a target t is exactly the least source amount that buys at least t. */
  lemma LeastInput(x: nat, t: nat, o: Order)
    requires Sign(x) > 0 && Sign(t) > 0 && o.Y > 0 && RateA(o) > 0
    requires PlainForTarget(o, t) && PlainForSource(o, x)
    ensures TradeTargetAmount(x, o) >= t <==> x >= TradeSourceAmount(t, o)
  {
    hide TradeTargetAmount, TradeSourceAmount, PlainTarget, PlainSource, IsWord, ExpandRate, Sign, Zed, Tee, Times;
    TradeTargetIsPlain(x, o);
    TradeSourceIsPlain(t, o);
    Adjoint(Tee(o), x, RateA(o), Zed(o), t, Tee(o) - Times(t, RateA(o)));
  }
}
