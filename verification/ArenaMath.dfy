/** Arena's bonding curve: the price integral rounded up for buyers and down for sellers, and its fees. */
module ArenaMath {
  import opened Arith
  import opened Words

  // ----- the formulas in word arithmetic

  function CurveSum(x: nat, a: nat, b: nat): nat {
    Add(Mul(Mul(Mul(Mul(x, x), x), 2), a), Mul(Mul(Mul(x, x), 3), b))
  }

  function IntegralCeil(upper: nat, lower: nat, a: nat, b: nat, curveScaler: nat): nat {
    var scale := Mul(curveScaler, 6);
    Div(Sub(Add(Sub(CurveSum(upper, a, b), CurveSum(lower, a, b)), scale), 1), scale)
  }

  function IntegralFloor(upper: nat, lower: nat, a: nat, b: nat, curveScaler: nat): nat {
    Div(Sub(CurveSum(upper, a, b), CurveSum(lower, a, b)), Mul(curveScaler, 6))
  }

  /** One fee, rounded to the nearest unit. */
  function FeePart(costs: nat, basisPoints: nat): nat {
    Add(Mul(costs, basisPoints), 5000) / 10000
  }

  function GetFee(costs: nat, protocolFee: nat, creatorFee: nat, referralFee: nat): nat {
    Add(Add(Add(0, FeePart(costs, protocolFee)), FeePart(costs, creatorFee)), FeePart(costs, referralFee))
  }

  // ----- the exact curve

  function Square(x: nat): nat {
    Times(x, x)
  }

  function Cube(x: nat): nat {
    Times(Square(x), x)
  }

  /** Six times the area under the price line a·x² + b·x from 0 to x. */
  function Area(x: nat, a: nat, b: nat): nat {
    Times(Cube(x) * 2, a) + Times(Square(x) * 3, b)
  }

  lemma AreaIs(x: nat, a: nat, b: nat)
    ensures Square(x) == x * x && Cube(x) == x * x * x && Area(x, a, b) == x * x * x * 2 * a + x * x * 3 * b
  {
    hide Times;
    TimesIs(x, x);
    TimesIs(Square(x), x);
    TimesIs(Cube(x) * 2, a);
    TimesIs(Square(x) * 3, b);
  }

  lemma TimesMono(a: nat, b: nat, c: nat, d: nat)
    requires a <= c && b <= d
    ensures Times(a, b) <= Times(c, d)
  {
    hide Times;
    TimesIs(a, b);
    TimesIs(c, d);
    ProductMono(a, b, c, d);
  }

  lemma AreaMono(x: nat, y: nat, a: nat, b: nat)
    requires x <= y
    ensures Area(x, a, b) <= Area(y, a, b)
  {
    hide Times;
    TimesMono(x, x, y, y);
    TimesMono(Square(x), x, Square(y), y);
    TimesMono(Cube(x) * 2, a, Cube(y) * 2, a);
    TimesMono(Square(x) * 3, b, Square(y) * 3, b);
  }

  // ----- word arithmetic computes the exact curve modulo 2^256

  function Wrap(x: int): nat {
    x % TWO_256
  }

  lemma WrapMul(x: nat, y: nat)
    ensures Mul(Wrap(x), y) == Wrap(x * y) && Mul(x, y) == Wrap(x * y)
  {
    TimesIs(x, y);
    TimesIs(Wrap(x), y);
    ModMul(x, y, TWO_256);
  }

  lemma WrapAdd(x: int, y: int)
    ensures Add(Wrap(x), Wrap(y)) == Wrap(x + y)
  {
  }

  lemma WrapSub(x: int, y: int)
    ensures Sub(Wrap(x), Wrap(y)) == Wrap(x - y)
  {
  }

  lemma WrapFits(x: nat)
    requires IsWord(x)
    ensures Wrap(x) == x
  {
  }

  /** One term of the curve sum, from the power p that is still to be reduced. */
  lemma TermWraps(p: nat, factor: nat, rate: nat)
    ensures p * factor * rate >= 0 && Mul(Mul(Wrap(p), factor), rate) == Wrap(p * factor * rate)
  {
    hide Mul, Wrap;
    NonNegative(p, factor);
    NonNegative(p * factor, rate);
    WrapMul(p, factor);
    WrapMul(p * factor, rate);
  }

  /** The curve differences up to `upper`, their rounding and their fees all fit a word. */
  predicate Fits(upper: nat, a: nat, b: nat, curveScaler: nat, totalFee: nat) {
    curveScaler > 0 && IsWord((Area(upper, a, b) + 6 * curveScaler) * (10000 + totalFee) + 15000)
  }

  lemma FitsMono(x: nat, y: nat, a: nat, b: nat, curveScaler: nat, totalFee: nat)
    requires x <= y && Fits(y, a, b, curveScaler, totalFee)
    ensures Fits(x, a, b, curveScaler, totalFee)
  {
    hide Area, IsWord;
    AreaMono(x, y, a, b);
    var k := 6 * curveScaler;
    ProductMono(Area(x, a, b) + k, 10000 + totalFee, Area(y, a, b) + k, 10000 + totalFee);
    WordMono((Area(x, a, b) + k) * (10000 + totalFee) + 15000, (Area(y, a, b) + k) * (10000 + totalFee) + 15000);
  }

  lemma ScaleFits(area: nat, k: nat, total: nat)
    requires IsWord((area + k) * (10000 + total) + 15000)
    ensures IsWord(area + k) && IsWord(area) && IsWord(k)
  {
    hide IsWord;
    MulAtLeast(10000 + total, area + k);
    WordMono(area + k, (area + k) * (10000 + total) + 15000);
    WordMono(area, area + k);
    WordMono(k, area + k);
  }

  lemma DifferenceIs(upper: nat, lower: nat, a: nat, b: nat)
    requires lower <= upper && IsWord(Area(upper, a, b))
    ensures Sub(CurveSum(upper, a, b), CurveSum(lower, a, b)) == Area(upper, a, b) - Area(lower, a, b) >= 0
  {
    hide Wrap, Sub, IsWord, Mul, Add, Times;
    forall x: nat | x == upper || x == lower
      ensures CurveSum(x, a, b) == Wrap(Area(x, a, b))
    {
      TimesIs(x, x);
      TimesIs(Square(x), x);
      TimesIs(Cube(x) * 2, a);
      TimesIs(Square(x) * 3, b);
      WrapMul(x, x);
      WrapMul(Square(x), x);
      TermWraps(Cube(x), 2, a);
      TermWraps(Square(x), 3, b);
      WrapAdd(Times(Cube(x) * 2, a), Times(Square(x) * 3, b));
    }
    hide CurveSum, Area;
    AreaMono(lower, upper, a, b);
    WrapSub(Area(upper, a, b), Area(lower, a, b));
    WordMono(Area(upper, a, b) - Area(lower, a, b), Area(upper, a, b));
    WrapFits(Area(upper, a, b) - Area(lower, a, b));
  }

  /** Buyers pay the area rounded up, sellers get it rounded down. */
  lemma IntegralsAre(upper: nat, lower: nat, a: nat, b: nat, curveScaler: nat, totalFee: nat)
    requires lower <= upper && Fits(upper, a, b, curveScaler, totalFee)
    ensures Area(lower, a, b) <= Area(upper, a, b)
    ensures IntegralCeil(upper, lower, a, b, curveScaler) ==
            CeilDiv(Area(upper, a, b) - Area(lower, a, b), 6 * curveScaler)
    ensures IntegralFloor(upper, lower, a, b, curveScaler) ==
            (Area(upper, a, b) - Area(lower, a, b)) / (6 * curveScaler)
  {
    hide CurveSum, Area, Sub, Add, Mul, IsWord, Div, CeilDiv;
    var k := 6 * curveScaler;
    ScaleFits(Area(upper, a, b), k, totalFee);
    DifferenceIs(upper, lower, a, b);
    ProductFits(curveScaler, 6, k);
    var d := Area(upper, a, b) - Area(lower, a, b);
    WordMono(d + k, Area(upper, a, b) + k);
    SumFits(d, k);
    DifferenceFits(d + k, 1);
    DivIs(d, k);
    DivIs(d + k - 1, k);
    CeilAsFloor(d, k);
  }

  // ----- fees

  /** The three fees without wrapping. */
  function Fee(costs: nat, protocolFee: nat, creatorFee: nat, referralFee: nat): nat {
    RoundedFee(costs, protocolFee) + RoundedFee(costs, creatorFee) + RoundedFee(costs, referralFee)
  }

  function RoundedFee(costs: nat, basisPoints: nat): nat {
    NonNegative(costs, basisPoints);
    (costs * basisPoints + 5000) / 10000
  }

  lemma RoundedFeeMono(x: nat, y: nat, basisPoints: nat)
    requires x <= y
    ensures RoundedFee(x, basisPoints) <= RoundedFee(y, basisPoints)
  {
    ProductMono(x, basisPoints, y, basisPoints);
  }

  lemma RoundedFeeAtMost(costs: nat, basisPoints: nat)
    ensures RoundedFee(costs, basisPoints) <= costs * basisPoints + 1
  {
    NonNegative(costs, basisPoints);
  }

  lemma FeeMono(x: nat, y: nat, protocolFee: nat, creatorFee: nat, referralFee: nat)
    requires x <= y
    ensures Fee(x, protocolFee, creatorFee, referralFee) <= Fee(y, protocolFee, creatorFee, referralFee)
  {
    hide RoundedFee;
    RoundedFeeMono(x, y, protocolFee);
    RoundedFeeMono(x, y, creatorFee);
    RoundedFeeMono(x, y, referralFee);
  }

  lemma FeePartIs(costs: nat, basisPoints: nat, total: nat)
    requires IsWord(costs * basisPoints + total) && total >= 5000
    ensures FeePart(costs, basisPoints) == RoundedFee(costs, basisPoints)
  {
    hide Mul, Add, IsWord;
    NonNegative(costs, basisPoints);
    WordMono(costs * basisPoints, costs * basisPoints + total);
    ProductFits(costs, basisPoints, costs * basisPoints);
    WordMono(costs * basisPoints + 5000, costs * basisPoints + total);
    SumFits(costs * basisPoints, 5000);
  }

  lemma Distribute3(x: int, p: int, c: int, r: int)
    ensures x * (10000 + p + c + r) == x * 10000 + x * p + x * c + x * r
  {
  }

  /** Within the word range the fee, and the cost together with it, are exact. */
  lemma FeeIs(costs: nat, protocolFee: nat, creatorFee: nat, referralFee: nat)
    requires IsWord(costs * (10000 + protocolFee + creatorFee + referralFee) + 15000)
    ensures GetFee(costs, protocolFee, creatorFee, referralFee) == Fee(costs, protocolFee, creatorFee, referralFee)
    ensures Add(costs, Fee(costs, protocolFee, creatorFee, referralFee)) ==
            costs + Fee(costs, protocolFee, creatorFee, referralFee)
  {
    hide Mul, Add, IsWord, FeePart, RoundedFee;
    Distribute3(costs, protocolFee, creatorFee, referralFee);
    NonNegative(costs, protocolFee);
    NonNegative(costs, creatorFee);
    NonNegative(costs, referralFee);
    var p, c, r := costs * protocolFee, costs * creatorFee, costs * referralFee;
    var all := costs * 10000 + p + c + r + 15000;
    WordMono(p + 5000, all);
    WordMono(c + 5000, all);
    WordMono(r + 5000, all);
    FeePartIs(costs, protocolFee, 5000);
    FeePartIs(costs, creatorFee, 5000);
    FeePartIs(costs, referralFee, 5000);
    RoundedFeeAtMost(costs, protocolFee);
    RoundedFeeAtMost(costs, creatorFee);
    RoundedFeeAtMost(costs, referralFee);
    var fp, fc, fr := RoundedFee(costs, protocolFee), RoundedFee(costs, creatorFee), RoundedFee(costs, referralFee);
    WordMono(0 + fp, all);
    SumFits(0, fp);
    WordMono(fp + fc, all);
    SumFits(fp, fc);
    WordMono(fp + fc + fr, all);
    SumFits(fp + fc, fr);
    WordMono(costs + (fp + fc + fr), all);
    SumFits(costs, fp + fc + fr);
  }
}
