/** Tick and price conversion: square-root ratios of ticks in Q64.64, multiplied together from one factor per bit
of the tick, and the tick of a price as the greatest one whose ratio does not exceed it. */
module AmbientTickMath {
  import opened Arith
  import opened Words
  import opened Bits
  import opened AmbientCurve

  const FACTORS: seq<nat> := [
    0xfffcb933bd6fad37aa2d162d1a594001, 0xfff97272373d413259a46990580e213a,
    0xfff2e50f5f656932ef12357cf3c7fdcc, 0xffe5caca7e10e4e61c3624eaa0941cd0,
    0xffcb9843d60f6159c9db58835c926644, 0xff973b41fa98c081472e6896dfb254c0,
    0xff2ea16466c96a3843ec78b326b52861, 0xfe5dee046a99a2a811c461f1969c3053,
    0xfcbe86c7900a88aedcffc83b479aa3a4, 0xf987a7253ac413176f2b074cf7815e54,
    0xf3392b0822b70005940c7a398e4b70f3, 0xe7159475a2c29b7443b29c7fa6e889d9,
    0xd097f3bdfd2022b8845ad8f792aa5825, 0xa9f746462d870fdf8a65dc1f90e061e5,
    0x70d869a156d2a1b890bb3df62baf32f7, 0x31be135f97d08fd981231505542fcfa6,
    0x9aa508b5b7a84e1c677de54f3e99bc9, 0x5d6af8dedb81196699c329225ee604,
    0x2216e584f5fa1ea926041bedfe98, 0x48a170391f7dc42444e8fa2]

  /** Number of bits of a tick that have a factor. */
  const WIDTH: nat := 20

  /** The ratio times the factors of the set bits of `bits`, from the i-th on. */
  function Scaled(bits: nat, i: nat, ratio: nat): nat
    requires i <= WIDTH
    decreases WIDTH - i
  {
    if i == WIDTH then ratio
    else Scaled(bits / 2, i + 1, if bits % 2 == 1 then Shortened(ratio, i) else ratio)
  }

  function Factor(i: nat): nat
    requires i < WIDTH
  {
    FACTORS[i]
  }

  function Shortened(ratio: nat, i: nat): nat
    requires i < WIDTH
  {
    Times(ratio, Factor(i)) / TWO_128
  }

  function Clamped(tick: int): int {
    if tick < MIN_TICK then MIN_TICK else if tick > MAX_TICK then MAX_TICK else tick
  }

  function RoundedUpQ64(ratio: nat): nat {
    ratio / TWO_64 + if ratio % TWO_64 == 0 then 0 else 1
  }

  function SqrtRatioAtTick(tick: int): nat {
    var t := Clamped(tick);
    var ratio := Scaled(if t < 0 then -t else t, 0, TWO_128);
    RoundedUpQ64(if t > 0 then Div(TWO_256 - 1, ratio) else ratio)
  }

  /** The greatest tick at or below `t` whose ratio is at most the price. */
  function TickAtOrBelow(price: nat, t: int): int
    decreases t - MIN_TICK
  {
    if t <= MIN_TICK || SqrtRatioAtTick(t) <= price then t else TickAtOrBelow(price, t - 1)
  }

  function TickAtSqrtRatio(price: nat): int {
    TickAtOrBelow(price, MAX_TICK)
  }

  // ----- prices above 1 belong to positive ticks

  lemma {:induction false} ScaledFalls(bits: nat, i: nat, ratio: nat, width: nat)
    requires i <= WIDTH && width + i == WIDTH
    ensures Scaled(bits, i, ratio) <= ratio
    ensures 0 < bits < Pow2(width) && ratio > 0 ==> Scaled(bits, i, ratio) < ratio
    decreases WIDTH - i
  {
    if i < WIDTH {
      hide Shortened;
      FactorLowers(ratio, i);
      ScaledFalls(bits / 2, i + 1, if bits % 2 == 1 then Shortened(ratio, i) else ratio, width - 1);
    }
  }

  lemma FactorLowers(ratio: nat, i: nat)
    requires i < WIDTH
    ensures Shortened(ratio, i) <= ratio && (ratio > 0 ==> Shortened(ratio, i) < ratio)
  {
    var factor := Factor(i);
    assert factor < TWO_128;
    hide Times, Factor;
    TimesIs(ratio, factor);
    MulMono(factor, TWO_128 - 1, ratio);
    NonNegative(ratio, factor);
  }

  /** Bits by which the i-th factor can shorten a ratio. */
  function Loss(i: nat): nat {
    if i < 14 then 1 else if i == 14 then 2 else if i == 15 then 3 else if i == 16 then 5
    else if i == 17 then 10 else if i == 18 then 19 else 38
  }

  function LossFrom(i: nat): nat
    requires i <= WIDTH
    decreases WIDTH - i
  {
    if i == WIDTH then 0 else Loss(i) + LossFrom(i + 1)
  }

  lemma TotalLoss()
    ensures LossFrom(0) == 91
  {
    assert LossFrom(16) == 72;
    assert LossFrom(12) == 79;
    assert LossFrom(8) == 83;
    assert LossFrom(4) == 87;
  }

  lemma FactorAtLeast(i: nat)
    requires i < WIDTH
    ensures Factor(i) * Pow2(Loss(i)) >= TWO_128
  {
    hide Pow2;
    LossPowers();
    FactorSizes(i);
    hide Factor;
  }

  lemma FactorSizes(i: nat)
    requires i < WIDTH
    ensures Factor(i) * (if i < 14 then 2 else if i == 14 then 4 else if i == 15 then 8 else if i == 16 then 32
                         else if i == 17 then 1024 else if i == 18 then 0x8_0000 else 0x40_0000_0000) >= TWO_128
  {
  }

  lemma LossPowers()
    ensures Pow2(1) == 2 && Pow2(2) == 4 && Pow2(3) == 8 && Pow2(5) == 32 && Pow2(10) == 1024
    ensures Pow2(19) == 0x8_0000 && Pow2(38) == 0x40_0000_0000
  {
    hide Pow2;
    SmallPower();
    Pow2One();
    PowerDoubled(1, 2);
    Pow2Add(2, 1);
    Pow2Add(4, 1);
    PowerDoubled(5, 32);
    Pow2Add(10, 5);
    Pow2Add(15, 4);
    PowerDoubled(19, 0x8_0000);
  }

  /** A ratio of more than m bits keeps more than m - l through a factor that loses at most l. */
  lemma FactorKeeps(ratio: nat, i: nat, m: nat)
    requires i < WIDTH && Loss(i) <= m && ratio >= Pow2(m)
    ensures Shortened(ratio, i) >= Pow2(m - Loss(i)) && ratio >= Pow2(m - Loss(i))
  {
    hide Pow2, Times, Loss, Factor;
    FactorAtLeast(i);
    TimesIs(ratio, Factor(i));
    Pow2Add(m - Loss(i), Loss(i));
    MulAtLeast(Pow2(Loss(i)), Pow2(m - Loss(i)));
    KeepsBits(ratio, Factor(i), TWO_128, Pow2(m - Loss(i)), Pow2(Loss(i)));
  }

  lemma KeepsBits(ratio: nat, factor: nat, w: nat, p: nat, q: nat)
    requires w > 0 && ratio >= p * q && factor * q >= w
    ensures ratio * factor / w >= p
  {
    MulMono(p * q, ratio, factor);
    MulMono(w, factor * q, p);
    assert p * q * factor == p * (factor * q);
    FloorAtLeast(ratio * factor, w, p);
  }

  lemma {:induction false} ScaledKeeps(bits: nat, i: nat, ratio: nat, m: nat)
    requires i <= WIDTH && m >= LossFrom(i) && ratio >= Pow2(m)
    ensures Scaled(bits, i, ratio) >= Pow2(m - LossFrom(i))
    decreases WIDTH - i
  {
    hide Pow2, Loss, Shortened, Scaled, LossFrom;
    if i < WIDTH {
      LossStep(i);
      FactorKeeps(ratio, i, m);
      ScaledStep(bits, i, ratio);
      ScaledKeeps(bits / 2, i + 1, if bits % 2 == 1 then Shortened(ratio, i) else ratio, m - Loss(i));
    } else {
      ScaledEnds(bits, ratio);
    }
  }

  lemma LossStep(i: nat)
    requires i < WIDTH
    ensures LossFrom(i) == Loss(i) + LossFrom(i + 1)
  {
  }

  lemma ScaledEnds(bits: nat, ratio: nat)
    ensures Scaled(bits, WIDTH, ratio) == ratio && LossFrom(WIDTH) == 0
  {
  }

  /** Every positive tick has a ratio above 2^64. */
  lemma PositiveTickAbove(t: int)
    requires 0 < t <= MAX_TICK
    ensures SqrtRatioAtTick(t) > TWO_64
  {
    hide Scaled, Div, Pow2;
    Bits20();
    ScaledFalls(t, 0, TWO_128, 20);
    TotalLoss();
    ScaledKeeps(t, 0, TWO_128, 128);
    InverseAbove(Scaled(t, 0, TWO_128));
  }

  lemma Bits20()
    ensures Pow2(20) == 0x10_0000 && Pow2(128) == TWO_128
  {
    SmallPower();
    PowerDoubled(4, 0x10);
    PowerDoubled(8, 0x100);
    Pow2Add(16, 4);
    PowerDoubled(16, 0x1_0000);
    PowerDoubled(32, 0x1_0000_0000);
    PowerDoubled(64, TWO_64);
    hide Pow2;
  }

  lemma InverseAbove(ratio: nat)
    requires 0 < ratio < TWO_128
    ensures Div(TWO_256 - 1, ratio) >= TWO_128 + 1
  {
    hide Div;
    DivIs(TWO_256 - 1, ratio);
    FloorAtLeast(TWO_256 - 1, ratio, TWO_128 + 1);
    MulMono(ratio, TWO_128 - 1, TWO_128 + 1);
  }

  lemma {:induction false} NothingScales(i: nat, ratio: nat)
    requires i <= WIDTH
    ensures Scaled(0, i, ratio) == ratio
    decreases WIDTH - i
  {
    if i < WIDTH {
      NothingScales(i + 1, ratio);
    }
  }

  lemma UnitRatio()
    ensures SqrtRatioAtTick(0) == TWO_64
  {
    hide Scaled;
    NothingScales(0, TWO_128);
  }

  lemma {:induction false} TickOfUnitFrom(t: int)
    requires 0 <= t <= MAX_TICK
    ensures TickAtOrBelow(TWO_64, t) == 0
    decreases t
  {
    hide SqrtRatioAtTick;
    UnitRatio();
    if t > 0 {
      PositiveTickAbove(t);
      TickOfUnitFrom(t - 1);
    }
  }

  lemma TickOfUnit()
    ensures TickAtSqrtRatio(TWO_64) == 0
  {
    TickOfUnitFrom(MAX_TICK);
  }

  // ----- the ratios of two ticks

  lemma ShortenedIs(ratio: nat, i: nat, product: nat, r: nat)
    requires i < WIDTH && product == ratio * Factor(i) && r == product / TWO_128
    ensures Shortened(ratio, i) == r
  {
    hide Times, Factor;
    TimesIs(ratio, Factor(i));
  }

  lemma SomeFactors()
    ensures Factor(2) == 0xfff2e50f5f656932ef12357cf3c7fdcc && Factor(5) == 0xff973b41fa98c081472e6896dfb254c0
    ensures Factor(6) == 0xff2ea16466c96a3843ec78b326b52861 && Factor(8) == 0xfcbe86c7900a88aedcffc83b479aa3a4
  {
  }

  lemma ScaledStep(bits: nat, i: nat, ratio: nat)
    requires i < WIDTH
    ensures Scaled(bits, i, ratio) == Scaled(bits / 2, i + 1, if bits % 2 == 1 then Shortened(ratio, i) else ratio)
  {
  }

  /** 100 = 4 + 32 + 64. */
  lemma ScaledAt100()
    ensures Scaled(100, 0, TWO_128) == 0xfeb927758f54316b45a2d3b2e60e58f4
  {
    hide Shortened, Scaled, Factor;
    SomeFactors();
    var a, b, c :=
      0xfff2e50f5f656932ef12357cf3c7fdcc, 0xff8a25ae5e19e8ded1d1ff082f70ee02, 0xfeb927758f54316b45a2d3b2e60e58f4;
    ShortenedIs(TWO_128, 2, TWO_128 * a, a);
    ShortenedIs(a, 5, a * 0xff973b41fa98c081472e6896dfb254c0, b);
    ShortenedIs(b, 6, b * 0xff2ea16466c96a3843ec78b326b52861, c);
    ScaledStep(100, 0, TWO_128);
    ScaledStep(50, 1, TWO_128);
    ScaledStep(25, 2, TWO_128);
    ScaledStep(12, 3, a);
    ScaledStep(6, 4, a);
    ScaledStep(3, 5, a);
    ScaledStep(1, 6, b);
    NothingScales(7, c);
  }

  lemma ScaledAt256()
    ensures Scaled(256, 0, TWO_128) == 0xfcbe86c7900a88aedcffc83b479aa3a4
  {
    hide Shortened, Scaled, Factor;
    SomeFactors();
    var a := 0xfcbe86c7900a88aedcffc83b479aa3a4;
    ShortenedIs(TWO_128, 8, TWO_128 * a, a);
    ScaledStep(256, 0, TWO_128);
    ScaledStep(128, 1, TWO_128);
    ScaledStep(64, 2, TWO_128);
    ScaledStep(32, 3, TWO_128);
    ScaledStep(16, 4, TWO_128);
    ScaledStep(8, 5, TWO_128);
    ScaledStep(4, 6, TWO_128);
    ScaledStep(2, 7, TWO_128);
    ScaledStep(1, 8, TWO_128);
    NothingScales(9, a);
  }

  lemma SomeRatios()
    ensures SqrtRatioAtTick(100) == 18539204128674405813 && SqrtRatioAtTick(256) == 18684368066214940583
    ensures SqrtRatioAtTick(-100) == 18354745142194483564
  {
    hide Scaled, Div;
    ScaledAt100();
    ScaledAt256();
    DivIs(TWO_256 - 1, 0xfeb927758f54316b45a2d3b2e60e58f4);
    DivIs(TWO_256 - 1, 0xfcbe86c7900a88aedcffc83b479aa3a4);
  }
}
