/** What one leg of an Ambient swap pays on either side, in plain arithmetic: the reserves between two prices, the
price at which a quantity runs out, and the fee taken from the other side. */
module AmbientPays {
  import opened Arith
  import opened Words
  import opened AmbientCurve

  // ----- active liquidity

  /** The ambient seeds with their growth in 2^48ths, rounded down and cut at 2^128 - 1, and the concentrated
      liquidity. */
  lemma LiquidityIs(c: Curve)
    requires c.ambientSeeds * (TWO_48 + c.seedDeflator) < TWO_256 && c.concLiq < TWO_255
    ensures c.ambientSeeds * c.seedDeflator / TWO_48 >= 0
    ensures ActiveLiquidity(c) ==
            Min(c.ambientSeeds + c.ambientSeeds * c.seedDeflator / TWO_48, TWO_128 - 1) + c.concLiq
  {
    hide InflateLiqSeed;
    InflatedIs(c.ambientSeeds, c.seedDeflator);
    SumFits(InflateLiqSeed(c.ambientSeeds, c.seedDeflator), c.concLiq);
  }

  lemma InflatedIs(seeds: nat, growth: nat)
    requires seeds * (TWO_48 + growth) < TWO_256
    ensures seeds * growth / TWO_48 >= 0
    ensures InflateLiqSeed(seeds, growth) == Min(seeds + seeds * growth / TWO_48, TWO_128 - 1)
  {
    hide Mul;
    NonNegative(seeds, growth);
    NonNegative(seeds, TWO_48 + growth);
    ProductFits(seeds, TWO_48 + growth, seeds * (TWO_48 + growth));
    GrowthSplits(seeds, growth);
  }

  lemma GrowthSplits(seeds: nat, growth: nat)
    ensures seeds * (TWO_48 + growth) / TWO_48 == seeds + seeds * growth / TWO_48
  {
    assert seeds * (TWO_48 + growth) == seeds * growth + seeds * TWO_48;
  }

  // ----- reserves between two prices

  function Dist(p: nat, q: nat): nat {
    if p > q then p - q else q - p
  }

  /** Base reserves between the prices p and q: L |q - p| / 2^64, rounded down. */
  predicate IsBaseOf(b: nat, liq: nat, p: nat, q: nat) {
    b * TWO_64 <= liq * Dist(p, q) < b * TWO_64 + TWO_64
  }

  /** Quote reserves between the prices p and q: L 2^64 |q - p| / (p q), rounded down and at most one below. */
  predicate IsQuoteOf(o: nat, liq: nat, p: nat, q: nat) {
    o * (p * q) <= liq * TWO_64 * Dist(p, q) < (o + 2) * (p * q)
  }

  /** The product in the quote reserves fits a word. */
  predicate QuoteFits(liq: nat, p: nat, q: nat)
    requires p > 0 && q > 0
  {
    liq * TWO_64 / Min(p, q) * Dist(p, q) < TWO_256
  }

  predicate InRange(price: nat) {
    MIN_SQRT_RATIO <= price < MAX_SQRT_RATIO
  }

  lemma BaseIs(liq: nat, p: nat, q: nat)
    requires liq < TWO_128 && p < TWO_128 && q < TWO_128
    ensures IsBaseOf(DeltaBase(liq, p, q), liq, p, q)
  {
    hide Mul;
    var d := Dist(p, q);
    ProductMono(liq, d, TWO_128 - 1, TWO_128 - 1);
    ProductFits(liq, d, liq * d);
  }

  /** The two floors of the quote reserves, for a = L 2^64 and s < b. */
  lemma TwoFloors(a: nat, s: nat, b: nat, t: nat, o: nat)
    requires 0 < s <= b && t == a / s && t * (b - s) >= 0 && o == t * (b - s) / b
    ensures o * (s * b) <= a * (b - s) < (o + 2) * (s * b)
  {
    var g := b - s;
    FloorAtLeast(a, s, t);
    FloorAtLeast(a, s, t + 1);
    FloorAtLeast(t * g, b, o);
    FloorAtLeast(t * g, b, o + 1);
    TwoFloorsAbove(a, s, b, g, t, o);
    TwoFloorsBelow(a, s, b, g, t, o);
  }

  lemma TwoFloorsAbove(a: nat, s: nat, b: nat, g: nat, t: nat, o: nat)
    requires s * t <= a && b * o <= t * g
    ensures o * (s * b) <= a * g
  {
    MulMono(b * o, t * g, s);
    MulMono(s * t, a, g);
    assert b * o * s == o * (s * b);
    assert t * g * s == s * t * g;
  }

  lemma TwoFloorsBelow(a: nat, s: nat, b: nat, g: nat, t: nat, o: nat)
    requires a < s * (t + 1) && t * g < b * (o + 1) && 0 < s && g <= b
    ensures a * g < (o + 2) * (s * b)
  {
    MulMono(a, s * (t + 1), g);
    assert s * (t + 1) * g == s * (t * g + g);
    assert t * g + g < b * (o + 2) by { assert b * (o + 2) == b * (o + 1) + b; }
    MulMono(t * g + g + 1, b * (o + 2), s);
    assert (t * g + g + 1) * s == s * (t * g + g) + s;
    assert b * (o + 2) * s == (o + 2) * (s * b);
  }

  lemma QuoteIs(liq: nat, p: nat, q: nat)
    requires liq < TWO_128 && 0 < p < TWO_128 && 0 < q < TWO_128 && QuoteFits(liq, p, q)
    ensures IsQuoteOf(DeltaQuote(liq, p, q), liq, p, q)
    ensures DeltaQuote(liq, p, q) <= liq * TWO_64 / Min(p, q)
  {
    hide Mul, Div, Sub, DivQ64;
    var s, b, g := Min(p, q), Max(p, q), Dist(p, q);
    var t := liq * TWO_64 / s;
    FirstFloor(liq, s);
    DifferenceFits(b, s);
    QuoteFloor(t, g, b);
    ReservesBetween(liq, p, q);
  }

  lemma FirstFloor(liq: nat, s: nat)
    requires liq < TWO_128 && s > 0
    ensures 0 <= liq * TWO_64 / s == DivQ64(liq, s)
  {
    hide Mul, Div;
    ProductFits(liq, TWO_64, liq * TWO_64);
    DivIs(liq * TWO_64, s);
  }

  lemma QuoteFloor(t: nat, g: nat, b: nat)
    requires 0 < b && g <= b && t * g < TWO_256
    ensures 0 <= t * g / b == Div(Mul(t, g), b) <= t
  {
    hide Mul, Div;
    NonNegative(t, g);
    ProductFits(t, g, t * g);
    DivIs(t * g, b);
    ShareOfFloor(t, g, b);
  }

  lemma ReservesBetween(liq: nat, p: nat, q: nat)
    requires p > 0 && q > 0
    ensures var t := liq * TWO_64 / Min(p, q);
            0 <= t && 0 <= t * Dist(p, q) / Max(p, q) && IsQuoteOf(t * Dist(p, q) / Max(p, q), liq, p, q)
  {
    var s, b := Min(p, q), Max(p, q);
    var t := liq * TWO_64 / s;
    DivNat(liq * TWO_64, s);
    NonNegative(t, b - s);
    DivNat(t * (b - s), b);
    TwoFloors(liq * TWO_64, s, b, t, t * (b - s) / b);
    assert s * b == p * q;
  }

  lemma ShareOfFloor(t: nat, g: nat, b: nat)
    requires g <= b && b > 0
    ensures 0 <= t * g / b <= t
  {
    NonNegative(t, g);
    DivNat(t * g, b);
    MulMono(g, b, t);
    FloorAtLeast(t * g, b, t + 1);
    assert b * (t + 1) == b * t + b;
  }

  // ----- where a quantity runs out

  /** From the price `from`, a base quantity `x` moves the curve by x 2^64 / L, rounded down: up to `to`, or down to
      one below, or down to nothing. */
  predicate Moves(liq: nat, from: nat, x: nat, up: bool, to_: nat) {
    if up then to_ >= from && liq * (to_ - from) <= x * TWO_64 < liq * (to_ - from + 1)
    else if liq * from <= x * TWO_64 then to_ == 0
    else to_ < from && liq * (from - to_ - 1) <= x * TWO_64 < liq * (from - to_)
  }

  function Clamped(price: nat): nat {
    if price >= MAX_SQRT_RATIO then MAX_SQRT_RATIO - 1 else if price < MIN_SQRT_RATIO then MIN_SQRT_RATIO else price
  }

  /** A base quantity moves the price; a quote quantity moves its reciprocal the other way. */
  ghost predicate IsStop(liq: nat, p: nat, x: nat, inBaseQty: bool, isBuy: bool, q: nat)
    requires p > 0
  {
    if inBaseQty
    then exists raw: nat :: Moves(liq, p, x, isBuy, raw) && q == Clamped(raw)
    else
      exists inverse: nat :: Moves(liq, Recip(p), x, !isBuy, inverse) &&
        q == if inverse == 0 then MAX_SQRT_RATIO - 1 else Clamped(Recip(inverse) + 1)
  }

  function Recip(x: nat): nat
    requires x > 0
  {
    DivNat(TWO_128, x);
    TWO_128 / x
  }

  lemma RecipIs(x: nat)
    requires x > 0
    ensures RecipQ64(x) == Recip(x) <= TWO_128
  {
    hide Div;
    DivIs(TWO_128, x);
    DivAtMost(TWO_128, x);
  }

  lemma MovesIs(liq: nat, from: nat, x: nat, up: bool)
    requires 0 < liq && x * TWO_64 < liq * TWO_128 <= TWO_256 && from <= TWO_128
    ensures Moves(liq, from, x, up, CalcBaseFlowPrice(from, liq, x, up))
  {
    hide Moves, DivQ64;
    DeltaIs(liq, x);
    MovedBy(liq, from, x, up, DivQ64(x, liq));
    BaseFlowPriceIs(from, liq, x, up);
  }

  lemma DeltaIs(liq: nat, x: nat)
    requires 0 < liq && x * TWO_64 < liq * TWO_128 <= TWO_256
    ensures DivQ64(x, liq) == x * TWO_64 / liq && DivQ64(x, liq) < TWO_128
  {
    hide Mul, Div;
    ProductFits(x, TWO_64, x * TWO_64);
    DivIs(x * TWO_64, liq);
    FloorAtLeast(x * TWO_64, liq, TWO_128);
  }

  lemma BaseFlowPriceIs(from: nat, liq: nat, x: nat, up: bool)
    requires 0 < liq && DivQ64(x, liq) < TWO_128 && from <= TWO_128
    ensures var delta := DivQ64(x, liq);
            CalcBaseFlowPrice(from, liq, x, up) ==
            if up then from + delta else if delta >= from then 0 else from - delta - 1
  {
    hide DivQ64;
  }

  lemma MovedBy(liq: nat, from: nat, x: nat, up: bool, delta: nat)
    requires 0 < liq && delta == x * TWO_64 / liq
    ensures Moves(liq, from, x, up, if up then from + delta else if delta >= from then 0 else from - delta - 1)
  {
    var n := x * TWO_64;
    FloorAtLeast(n, liq, delta);
    FloorAtLeast(n, liq, delta + 1);
    FloorAtLeast(n, liq, from);
  }

  lemma StopIs(liq: nat, p: nat, x: nat, inBaseQty: bool, isBuy: bool)
    requires 0 < liq && x * TWO_64 < liq * TWO_128 <= TWO_256 && 0 < p <= TWO_128
    ensures IsStop(liq, p, x, inBaseQty, isBuy, DeriveFlowPrice(p, liq, x, inBaseQty, isBuy))
  {
    hide CalcBaseFlowPrice, Moves, Div;
    if inBaseQty {
      MovesIs(liq, p, x, isBuy);
      assert DeriveFlowPrice(p, liq, x, true, isBuy) == Clamped(CalcBaseFlowPrice(p, liq, x, isBuy));
    } else {
      RecipIs(p);
      MovesIs(liq, Recip(p), x, !isBuy);
      var inverse := CalcBaseFlowPrice(Recip(p), liq, x, !isBuy);
      if inverse > 0 {
        RecipIs(inverse);
        SumFits(Recip(inverse), 1);
      }
      hide Recip, RecipQ64, Add;
      assert CalcQuoteFlowPrice(p, liq, x, isBuy) == if inverse == 0 then MAX_SQRT_RATIO else Recip(inverse) + 1;
      assert Moves(liq, Recip(p), x, !isBuy, inverse);
    }
  }

  // ----- what a leg pays

  /** A word read as a two's complement number. */
  function Signed(x: nat): int {
    if x < TWO_255 then x else x - TWO_256
  }

  /** A buy pays base and gets quote, a sell the other way round; each side may carry a rounding buffer. */
  predicate Pays(r: Rolled, isBuy: bool, base: int, quote: int, baseBuffer: int, quoteBuffer: int) {
    && Signed(r.paidBase) == (if isBuy then base else -base) + baseBuffer
    && Signed(r.paidQuote) == (if isBuy then -quote else quote) + quoteBuffer
  }

  /** The leg gets to its limit price: it moves the reserves up to there, fewer than the quantity, and both sides
      are charged the buffer. */
  ghost predicate ReachesLimit(liq: nat, p: nat, d: Direction, qty: nat, limit: nat, r: Rolled) {
    r.price == limit && exists b: nat, o: nat :: ReachesWith(liq, p, d, qty, limit, r, b, o)
  }

  predicate ReachesWith(liq: nat, p: nat, d: Direction, qty: nat, limit: nat, r: Rolled, b: nat, o: nat) {
    && IsBaseOf(b, liq, p, limit) && IsQuoteOf(o, liq, p, limit) && (if d.inBaseQty then b else o) < qty
    && Pays(r, d.isBuy, b, o, ROUND_PRECISION_WEI, ROUND_PRECISION_WEI)
  }

  /** The leg stops where the quantity runs out: exactly the quantity on its side, and on the other the reserves up
      to that price with the buffer. `most` are the reserves up to the limit. */
  ghost predicate StopsShort(liq: nat, p: nat, d: Direction, qty: nat, limit: nat, r: Rolled)
    requires p > 0
  {
    && r.qtyLeft == 0 && IsStop(liq, p, qty, d.inBaseQty, d.isBuy, r.price)
    && exists most: nat, other: nat :: StopsWith(liq, p, d, qty, limit, r, most, other)
  }

  predicate StopsWith(liq: nat, p: nat, d: Direction, qty: nat, limit: nat, r: Rolled, most: nat, other: nat) {
    && qty <= most
    && if d.inBaseQty
       then
         && IsBaseOf(most, liq, p, limit) && IsQuoteOf(other, liq, p, r.price)
         && Pays(r, d.isBuy, qty, other, 0, ROUND_PRECISION_WEI)
       else
         && IsQuoteOf(most, liq, p, limit) && IsBaseOf(other, liq, p, r.price)
         && Pays(r, d.isBuy, other, qty, ROUND_PRECISION_WEI, 0)
  }

  lemma SignedPaid(flow: nat, x: int)
    requires flow < TWO_255 - ROUND_PRECISION_WEI && x == flow
    ensures Signed(flow) == x && Signed(Add(flow, ROUND_PRECISION_WEI)) == x + ROUND_PRECISION_WEI
    ensures Signed(Neg(flow)) == -x && Signed(Add(Neg(flow), ROUND_PRECISION_WEI)) == ROUND_PRECISION_WEI - x
  {
    if flow > 0 {
      NegIs(flow);
    }
  }

  /** Reserves between prices in range stay clear of the sign bit. */
  lemma ReservesSmall(liq: nat, p: nat, q: nat)
    requires q >= MIN_SQRT_RATIO
    ensures DeltaBase(liq, p, q) < TWO_255 - ROUND_PRECISION_WEI
    ensures DeltaQuote(liq, p, q) < TWO_255 - ROUND_PRECISION_WEI
  {
    hide Times, DivQ64, Div, Sub;
    var big, small := Max(p, q), Min(p, q);
    var n := Mul(DivQ64(liq, small), Sub(big, small));
    assert DeltaQuote(liq, p, q) == Div(n, big);
    DivIs(n, big);
    FloorAtLeast(n, big, TWO_255 - ROUND_PRECISION_WEI);
    MulMono(MIN_SQRT_RATIO, big, TWO_255 - ROUND_PRECISION_WEI);
  }

  /** A quantity within the reserves up to the limit moves the curve by less than 2^128. */
  lemma MoveIsSmall(liq: nat, p: nat, limit: nat, inBaseQty: bool, x: nat, most: nat)
    requires 0 < liq < TWO_128 && InRange(p) && InRange(limit) && x <= most
    requires if inBaseQty then IsBaseOf(most, liq, p, limit) else most <= liq * TWO_64 / Min(p, limit)
    ensures x * TWO_64 < liq * TWO_128 <= TWO_256
  {
    if inBaseQty {
      MulMono(Dist(p, limit), TWO_128 - 1, liq);
    } else {
      var s := Min(p, limit);
      FloorAtLeast(liq * TWO_64, s, most);
      MulMono(2, s, most);
    }
  }

  /** What one leg can come to. */
  ghost predicate LegComesTo(liq: nat, p: nat, d: Direction, qty: nat, limit: nat, r: Rolled)
    requires p > 0
  {
    ReachesLimit(liq, p, d, qty, limit, r) || StopsShort(liq, p, d, qty, limit, r)
  }

  /** A leg either gets to its limit or stops where the quantity runs out, and what it pays on each side are the
      reserves between the two prices, rounded down, with the buffer on top. */
  lemma LegPays(c: Curve, d: Direction, qty: nat, limit: nat)
    requires 0 < ActiveLiquidity(c) < TWO_128 && InRange(c.priceRoot) && InRange(limit)
    requires QuoteFits(ActiveLiquidity(c), c.priceRoot, limit)
    requires var q := SwapOverCurve(c, d, qty, limit).price;
             q > 0 ==> QuoteFits(ActiveLiquidity(c), c.priceRoot, q)
    ensures LegComesTo(ActiveLiquidity(c), c.priceRoot, d, qty, limit, SwapOverCurve(c, d, qty, limit))
  {
    hide ActiveLiquidity, DeltaBase, DeltaQuote, IsBaseOf, IsQuoteOf, QuoteFits, DeriveFlowPrice, RollFlow, RollPrice,
      ReachesLimit, StopsShort;
    var liq, p := ActiveLiquidity(c), c.priceRoot;
    BaseIs(liq, p, limit);
    QuoteIs(liq, p, limit);
    var most := LimitFlow(c, d.inBaseQty, limit);
    if most < qty {
      ReachPays(c, d, qty, limit);
    } else {
      MoveIsSmall(liq, p, limit, d.inBaseQty, qty, most);
      StopIs(liq, p, qty, d.inBaseQty, d.isBuy);
      DerivedInRange(p, liq, qty, d.inBaseQty, d.isBuy);
      ReservesSmall(liq, p, limit);
      RollStops(c, d, qty);
      StopLegPays(c, d, qty, limit, most);
    }
  }

  lemma ReachPays(c: Curve, d: Direction, qty: nat, limit: nat)
    requires var liq := ActiveLiquidity(c);
             && IsBaseOf(DeltaBase(liq, c.priceRoot, limit), liq, c.priceRoot, limit)
             && IsQuoteOf(DeltaQuote(liq, c.priceRoot, limit), liq, c.priceRoot, limit)
    requires limit >= MIN_SQRT_RATIO && LimitFlow(c, d.inBaseQty, limit) < qty
    ensures ReachesLimit(ActiveLiquidity(c), c.priceRoot, d, qty, limit, RollPrice(c, d, limit, qty))
  {
    hide ActiveLiquidity, DeltaBase, DeltaQuote, IsBaseOf, IsQuoteOf, CurvePos, SignMagn, Pays;
    var liq, p := ActiveLiquidity(c), c.priceRoot;
    ReservesSmall(liq, p, limit);
    LimitPays(d, qty, limit, LimitFlow(c, d.inBaseQty, limit), LimitFlow(c, !d.inBaseQty, limit));
    assert ReachesWith(liq, p, d, qty, limit, RollPrice(c, d, limit, qty), DeltaBase(liq, p, limit),
      DeltaQuote(liq, p, limit));
  }

  lemma RollStops(c: Curve, d: Direction, qty: nat)
    ensures RollFlow(c, d, qty, qty).price ==
            DeriveFlowPrice(c.priceRoot, ActiveLiquidity(c), qty, d.inBaseQty, d.isBuy)
  {
    hide ActiveLiquidity, DeltaBase, DeltaQuote, DeriveFlowPrice, SignMagn, FlowToSpent;
  }

  lemma StopLegPays(c: Curve, d: Direction, qty: nat, limit: nat, most: nat)
    requires 0 < ActiveLiquidity(c) < TWO_128 && InRange(c.priceRoot) && qty < TWO_255 - ROUND_PRECISION_WEI
    requires qty <= most
    requires var liq, p := ActiveLiquidity(c), c.priceRoot;
             if d.inBaseQty then IsBaseOf(most, liq, p, limit) else IsQuoteOf(most, liq, p, limit)
    requires var liq, q := ActiveLiquidity(c), RollFlow(c, d, qty, qty).price;
             && q == DeriveFlowPrice(c.priceRoot, liq, qty, d.inBaseQty, d.isBuy)
             && InRange(q) && QuoteFits(liq, c.priceRoot, q)
             && IsStop(liq, c.priceRoot, qty, d.inBaseQty, d.isBuy, q)
    ensures StopsShort(ActiveLiquidity(c), c.priceRoot, d, qty, limit, RollFlow(c, d, qty, qty))
  {
    hide ActiveLiquidity, DeltaBase, DeltaQuote, IsBaseOf, IsQuoteOf, CurvePos, SignMagn, Pays, QuoteFits, IsStop,
      DeriveFlowPrice;
    var liq, p, r := ActiveLiquidity(c), c.priceRoot, RollFlow(c, d, qty, qty);
    var q := r.price;
    BaseIs(liq, p, q);
    QuoteIs(liq, p, q);
    ReservesSmall(liq, p, q);
    var other := if d.inBaseQty then DeltaQuote(liq, p, q) else DeltaBase(liq, p, q);
    StopPays(d, qty, q, other);
    assert StopsWith(liq, p, d, qty, limit, r, most, other);
  }

  lemma DerivedInRange(price: nat, liq: nat, flow: nat, inBaseQty: bool, isBuy: bool)
    ensures InRange(DeriveFlowPrice(price, liq, flow, inBaseQty, isBuy))
  {
    hide CalcBaseFlowPrice, CalcQuoteFlowPrice;
  }

  /** Both sides of a leg that gets to its limit. */
  lemma LimitPays(d: Direction, qty: nat, limit: nat, flow: nat, counter: nat)
    requires flow < TWO_255 - ROUND_PRECISION_WEI && counter < TWO_255 - ROUND_PRECISION_WEI
    ensures var (paidFlow, paidCounter) := SignMagn(flow, counter, d.inBaseQty, d.isBuy);
            var r := CurvePos(d, qty, limit, Add(paidFlow, ROUND_PRECISION_WEI), Add(paidCounter, ROUND_PRECISION_WEI));
            r.price == limit && Pays(r, d.isBuy, if d.inBaseQty then flow else counter,
              if d.inBaseQty then counter else flow, ROUND_PRECISION_WEI, ROUND_PRECISION_WEI)
  {
    hide Signed, Add, Neg, FlowToSpent;
    SignedPaid(flow, flow);
    SignedPaid(counter, counter);
  }

  /** Both sides of a leg that stops short. */
  lemma StopPays(d: Direction, qty: nat, price: nat, other: nat)
    requires qty < TWO_255 - ROUND_PRECISION_WEI && other < TWO_255 - ROUND_PRECISION_WEI
    ensures var (paidFlow, paidCounter) := SignMagn(qty, other, d.inBaseQty, d.isBuy);
            var r := CurvePos(d, qty, price, paidFlow, Add(paidCounter, ROUND_PRECISION_WEI));
            r.price == price && r.qtyLeft == 0 && Pays(r, d.isBuy, if d.inBaseQty then qty else other,
              if d.inBaseQty then other else qty, if d.inBaseQty then 0 else ROUND_PRECISION_WEI,
              if d.inBaseQty then ROUND_PRECISION_WEI else 0)
  {
    var (paidFlow, paidCounter) := SignMagn(qty, other, d.inBaseQty, d.isBuy);
    StopSettles(d, qty, price, other, Add(paidCounter, ROUND_PRECISION_WEI));
    hide Signed, Add, Neg, FlowToSpent, Settles;
    SignedPaid(qty, qty);
    SignedPaid(other, other);
  }

  /** A base quantity within the reserves up to the limit stops the curve short of it, up to one below for a sell, and
      so without running into the ends of the price range: the bounds hold of the price itself. */
  lemma BaseStopIsPlain(liq: nat, p: nat, x: nat, isBuy: bool, limit: nat, most: nat, q: nat)
    requires 0 < liq && InRange(p) && InRange(limit) && x <= most && IsBaseOf(most, liq, p, limit)
    requires if isBuy then p <= limit else MIN_SQRT_RATIO < limit <= p
    requires IsStop(liq, p, x, true, isBuy, q)
    ensures if isBuy then p <= q <= limit && liq * (q - p) <= x * TWO_64 < liq * (q - p + 1)
            else limit - 1 <= q < p && liq * (p - q - 1) <= x * TWO_64 < liq * (p - q)
  {
    hide Moves, Clamped;
    var raw: nat :| Moves(liq, p, x, isBuy, raw) && q == Clamped(raw);
    MoveWithin(liq, p, x, isBuy, raw, Dist(p, limit));
    ClampedInside(raw);
  }

  lemma ClampedInside(raw: nat)
    ensures InRange(raw) ==> Clamped(raw) == raw
  {
  }

  lemma MoveWithin(liq: nat, p: nat, x: nat, up: bool, raw: nat, g: nat)
    requires 0 < liq && x * TWO_64 <= liq * g && (!up ==> g < p) && Moves(liq, p, x, up, raw)
    ensures if up then p <= raw <= p + g && liq * (raw - p) <= x * TWO_64 < liq * (raw - p + 1)
            else p - g - 1 <= raw < p && liq * (p - raw - 1) <= x * TWO_64 < liq * (p - raw)
  {
    Cancel(liq, raw - p, g);
    Cancel(liq, p, g);
    Cancel(liq, p - raw - 1, g);
  }

  lemma Cancel(liq: nat, a: int, b: int)
    requires liq > 0
    ensures liq * a <= liq * b ==> a <= b
  {
    if liq * a <= liq * b {
      MulCancel(a, b, liq);
    }
  }

  // ----- the fee on the other side

  /** What the other side would pay, on the constant-product curve through the reserves at price p, for a flow. */
  function CurveCounter(liq: nat, p: nat, flow: nat, up: bool, inBaseQty: bool): int
    requires p > 0
  {
    var base, quote := liq * p / TWO_64, liq * TWO_64 / p;
    var from, other := if inBaseQty then base else quote, if inBaseQty then quote else base;
    var after := if up == inBaseQty then from + flow else from - flow;
    if after == 0 then TWO_128 - 1
    else if liq * liq / after > other then liq * liq / after - other
    else other - liq * liq / after
  }

  lemma CounterIs(liq: nat, p: nat, flow: nat, up: bool, inBaseQty: bool)
    requires 0 < liq < TWO_128 && 0 < p < TWO_128 && flow < TWO_255
    requires up != inBaseQty ==> flow <= if inBaseQty then liq * p / TWO_64 else liq * TWO_64 / p
    ensures CurveCounter(liq, p, flow, up, inBaseQty) == InvertFlow(liq, p, flow, up, inBaseQty) >= 0
  {
    hide Mul, Div;
    ReservesAre(liq, p);
    var base, quote := liq * p / TWO_64, liq * TWO_64 / p;
    var from := if inBaseQty then base else quote;
    var after := if up == inBaseQty then from + flow else from - flow;
    ProductMono(liq, liq, TWO_128 - 1, TWO_128 - 1);
    ProductFits(liq, liq, liq * liq);
    if after > 0 {
      DivIs(liq * liq, after);
    }
    hide ReserveAtPrice;
    if up == inBaseQty {
      SumFits(from, flow);
    } else {
      DifferenceFits(from, flow);
    }
  }

  lemma ReservesAre(liq: nat, p: nat)
    requires liq < TWO_128 && 0 < p < TWO_128
    ensures ReserveAtPrice(liq, p, true) == liq * p / TWO_64 < TWO_255
    ensures ReserveAtPrice(liq, p, false) == liq * TWO_64 / p < TWO_255
    ensures liq * p / TWO_64 >= 0 && liq * TWO_64 / p >= 0
  {
    hide Mul, Div;
    ProductMono(liq, p, TWO_128 - 1, TWO_128 - 1);
    ProductFits(liq, p, liq * p);
    ProductFits(liq, TWO_64, liq * TWO_64);
    DivIs(liq * TWO_64, p);
    DivAtMost(liq * TWO_64, p);
  }

  /** The fees on the other side: the exact floored share of what the curve gives for the flow, of which the exact
      floored share in 256ths is the protocol's. */
  ghost predicate FeesOf(liq: nat, p: nat, pool: PoolParams, inBaseQty: bool, qty: nat, limit: nat, liqFees: nat,
      protoFees: nat)
    requires p > 0 && limit > 0
  {
    exists most: nat :: FeesWith(liq, p, pool, inBaseQty, qty, limit, liqFees, protoFees, most)
  }

  predicate FeesWith(liq: nat, p: nat, pool: PoolParams, inBaseQty: bool, qty: nat, limit: nat, liqFees: nat,
      protoFees: nat, most: nat)
    requires p > 0 && limit > 0
  {
    && (if inBaseQty then IsBaseOf(most, liq, p, limit) else IsQuoteOf(most, liq, p, limit))
    && var total := CurveCounter(liq, p, Min(qty, most), limit > p, inBaseQty) * pool.feeRate / FEE_BP_MULT;
       protoFees == total * pool.protocolTake / 256 && liqFees == total - protoFees
  }

  lemma ShareOfFee(flow: nat, feeRate: nat, take: nat)
    requires flow * feeRate < TWO_256 && take <= 256
    ensures var total := flow * feeRate / FEE_BP_MULT;
            total >= 0 && 0 <= total * take / 256 <= total &&
            CalcFeeOverFlow(flow, feeRate, take) == (total - total * take / 256, total * take / 256)
  {
    hide Mul;
    NonNegative(flow, feeRate);
    ProductFits(flow, feeRate, flow * feeRate);
    var total: nat := flow * feeRate / FEE_BP_MULT;
    MulMono(take, 256, total);
    NonNegative(total, take);
    ProductFits(total, take, total * take);
    FloorAtLeast(total * take, 256, total + 1);
    DifferenceFits(total, total * take / 256);
  }

  lemma FeesAre(c: Curve, qty: nat, pool: PoolParams, inBaseQty: bool, limit: nat)
    requires 0 < ActiveLiquidity(c) < TWO_128 && InRange(c.priceRoot) && InRange(limit)
    requires QuoteFits(ActiveLiquidity(c), c.priceRoot, limit) && pool.protocolTake <= 256
    requires CalcLimitCounter(c, qty, inBaseQty, limit) * pool.feeRate < TWO_256
    ensures var (liqFees, protoFees) := BookedFees(c, qty, pool, inBaseQty, limit);
            FeesOf(ActiveLiquidity(c), c.priceRoot, pool, inBaseQty, qty, limit, liqFees, protoFees)
  {
    hide ActiveLiquidity, DeltaBase, DeltaQuote, IsBaseOf, IsQuoteOf, QuoteFits, CalcFeeOverFlow, InvertFlow,
      CurveCounter;
    var liq, p := ActiveLiquidity(c), c.priceRoot;
    BaseIs(liq, p, limit);
    QuoteIs(liq, p, limit);
    ReservesSmall(liq, p, limit);
    var most := LimitFlow(c, inBaseQty, limit);
    var flow := Min(qty, most);
    if (limit > p) != inBaseQty {
      FlowWithinReserves(liq, p, limit, inBaseQty, most);
    }
    CounterIs(liq, p, flow, limit > p, inBaseQty);
    ShareOfFee(CalcLimitCounter(c, qty, inBaseQty, limit), pool.feeRate, pool.protocolTake);
    var (liqFees, protoFees) := BookedFees(c, qty, pool, inBaseQty, limit);
    assert FeesWith(liq, p, pool, inBaseQty, qty, limit, liqFees, protoFees, most);
  }

  /** The flow toward the end of a reserve is within it. */
  lemma FlowWithinReserves(liq: nat, p: nat, limit: nat, inBaseQty: bool, most: nat)
    requires p > 0 && limit > 0 && (limit > p) != inBaseQty
    requires if inBaseQty then IsBaseOf(most, liq, p, limit) else most <= liq * TWO_64 / Min(p, limit)
    ensures most <= if inBaseQty then liq * p / TWO_64 else liq * TWO_64 / p
  {
    if inBaseQty {
      MulMono(p - limit, p, liq);
      FloorAtLeast(liq * p, TWO_64, most);
    }
  }
}
