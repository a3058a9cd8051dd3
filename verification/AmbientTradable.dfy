/** When a tick past the window can be told from a clear way: the input to a further price grows with the price,
for buyers and for sellers. */
module AmbientTradable {
  import opened Arith
  import opened Words
  import opened AmbientTicks
  import opened AmbientView
  import opened AmbientCurve
  import opened AmbientSweep
  import opened AmbientBeyond

  // ----- the input to a further price

  /** A buyer's input to a further price is no smaller, and larger from 2^64 of liquidity on. */
  lemma BuyFlowGrows(c: Curve, p: nat, q: nat)
    requires c.priceRoot <= p < q < MAX_SQRT_RATIO && ActiveLiquidity(c) < TWO_128
    ensures LimitFlow(c, true, p) <= LimitFlow(c, true, q)
    ensures ActiveLiquidity(c) >= TWO_64 ==> LimitFlow(c, true, p) < LimitFlow(c, true, q)
  {
    hide ActiveLiquidity, Mul, IsWord;
    var liq := ActiveLiquidity(c);
    FlowIs(liq, p - c.priceRoot);
    FlowIs(liq, q - c.priceRoot);
    var a, b := liq * (p - c.priceRoot), liq * (q - c.priceRoot);
    assert b - a == liq * (q - p);
    MulAtLeast(q - p, liq);
  }

  lemma FlowIs(liq: nat, delta: nat)
    requires liq < TWO_128 && delta < MAX_SQRT_RATIO
    ensures liq * delta >= 0 && MulQ64(liq, delta) == liq * delta / TWO_64
  {
    hide Mul;
    NonNegative(liq, delta);
    ProductBelow(liq, delta, TWO_128, TWO_128);
    ProductFits(liq, delta, liq * delta);
  }

  lemma ProductBelow(x: nat, y: nat, a: nat, b: nat)
    requires x < a && y < b
    ensures x * y < a * b
  {
    MulMono(x, a, y);
    MulMono(y + 1, b, a);
  }

  // ----- what makes a tick tradable, from the order of prices and the size of the liquidity

  /** `q` is at `p` or further on the swap's way. */
  predicate Onward(isBuy: bool, p: nat, q: nat) {
    if isBuy then p <= q else q <= p
  }

  /** The stops at the border of the start's word and at the tick lie inside the limit price and in the order of
      their ticks. */
  predicate PricesAhead(e: Engine, d: Direction, c: Curve, mid: int, t: int) {
    var border := BorderOf(d, mid);
    var p, q := StopPrice(e, d, border), StopPrice(e, d, t);
    && MIN_TICK < border < MAX_TICK && MIN_TICK < t < MAX_TICK && Inside(d, p) && Inside(d, q)
    && Onward(d.isBuy, c.priceRoot, p) && Onward(d.isBuy, c.priceRoot, q)
    && (if Passed(d.isBuy, mid, border, t) then Onward(d.isBuy, q, p) else Onward(d.isBuy, p, q))
  }

  lemma FarStop(e: Engine, d: Direction)
    requires LimitInRange(d)
    ensures StopPrice(e, d, ZeroTick(d.isBuy)) == d.limitPrice
  {
  }

  /** A buyer's next tick is tradable from 2^64 of liquidity on. */
  lemma BuyIsTradable(e: Engine, d: Direction, c: Curve, mid: int, t: int)
    requires d.inBaseQty && d.isBuy && LimitInRange(d) && PricesAhead(e, d, c, mid, t)
    requires TWO_64 <= ActiveLiquidity(c) < TWO_128
    ensures Tradable(e, d, c, mid, t)
  {
    hide StopPrice, BorderOf, ActiveLiquidity, LimitFlow;
    FarStop(e, d);
    var p, q := StopPrice(e, d, BorderOf(d, mid)), StopPrice(e, d, t);
    var there := c.(priceRoot := p);
    SameLiquidity(c, p);
    if Passed(true, mid, BorderOf(d, mid), t) {
      if q < p {
        BuyFlowGrows(c, q, p);
      }
    } else {
      BuyFlowGrows(there, q, d.limitPrice);
    }
  }

  lemma SameLiquidity(c: Curve, p: nat)
    ensures ActiveLiquidity(c.(priceRoot := p)) == ActiveLiquidity(c)
  {
  }

  lemma ScaledQuotient(liq: nat, p: nat)
    requires liq < TWO_128 && p > 0
    ensures DivQ64(liq, p) == liq * TWO_64 / p && liq * TWO_64 / p >= 0
  {
    hide Div, Mul;
    ProductFits(liq, TWO_64, liq * TWO_64);
    DivIs(liq * TWO_64, p);
  }

  lemma ScaledQuotientFalls(liq: nat, q: nat, p: nat)
    requires liq < TWO_128 && 0 < q <= p
    ensures DivQ64(liq, p) <= DivQ64(liq, q)
  {
    hide DivQ64;
    ScaledQuotient(liq, p);
    ScaledQuotient(liq, q);
    var f := liq * TWO_64 / p;
    FloorAtLeast(liq * TWO_64, p, f);
    MulMono(q, p, f);
    FloorAtLeast(liq * TWO_64, q, f);
  }

  lemma QuoteFlowIs(c: Curve, p: nat, x: nat)
    requires MIN_SQRT_RATIO <= p <= c.priceRoot && IsWord(c.priceRoot) && IsWord(Times(x, c.priceRoot))
    requires x == DivQ64(ActiveLiquidity(c), p)
    ensures 0 <= x * (c.priceRoot - p) && LimitFlow(c, false, p) == x * (c.priceRoot - p) / c.priceRoot
  {
    hide ActiveLiquidity, DivQ64, Div, Mul, IsWord, Times, Sub;
    var delta := c.priceRoot - p;
    DifferenceFits(c.priceRoot, p);
    TimesIs(x, c.priceRoot);
    ProductMono(x, delta, x, c.priceRoot);
    WordMono(x * delta, x * c.priceRoot);
    ProductFits(x, delta, x * delta);
    DivIs(x * delta, c.priceRoot);
  }

  lemma QuotientGrows(x: nat, y: nat, price: nat, p: nat, q: nat)
    requires x <= y && q < p <= price && price > 0
    ensures x * (price - p) / price <= y * (price - q) / price
    ensures x >= price ==> x * (price - p) / price < y * (price - q) / price
  {
    var m, n := x * (price - p), y * (price - q);
    MulMono(x, y, price - q);
    assert x * (price - q) == m + x * (p - q);
    NonNegative(x, p - q);
    DivMono(m, n, price);
    if x >= price {
      MulAtLeast(p - q, x);
      FloorAtLeast(m, price, m / price);
      FloorAtLeast(n, price, m / price + 1);
      assert price * (m / price + 1) == price * (m / price) + price;
    }
  }

  /** A seller's input to a further price is no smaller, and larger while a unit of input moves the price. */
  lemma SellFlowGrows(c: Curve, p: nat, q: nat)
    requires MIN_SQRT_RATIO <= q < p <= c.priceRoot && IsWord(c.priceRoot) && ActiveLiquidity(c) < TWO_128
    requires IsWord(Times(DivQ64(ActiveLiquidity(c), q), c.priceRoot))
    ensures LimitFlow(c, false, p) <= LimitFlow(c, false, q)
    ensures DivQ64(ActiveLiquidity(c), p) >= c.priceRoot ==> LimitFlow(c, false, p) < LimitFlow(c, false, q)
  {
    hide ActiveLiquidity, DivQ64, IsWord, Times, LimitFlow;
    var x, y := DivQ64(ActiveLiquidity(c), p), DivQ64(ActiveLiquidity(c), q);
    ScaledQuotientFalls(ActiveLiquidity(c), q, p);
    TimesIs(x, c.priceRoot);
    TimesIs(y, c.priceRoot);
    MulMono(x, y, c.priceRoot);
    WordMono(Times(x, c.priceRoot), Times(y, c.priceRoot));
    QuoteFlowIs(c, p, x);
    QuoteFlowIs(c, q, y);
    QuotientGrows(x, y, c.priceRoot, p, q);
  }

  /** A seller's next tick is tradable while a unit of input moves the price and the flow to the limit fits a word. */
  lemma SellIsTradable(e: Engine, d: Direction, c: Curve, mid: int, t: int)
    requires !d.inBaseQty && !d.isBuy && LimitInRange(d) && PricesAhead(e, d, c, mid, t) && IsWord(c.priceRoot)
    requires ActiveLiquidity(c) < TWO_128 && DivQ64(ActiveLiquidity(c), StopPrice(e, d, t)) >= c.priceRoot
    requires IsWord(Times(DivQ64(ActiveLiquidity(c), d.limitPrice), c.priceRoot))
    ensures Tradable(e, d, c, mid, t)
  {
    hide StopPrice, BorderOf, ActiveLiquidity, LimitFlow, DivQ64, Times, IsWord;
    FarStop(e, d);
    StopIsInRange(e, d, t);
    var p, q := StopPrice(e, d, BorderOf(d, mid)), StopPrice(e, d, t);
    var there := c.(priceRoot := p);
    SameLiquidity(c, p);
    WordMono(p, c.priceRoot);
    QuotientWords(ActiveLiquidity(c), d.limitPrice, p, c.priceRoot, p);
    QuotientWords(ActiveLiquidity(c), d.limitPrice, p, c.priceRoot, c.priceRoot);
    if Passed(false, mid, BorderOf(d, mid), t) {
      if p < q {
        SellFlowGrows(c, q, p);
      }
    } else {
      SellFlowGrows(there, q, d.limitPrice);
    }
  }

  lemma QuotientWords(liq: nat, lowest: nat, p: nat, price: nat, at: nat)
    requires liq < TWO_128 && 0 < lowest <= p && at <= price && IsWord(Times(DivQ64(liq, lowest), price))
    ensures IsWord(Times(DivQ64(liq, p), at)) && IsWord(Times(DivQ64(liq, lowest), at))
  {
    hide DivQ64, Times, IsWord;
    ScaledQuotientFalls(liq, lowest, p);
    var x, y := DivQ64(liq, p), DivQ64(liq, lowest);
    TimesIs(x, at);
    TimesIs(y, at);
    TimesIs(y, price);
    ProductMono(x, at, y, price);
    ProductMono(y, at, y, price);
    WordMono(Times(x, at), Times(y, price));
    WordMono(Times(y, at), Times(y, price));
  }
}
