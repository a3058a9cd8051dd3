/** 256-bit unsigned words as the simulators use them: naturals below 2^256 whose sums, differences
and products wrap, whose quotient by zero is zero, and whose sign is that of two's complement. */
module Words {
  import opened Arith

  const TWO_48: nat := 0x1_0000_0000_0000
  const TWO_64: nat := 0x1_0000_0000_0000_0000
  const TWO_128: nat := 0x1_0000_0000_0000_0000_0000_0000_0000_0000
  const TWO_255: nat := 0x8000_0000_0000_0000_0000_0000_0000_0000_0000_0000_0000_0000_0000_0000_0000_0000
  const TWO_256: nat := 0x1_0000_0000_0000_0000_0000_0000_0000_0000_0000_0000_0000_0000_0000_0000_0000_0000

  predicate IsWord(x: nat) {
    x < TWO_256
  }

  function Add(x: nat, y: nat): nat {
    (x + y) % TWO_256
  }

  function Sub(x: nat, y: nat): nat {
    (x - y) % TWO_256
  }

  function Mul(x: nat, y: nat): nat {
    Times(x, y) % TWO_256
  }

  /** The product, by doubling: formulas over words stay free of nonlinear terms. */
  function Times(x: nat, y: nat): nat {
    if y == 0 then 0 else 2 * Times(x, y / 2) + if y % 2 == 1 then x else 0
  }

  lemma {:induction false} TimesIs(x: nat, y: nat)
    ensures Times(x, y) == x * y
  {
    if y > 0 {
      TimesIs(x, y / 2);
      ProductDoubles(x, y / 2, y % 2);
    }
  }

  lemma ProductDoubles(x: nat, h: nat, bit: nat)
    requires bit < 2
    ensures x * (2 * h + bit) == 2 * (x * h) + if bit == 1 then x else 0
  {
    assert x * (2 * h) == 2 * (x * h);
    if bit == 1 {
      assert x * (2 * h + 1) == x * (2 * h) + x;
    }
  }

  function Neg(x: nat): nat {
    Sub(0, x)
  }

  function Div(x: nat, y: nat): (q: nat)
    ensures q <= x
  {
    if y == 0 then 0 else LongDivQuotient(x, y); LongDiv(x, y).0
  }

  /** Quotient and remainder by long division in base two, free of nonlinear terms as well. */
  function LongDiv(x: nat, y: nat): (nat, nat)
    requires y > 0
    decreases x
  {
    if x < y then (0, x)
    else
      var (q, r) := LongDiv(x / 2, y);
      var s := 2 * r + x % 2;
      if s >= y then (2 * q + 1, s - y) else (2 * q, s)
  }

  lemma {:induction false} LongDivIs(x: nat, y: nat)
    requires y > 0
    ensures var d := LongDiv(x, y); x == y * d.0 + d.1 && d.1 < y
    decreases x
  {
    if x >= y {
      var h := x / 2;
      LongDivIs(h, y);
      var d := LongDiv(h, y);
      Doubled(y, d.0, h - d.1);
    } else {
      assert y * 0 == 0;
    }
  }

  lemma Doubled(y: int, q: int, p: int)
    requires p == y * q
    ensures y * (2 * q) == 2 * p && y * (2 * q + 1) == 2 * p + y
  {
  }

  lemma LongDivQuotient(x: nat, y: nat)
    requires y > 0
    ensures 0 <= x / y <= x && LongDiv(x, y).0 == x / y
  {
    hide LongDiv;
    LongDivIs(x, y);
    var d := LongDiv(x, y);
    DivModUnique(x, y, d.0, d.1);
    DivAtMost(x, y);
  }

  /** The sign a word has as a two's complement number. */
  function Sign(x: nat): int {
    if x == 0 then 0 else if x < TWO_255 then 1 else -1
  }

  function Min(x: nat, y: nat): nat {
    if x < y then x else y
  }

  function Max(x: nat, y: nat): nat {
    if x > y then x else y
  }

  // ----- word facts, each free of products

  lemma WordBelow(q: nat)
    ensures q % TWO_256 <= q
    ensures IsWord(q) ==> q % TWO_256 == q
  {
  }

  lemma WordMono(x: nat, y: nat)
    requires x <= y && IsWord(y)
    ensures IsWord(x)
  {
  }

  lemma SumFits(x: nat, y: nat)
    requires IsWord(x + y)
    ensures Add(x, y) == x + y
  {
  }

  lemma SumWraps(x: nat, y: nat)
    requires IsWord(x) && IsWord(y) && !IsWord(x + y)
    ensures Add(x, y) < x
  {
  }

  lemma ProductFits(x: nat, y: nat, p: nat)
    requires p == x * y && IsWord(p)
    ensures Mul(x, y) == p
  {
    hide Times;
    TimesIs(x, y);
  }

  lemma NonNegative(x: nat, y: nat)
    ensures x * y >= 0
  {
  }

  lemma ProductMono(a: nat, b: nat, c: nat, d: nat)
    requires a <= c && b <= d
    ensures 0 <= a * b <= c * d
  {
    MulMono(a, c, b);
    MulMono(b, d, c);
    NonNegative(a, b);
  }

  lemma DivIs(x: nat, y: nat)
    requires y > 0
    ensures Div(x, y) == x / y && x / y >= 0
  {
    LongDivQuotient(x, y);
  }

  lemma DifferenceFits(x: nat, y: nat)
    requires y <= x && IsWord(x)
    ensures Sub(x, y) == x - y
  {
  }
}
