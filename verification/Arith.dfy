/** Division and multiplication facts, each stated so that a proof never has to reason about a
quotient by a variable directly. */
module Arith {

  lemma MulMono(a: int, b: int, c: int)
    requires a <= b && c >= 0
    ensures a * c <= b * c
    ensures c * a <= c * b
  {
  }

  lemma MulAtLeast(p: int, q: int)
    requires p >= 1 && q >= 0
    ensures q <= p * q
  {
  }

  lemma MulCancel(a: int, b: int, c: int)
    requires c > 0 && a * c <= b * c
    ensures a <= b
  {
    if a > b {
      MulMono(b + 1, a, c);
    }
  }

  lemma DivModUnique(n: int, d: int, q: int, r: int)
    requires d > 0 && 0 <= r < d && n == d * q + r
    ensures n / d == q && n % d == r
  {
    var k := n / d - q;
    assert d * k == r - n % d;
    assert k >= 1 ==> d * k >= d;
    assert k <= -1 ==> d * k <= -d;
  }

  lemma DivisionIdentity(n: nat, w: nat)
    requires w > 0
    ensures (n / w) * w + n % w == n
  {
  }

  /** q <= n / d exactly when d * q <= n. */
  lemma FloorAtLeast(n: int, d: int, q: int)
    requires d > 0
    ensures q <= n / d <==> d * q <= n
  {
    var f := n / d;
    if q <= f {
      MulMono(q, f, d);
    } else {
      MulMono(f + 1, q, d);
    }
  }

  lemma DivAtMost(t: nat, p: nat)
    requires p > 0
    ensures t / p <= t
  {
    MulAtLeast(p, t / p);
  }

  lemma DivNat(t: nat, p: nat)
    requires p > 0
    ensures t / p >= 0
  {
  }

  lemma DivMono(m: int, n: int, d: int)
    requires d > 0 && m <= n
    ensures m / d <= n / d
  {
    FloorAtLeast(n, d, m / d);
  }

  function CeilDiv(n: nat, d: nat): nat
    requires d > 0
  {
    DivNat(n, d);
    if n % d == 0 then n / d else n / d + 1
  }

  /** CeilDiv(n, d) <= q exactly when n <= d * q. */
  lemma CeilAtMost(n: nat, d: nat, q: int)
    requires d > 0
    ensures CeilDiv(n, d) <= q <==> n <= d * q
  {
    var c := CeilDiv(n, d);
    if c <= q {
      MulMono(c, q, d);
    } else {
      MulMono(q, c - 1, d);
    }
  }

  lemma CeilMono(m: nat, n: nat, d: nat)
    requires d > 0 && m <= n
    ensures CeilDiv(m, d) <= CeilDiv(n, d)
  {
    CeilAtMost(m, d, CeilDiv(n, d));
  }

  lemma FloorBelowCeil(n: nat, d: nat)
    requires d > 0
    ensures n / d <= CeilDiv(n, d) <= n / d + 1
  {
  }

  /** The usual way to write a ceiling with one floored division. */
  lemma CeilAsFloor(n: nat, d: nat)
    requires d > 0
    ensures (n + d - 1) / d == CeilDiv(n, d)
  {
    var q, r := n / d, n % d;
    if r == 0 {
      DivModUnique(n + d - 1, d, q, d - 1);
    } else {
      DivModUnique(n + d - 1, d, q + 1, r - 1);
    }
  }

  lemma ModSmall(x: int, m: int)
    requires 0 <= x < m
    ensures x % m == x
  {
    DivModUnique(x, m, 0, x);
  }

  lemma ModShift(k: int, r: int, w: int)
    requires w > 0
    ensures (w * k + r) % w == r % w
  {
    var q := r / w;
    assert w * k + r == w * (k + q) + r % w;
    DivModUnique(w * k + r, w, k + q, r % w);
  }

  lemma ModMul(x: int, y: int, w: int)
    requires w > 0
    ensures (x % w) * y % w == x * y % w
  {
    var q, r := x / w, x % w;
    assert x * y == w * (q * y) + r * y by {
      calc {
        x * y;
        (w * q + r) * y;
        w * q * y + r * y;
        w * (q * y) + r * y;
      }
    }
    ModShift(q * y, r * y, w);
  }
}
