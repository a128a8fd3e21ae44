/** Powers of two and the integer facts about them that the shift and mask
    arithmetic of the decoder tables relies on.  Every JavaScript shift in
    the modelled code acts on a non-negative value that fits in 31 bits, so
    `x << k` is `x * Pow2(k)`, `x >> k` and `x >>> k` are `x / Pow2(k)` and
    `x & (Pow2(k) - 1)` is `x % Pow2(k)`.  Inside the table-building loops
    the mask and the shift are written bit by bit as Low and Shr, which
    LowShr equates with the remainder and the quotient. */
module Binary {

  function Pow2(n: nat): (r: nat)
    ensures r >= 1
  {
    if n == 0 then 1 else 2 * Pow2(n - 1)
  }

  lemma Pow2Of32()
    ensures Pow2(32) == 0x1_0000_0000
  {
    assert Pow2(4) == 16;
    Pow2Add(4, 4);
    Pow2Add(8, 8);
    Pow2Add(16, 16);
  }

  lemma Pow2Of24()
    ensures Pow2(24) == 0x100_0000
  {
    assert Pow2(8) == 256;
    Pow2Add(8, 8);
    Pow2Add(8, 16);
  }

  lemma {:induction false} Pow2Add(a: nat, b: nat)
    ensures Pow2(a + b) == Pow2(a) * Pow2(b)
  {
    if a > 0 {
      Pow2Add(a - 1, b);
      calc {
        Pow2(a + b);
        2 * Pow2(a - 1 + b);
        2 * (Pow2(a - 1) * Pow2(b));
        (2 * Pow2(a - 1)) * Pow2(b);
      }
    }
  }

  lemma {:induction false} Pow2Monotone(a: nat, b: nat)
    requires a <= b
    ensures Pow2(a) <= Pow2(b)
  {
    if a < b {
      Pow2Monotone(a, b - 1);
    }
  }

  /** 2^a divides 2^b for a <= b. */
  lemma Pow2Divides(a: nat, b: nat)
    requires a <= b
    ensures Pow2(b) == Pow2(a) * Pow2(b - a) && Pow2(b) % Pow2(a) == 0
  {
    var d := b - a;
    Pow2Add(a, d);
    assert a + d == b;
    DivUnique(Pow2(b), Pow2(a), Pow2(d), 0);
  }

  lemma Pow2Strict(a: nat, b: nat)
    requires a < b
    ensures 2 * Pow2(a) <= Pow2(b)
  {
    Pow2Monotone(a + 1, b);
  }

  /** Dividing by a and then by b is dividing by a * b. */
  lemma DivDiv(x: nat, a: nat, b: nat)
    requires a > 0 && b > 0
    ensures x / a / b == x / (a * b)
  {
    var q := x / a / b;
    var r1 := x % a;
    var r2 := (x / a) % b;
    assert x == a * (x / a) + r1;
    assert x / a == b * q + r2;
    assert a * (x / a) == a * (b * q) + a * r2;
    assert a * (b * q) == (a * b) * q;
    assert a * r2 <= a * (b - 1) by { MulLe(a, r2, b - 1); }
    assert a * (b - 1) == a * b - a;
    DivUnique(x, a * b, q, a * r2 + r1);
  }

  /** The quotient is the unique q with x == d * q + r and 0 <= r < d. */
  lemma DivUnique(x: int, d: int, q: int, r: int)
    requires d > 0 && 0 <= r < d && x == d * q + r
    ensures x / d == q && x % d == r
  {
    var q0, r0 := x / d, x % d;
    assert x == d * q0 + r0;
    if q0 < q {
      assert d * (q - q0) == r0 - r;
      MulGe(d, q - q0);
    } else if q0 > q {
      assert d * (q0 - q) == r - r0;
      MulGe(d, q0 - q);
    }
  }

  lemma DivModBounds(x: nat, p: nat)
    requires p > 0
    ensures 0 <= x % p < p && 0 <= x / p && x == x % p + p * (x / p)
  {
  }

  lemma MulGe(d: int, k: int)
    requires d > 0 && k >= 1
    ensures d * k >= d
  {
  }

  lemma MulLe(a: nat, x: int, y: int)
    requires x <= y
    ensures a * x <= a * y
  {
  }

  lemma MulNonneg(a: nat, b: nat)
    ensures a * b >= 0
  {
  }

  lemma MulComm(a: int, b: int)
    ensures a * b == b * a
  {
  }

  lemma MulSucc(a: int, p: int)
    ensures (a + 1) * p == a * p + p
  {
  }

  lemma MulDouble(a: int, p: int)
    ensures a * (2 * p) == (2 * a) * p
  {
  }

  lemma MulDistrib(a: int, b: int, c: int)
    ensures a * (b + c) == a * b + a * c
  {
  }

  /** Taking the low a + b bits and then the low a bits is taking the low a bits. */
  lemma ModMod(x: nat, a: nat, b: nat)
    ensures x % Pow2(a + b) % Pow2(a) == x % Pow2(a)
  {
    Pow2Add(a, b);
    ModMulMod(x, Pow2(a), Pow2(b));
  }

  lemma ModMulMod(x: nat, m: nat, n: nat)
    requires m > 0 && n > 0
    ensures x % (m * n) % m == x % m
  {
    var q, r := x / (m * n), x % (m * n);
    var s, t := r / m, r % m;
    assert x == (m * n) * q + r;
    assert r == m * s + t;
    assert (m * n) * q == m * (n * q);
    assert x == m * (n * q + s) + t;
    DivUnique(x, m, n * q + s, t);
  }

  /** x >> n, one bit at a time. */
  function Shr(x: nat, n: nat): nat
  {
    if n == 0 then x else Shr(x / 2, n - 1)
  }

  /** x & (2^n - 1): the low n bits of x, one bit at a time. */
  function Low(x: nat, n: nat): nat
  {
    if n == 0 then 0 else 2 * Low(x / 2, n - 1) + x % 2
  }

  /** Shr and Low split x at bit n. */
  lemma {:induction false} LowShrSplit(x: nat, n: nat)
    ensures x == Low(x, n) + Pow2(n) * Shr(x, n) && Low(x, n) < Pow2(n)
  {
    if n > 0 {
      var p, s := Pow2(n - 1), Shr(x / 2, n - 1);
      LowShrSplit(x / 2, n - 1);
      MulDouble(s, p);
      MulComm(p, s);
      MulComm(2 * p, s);
    }
  }

  /** Shr and Low are the quotient and the remainder by 2^n. */
  lemma LowShr(x: nat, n: nat)
    ensures Low(x, n) == x % Pow2(n) && Shr(x, n) == x / Pow2(n)
    ensures x == Low(x, n) + Pow2(n) * Shr(x, n) && Low(x, n) < Pow2(n)
  {
    LowShrSplit(x, n);
    DivUnique(x, Pow2(n), Shr(x, n), Low(x, n));
  }

  /** Splitting x at bit a: its low a bits, then the rest. */
  lemma SplitAt(x: nat, a: nat)
    ensures x == x % Pow2(a) + Pow2(a) * (x / Pow2(a))
  {
  }

  /** A value below Pow2(a + b) shifted right by a is below Pow2(b). */
  lemma ShiftBound(x: nat, a: nat, b: nat)
    requires x < Pow2(a + b)
    ensures x / Pow2(a) < Pow2(b)
  {
    Pow2Add(a, b);
    if x / Pow2(a) >= Pow2(b) {
      assert x >= Pow2(a) * (x / Pow2(a));
      MulLe(Pow2(a), Pow2(b), x / Pow2(a));
    }
  }

  /** The quotient is c exactly when v lies in [c * a, (c + 1) * a). */
  lemma DivInterval(v: nat, a: nat, c: nat)
    requires a > 0
    ensures v / a == c <==> c * a <= v < (c + 1) * a
  {
    if c * a <= v < (c + 1) * a {
      assert (c + 1) * a == c * a + a;
      DivUnique(v, a, c, v - c * a);
    } else {
      DivModBounds(v, a);
      assert (v / a + 1) * a == v / a * a + a;
    }
  }

  /** Scaling both ends of an interval by b > 0. */
  lemma ScaleInterval(v: nat, lo: nat, hi: nat, b: nat)
    requires b > 0
    ensures lo <= v < hi <==> lo * b <= v * b < hi * b
  {
    if lo <= v {
      MulLe(b, lo, v);
    } else {
      MulLe(b, v + 1, lo);
    }
    if v < hi {
      MulLe(b, v + 1, hi);
    } else {
      MulLe(b, hi, v);
    }
  }
}
