/** Bit reversal of a fixed-width value.  Brotli reads prefix codes least
    significant bit first, so the decoder's tables are indexed by codes
    written backwards. */
module BitReverse {
  import opened Binary

  /** x's low n bits in reverse order: bit 0 of x becomes bit n - 1. */
  function Rev(x: nat, n: nat): nat
  {
    if n == 0 then 0 else (if x % 2 == 1 then Pow2(n - 1) else 0) + Rev(x / 2, n - 1)
  }

  lemma {:induction false} RevBound(x: nat, n: nat)
    ensures Rev(x, n) < Pow2(n)
  {
    if n > 0 {
      RevBound(x / 2, n - 1);
    }
  }

  lemma {:induction false} RevZero(n: nat)
    ensures Rev(0, n) == 0
  {
    if n > 0 {
      RevZero(n - 1);
    }
  }

  lemma {:induction false} RevAllOnes(k: nat)
    ensures Rev(Pow2(k) - 1, k) == Pow2(k) - 1
  {
    if k > 0 {
      var x := Pow2(k) - 1;
      assert x == 2 * (Pow2(k - 1) - 1) + 1;
      DivUnique(x, 2, Pow2(k - 1) - 1, 1);
      RevAllOnes(k - 1);
    }
  }

  /** Reversing a + 2^m * b over m + n bits: the reversed low part a lands
      in the high n.. bits, the reversed b in the low n bits. */
  lemma {:induction false} RevSplit(a: nat, b: nat, m: nat, n: nat)
    requires a < Pow2(m)
    ensures Rev(a + Pow2(m) * b, m + n) == Rev(a, m) * Pow2(n) + Rev(b, n)
  {
    if m > 0 {
      var x := a + Pow2(m) * b;
      assert Pow2(m) * b == 2 * (Pow2(m - 1) * b);
      assert a == 2 * (a / 2) + a % 2;
      assert x == 2 * (a / 2 + Pow2(m - 1) * b) + a % 2;
      DivUnique(x, 2, a / 2 + Pow2(m - 1) * b, a % 2);
      assert a / 2 < Pow2(m - 1);
      RevSplit(a / 2, b, m - 1, n);
      Pow2Add(m - 1, n);
      var bit := if a % 2 == 1 then Pow2(m - 1) else 0;
      calc {
        Rev(x, m + n);
        (if a % 2 == 1 then Pow2(m + n - 1) else 0) + Rev(a / 2 + Pow2(m - 1) * b, m - 1 + n);
        (if a % 2 == 1 then Pow2(m + n - 1) else 0) + Rev(a / 2, m - 1) * Pow2(n) + Rev(b, n);
        bit * Pow2(n) + Rev(a / 2, m - 1) * Pow2(n) + Rev(b, n);
        (bit + Rev(a / 2, m - 1)) * Pow2(n) + Rev(b, n);
      }
    } else {
      assert a == 0;
    }
  }


  lemma RevEven(y: nat, n: nat)
    ensures Rev(2 * y, n + 1) == Rev(y, n)
  {
    DivUnique(2 * y, 2, y, 0);
  }

  lemma RevOne(n: nat)
    requires n >= 1
    ensures Rev(1, n) == Pow2(n - 1)
  {
    DivUnique(1, 2, 0, 1);
    RevZero(n - 1);
  }

  /** Reversal is its own inverse on n-bit values. */
  lemma {:induction false} RevRev(x: nat, n: nat)
    requires x < Pow2(n)
    ensures Rev(Rev(x, n), n) == x
  {
    if n > 0 {
      var b, h := x % 2, x / 2;
      assert Pow2(1) == 2;
      assert x == b + Pow2(1) * h;
      RevBit(b);
      RevSplit(b, h, 1, n - 1);
      var r := Rev(h, n - 1);
      assert Rev(x, n) == r + Pow2(n - 1) * b;
      RevBound(h, n - 1);
      RevSplit(r, b, n - 1, 1);
      RevRev(h, n - 1);
    }
  }

  lemma RevBit(b: nat)
    requires b < 2
    ensures Rev(b, 1) == b
  {
    DivUnique(b, 2, 0, b);
  }

  lemma RevInjective(a: nat, b: nat, n: nat)
    requires a < Pow2(n) && b < Pow2(n) && Rev(a, n) == Rev(b, n)
    ensures a == b
  {
    RevRev(a, n);
    RevRev(b, n);
  }

  /** Only the all-ones value reverses to all ones. */
  lemma RevNotAllOnes(c: nat, n: nat)
    requires c + 1 < Pow2(n)
    ensures Rev(c, n) + 1 < Pow2(n)
  {
    RevBound(c, n);
    RevAllOnes(n);
    if Rev(c, n) + 1 == Pow2(n) {
      RevInjective(c, Pow2(n) - 1, n);
    }
  }

  /** Reading lo + 2^k * hi over t bits backwards: the top k bits are lo
      read backwards, and the low t - k bits are hi read backwards. */
  lemma RevHigh(lo: nat, hi: nat, k: nat, t: nat, m: nat)
    requires m == t - k && lo < Pow2(k)
    ensures Rev(lo + Pow2(k) * hi, t) / Pow2(m) == Rev(lo, k)
    ensures Rev(lo + Pow2(k) * hi, t) % Pow2(m) == Rev(hi, m)
  {
    var q, top, bottom := Pow2(m), Rev(lo, k), Rev(hi, m);
    RevSplit(lo, hi, k, m);
    RevBound(hi, m);
    assert Rev(lo + Pow2(k) * hi, t) == top * q + bottom;
    MulComm(top, q);
    DivUnique(top * q + bottom, q, top, bottom);
  }

  /** The indices whose low k bits are the key of the k-bit code c are those
      whose backwards reading over t bits starts with c. */
  lemma RevPrefix(x: nat, c: nat, k: nat, t: nat)
    requires k <= t && c < Pow2(k)
    ensures x % Pow2(k) == Rev(c, k) <==> Rev(x, t) / Pow2(t - k) == c
  {
    var p, m := Pow2(k), t - k;
    DivModBounds(x, p);
    var y := x % p + Pow2(k) * (x / p);
    assert y == x;
    RevHigh(x % p, x / p, k, t, m);
    RevRev(c, k);
    RevRev(x % p, k);
  }
}
