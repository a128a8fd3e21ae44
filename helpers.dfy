/** The integer helpers of the decoder: floor of the base-two logarithm by a
    five-round binary search over the bit width, and the minimum of two
    numbers. */
module Helpers {
  import opened Binary

  /** Floor of log2(i) for an unsigned 32-bit i, and -1 for i == 0.  Each
      round tries to shift v right by `step` bits (16, 8, 4, 2, 1); while the
      result is non-zero the shift is kept and counted.  Throughout,
      v == i >>> (result + 1), and after the round with step s, v < 2^s. */
  method Log2Floor(i: int) returns (r: int)
    requires 0 <= i < 0x1_0000_0000
    ensures -1 <= r <= 31
    ensures i == 0 <==> r == -1
    ensures i > 0 ==> Pow2(r) <= i < Pow2(r + 1)
  {
    var result, step, v := -1, 16, i;
    ghost var width: nat, p: nat := 32, 1;
    Pow2Of32();
    while step > 0
      invariant step == 16 || step == 8 || step == 4 || step == 2 || step == 1 || step == 0
      invariant -1 <= result
      invariant result + 1 + width <= 32
      invariant p == Pow2(result + 1) && v == i / p
      invariant 0 <= v && (result >= 0 ==> v >= 1)
      invariant v < Pow2(width)
      invariant width == if step == 0 then 1 else 2 * step
    {
      var next := v / Pow2(step);  // v >>> step
      Log2Round(i, result, p, v, step);
      if next != 0 {
        result, v, p := result + step, next, p * Pow2(step);
      }
      width := step;
      step := step / 2;  // step >> 1
    }
    Log2Exit(i, result, v);
    r := result + v;
  }

  /** One round of Log2Floor: the shifted value is below 2^step; keeping it
      moves the split point of i by step bits, dropping it leaves v below
      2^step. */
  lemma Log2Round(i: nat, result: int, p: nat, v: nat, step: nat)
    requires step >= 1 && -1 <= result
    requires p == Pow2(result + 1) && v == i / p && v < Pow2(2 * step)
    ensures 0 <= v / Pow2(step) < Pow2(step)
    ensures p * Pow2(step) == Pow2(result + step + 1)
    ensures v / Pow2(step) == i / (p * Pow2(step))
    ensures v / Pow2(step) == 0 ==> v < Pow2(step)
  {
    ShiftBound(v, step, step);
    DivDiv(i, p, Pow2(step));
    Pow2Add(result + 1, step);
    SplitAt(v, step);
  }

  /** After the last round v is 0 or 1, and result + v is the answer. */
  lemma Log2Exit(i: nat, result: int, v: nat)
    requires -1 <= result <= 30
    requires v == i / Pow2(result + 1) && v < 2
    requires result >= 0 ==> v >= 1
    ensures i == 0 <==> result + v == -1
    ensures i > 0 ==> Pow2(result + v) <= i < Pow2(result + v + 1)
  {
    if result >= 0 {
      var p := Pow2(result + 1);
      assert i / p == 1;
      assert p <= i < 2 * p;
    }
  }

  /** The smaller of a and b; on a tie the second argument. */
  function Min(a: int, b: int): (r: int)
    ensures r <= a && r <= b
    ensures r == a || r == b
  {
    if a < b then a else b
  }
}
