/** What the second-level tables hold.

    Slot y of the table of subtree q (an R-bit prefix) is reached by a
    decoder that has read the R bits of q and then the bits of y, least
    significant first.  Those bits lead to a point of the code space, and
    the slot holds the entry of the code that owns that point: its length
    beyond the R root bits and its symbol.  This module names that entry,
    states what the second pass of the builder leaves in the tables after
    each code, and proves that placing one more code, or opening one more
    table, keeps that statement. */
module SubEntries {
  import opened Binary
  import opened BitReverse
  import opened CanonicalCode
  import opened TableLayout
  import opened SubTables

  /** The point of the code space where slot y of the bits-bit table of
      subtree q begins. */
  function SubPoint(R: nat, q: nat, bits: nat, y: nat): nat
  {
    Scaled(q, R) + Scaled(Rev(y, bits), R + bits)
  }

  /** The entry of slot y in the table of subtree q: the code owning the
      slot's point, with its length counted past the R root bits. */
  function SubEntry(ls: seq<int>, order: seq<int>, R: nat, q: nat, y: nat): int
  {
    var k := Owner(ls, SubPoint(R, q, SubBits(ls, R, q), y));
    if k < |ls| && k < |order| then Entry(ls[k] - R, order[k]) else 0
  }

  /** Slot y of the table of subtree q once the codes before i are placed:
      its entry if its point lies before code i, its value in t1 (the
      table after the first pass) otherwise. */
  function SubValue(t1: seq<int>, off: nat, R: nat, ls: seq<int>, order: seq<int>, fl: nat, i: nat,
                    q: nat, y: nat): int
    requires i <= |ls|
  {
    var x := off + SubStart(ls, R, fl, q) + y;
    if SubPoint(R, q, SubBits(ls, R, q), y) < Pos(ls, i) then SubEntry(ls, order, R, q, y)
    else if x < |t1| then t1[x] else 0
  }

  /** t has a slot x, and it holds v. */
  predicate SlotHolds(t: seq<int>, x: int, v: int)
  {
    0 <= x < |t| && t[x] == v
  }

  /** The tables of the subtrees fl .. qn - 1 once the codes before i are
      placed: every slot is as SubValue says. */
  ghost predicate SubFilled(t: seq<int>, t1: seq<int>, off: nat, R: nat, ls: seq<int>, order: seq<int>,
                            fl: nat, qn: nat, i: nat)
    requires i <= |ls|
  {
    forall q, y :: fl <= q < qn && 0 <= y < Pow2(SubBits(ls, R, q)) ==>
      SlotHolds(t, off + SubStart(ls, R, fl, q) + y, SubValue(t1, off, R, ls, order, fl, i, q, y))
  }

  /** The tables of all the subtrees from fl on, the table of subtree q
      starting SubStart(q) slots after off: slot y holds SubEntry. */
  ghost predicate SubTablesFilled(t: seq<int>, off: nat, R: nat, ls: seq<int>, order: seq<int>, fl: nat)
  {
    forall q, y :: fl <= q < Pow2(R) && 0 <= y < Pow2(SubBits(ls, R, q)) ==>
      SlotHolds(t, off + SubStart(ls, R, fl, q) + y, SubEntry(ls, order, R, q, y))
  }

  // ---------------------------------------------------------------------
  // The points of the slots

  /** A subtree of a laid-out code is at most 15 - R bits deep. */
  lemma SubBitsFit(cnt: seq<nat>, top: nat, ls: seq<int>, R: nat, q: nat)
    requires Laid(cnt, top, ls) && R <= MaxLength
    ensures R + SubBits(ls, R, q) <= MaxLength
  {
    var o := Owner(ls, if Scaled(q + 1, R) > 0 then Scaled(q + 1, R) - 1 else 0);
    if o < |ls| {
      var _ := CodeAt(cnt, top, ls, o);
    }
  }

  /** Scaling to length l is scaling to length R + l, then R doublings. */
  lemma ScaledDown(x: nat, l: int, R: nat)
    requires 0 <= l && R + l <= MaxLength
    ensures Scaled(x, l) == Scaled(x, R + l) * Pow2(R)
  {
    var m: nat := MaxLength - (R + l);
    ScaledIsProduct(x, l);
    ScaledIsProduct(x, R + l);
    Pow2Add(R, m);
    assert R + m == MaxLength - l;
    MulRotate(x, Pow2(R), Pow2(m));
  }

  lemma MulRotate(x: int, a: int, b: int)
    ensures x * (a * b) == (x * b) * a
  {
  }

  /** Every slot of the table of subtree q has its point in subtree q. */
  lemma SubPointIn(R: nat, q: nat, bits: nat, y: nat)
    requires 1 <= R && R + bits <= MaxLength && y < Pow2(bits)
    ensures Scaled(q, R) <= SubPoint(R, q, bits, y) < Scaled(q + 1, R)
  {
    RevBound(y, bits);
    Pow2IsShl(bits);
    ScaledLess(Rev(y, bits), Shl(1, bits), R + bits);
    ShlScaledBy(1, R, R + bits, bits);
    ScaledSum(q, 1, q + 1, R);
  }

  /** ScaledAdd with the sum passed as s. */
  lemma ScaledSum(a: nat, d: nat, s: nat, l: int)
    requires s == a + d
    ensures Scaled(s, l) == Scaled(a, l) + Scaled(d, l)
  {
    ScaledAdd(a, d, l);
  }

  /** ShlScaled with the shift b - l passed as n. */
  lemma ShlScaledBy(x: nat, l: int, b: int, n: nat)
    requires 1 <= l <= b <= MaxLength && n == b - l
    ensures Shl(x, n) >= 0 && Scaled(Shl(x, n), b) == Scaled(x, l)
  {
    ShlScaled(x, l, b);
  }

  /** The high 15 - R bits of the key of a code of length l, read
      backwards, are its value read backwards over l - R bits. */
  lemma RevShifted(c: nat, l: int, R: nat)
    requires 1 <= R < l <= MaxLength
    ensures Rev(Scaled(c, l), MaxLength - R) == Rev(c, l - R)
  {
    var m: nat := MaxLength - l;
    assert Scaled(c, l) == 0 + Pow2(m) * c by {
      ScaledIsProduct(c, l);
    }
    RevSplit(0, c, m, l - R);
    assert m + (l - R) == MaxLength - R;
    RevZero(m);
  }

  /** A code c of length len > R that starts in subtree q is c1 codes
      past the subtree's first code of that length, c1 below the stride
      2^(len - R). */
  lemma CodeInside(p: nat, p1: nat, c: nat, len: int, R: nat, q: nat) returns (c1: nat)
    requires 1 <= R < len <= MaxLength && p == Scaled(c, len) && p1 == Scaled(c + 1, len)
    requires Scaled(q, R) <= p < Scaled(q + 1, R)
    ensures c1 < Pow2(len - R)
    ensures p == Scaled(q, R) + Scaled(c1, len) && p1 == Scaled(q, R) + Scaled(c1 + 1, len)
  {
    var b := SubtreeFirst(c, len, R, q);
    c1 := c - b;
    assert c1 < Pow2(len - R);
    ScaledSum(b, c1, c, len);
    assert p == Scaled(q, R) + Scaled(c1, len);
    ScaledSum(b, c1 + 1, c + 1, len);
  }

  /** The first code b of length len in subtree q, q << (len - R), and the
      code c of that length starting in the subtree lies less than
      2^(len - R) codes past it. */
  lemma SubtreeFirst(c: nat, len: int, R: nat, q: nat) returns (b: nat)
    requires 1 <= R < len <= MaxLength
    requires Scaled(q, R) <= Scaled(c, len) < Scaled(q + 1, R)
    ensures Scaled(b, len) == Scaled(q, R) && b <= c < b + Pow2(len - R)
  {
    var n: nat := len - R;
    ShlScaledBy(q, R, len, n);
    ShlScaledBy(q + 1, R, len, n);
    var e := Shl(q + 1, n);
    b := Shl(q, n);
    ShlAdd(q, 1, n);
    Pow2IsShl(n);
    ScaledLess(b, c, len);
    ScaledLess(c, e, len);
  }

  /** Shl distributes over addition. */
  lemma {:induction false} ShlAdd(a: int, c: int, n: nat)
    ensures Shl(a + c, n) == Shl(a, n) + Shl(c, n)
    decreases n
  {
    if n > 0 {
      ShlAdd(a, c, n - 1);
    }
  }

  /** The code c of length len > R that starts at p in subtree q: its
      value past the subtree's first code is c1, which key >> R holds read
      backwards over len - R bits. */
  lemma SubCode(p: nat, p1: nat, c: nat, len: int, R: nat, q: nat, key: nat) returns (c1: nat)
    requires 1 <= R < len <= MaxLength && p == Scaled(c, len) && p1 == Scaled(c + 1, len)
    requires Scaled(q, R) <= p < Scaled(q + 1, R) && key == Rev(p, MaxLength)
    ensures c1 < Pow2(len - R) && Shr(key, R) == Rev(c1, len - R)
    ensures p == Scaled(q, R) + Scaled(c1, len) && p1 == Scaled(q, R) + Scaled(c1 + 1, len)
  {
    c1 := CodeInside(p, p1, c, len, R, q);
    KeySplit(p, q, R);
    LowShr(key, R);
    RevShifted(c1, len, R);
  }

  /** Slot y of a bits-bit table lies in the share of the code c1 of
      length n = len - R exactly when its point in subtree q lies in the
      share of the code c1 of length len past the subtree's start. */
  lemma SubPointShare(R: nat, q: nat, bits: nat, y: nat, c1: nat, len: int)
    requires 1 <= R < len && len - R <= bits && R + bits <= MaxLength
    ensures Scaled(c1, len - R) <= Point(y, bits) < Scaled(c1 + 1, len - R)
        <==> Scaled(q, R) + Scaled(c1, len) <= SubPoint(R, q, bits, y) < Scaled(q, R) + Scaled(c1 + 1, len)
  {
    var v := Scaled(Rev(y, bits), R + bits);
    assert R + (len - R) == len;
    ScaledDown(c1, len - R, R);
    ScaledDown(c1 + 1, len - R, R);
    ScaledDown(Rev(y, bits), bits, R);
    ScaleInterval(v, Scaled(c1, len), Scaled(c1 + 1, len), Pow2(R));
  }

  /** The slots ReplicateValue writes for the code c of length len > R
      (starting at p, the next code at p1) from key >> R with stride
      2^(len - R), over the bits-bit table of its subtree q starting at
      cur, are the slots whose point lies in the share of code c. */
  lemma SubHit(p: nat, p1: nat, c: nat, len: int, R: nat, q: nat, key: nat, bits: nat, cur: int,
               from: int, to: int, step: nat, x: int, y: nat)
    requires 1 <= R < len <= MaxLength && p == Scaled(c, len) && p1 == Scaled(c + 1, len)
    requires len - R <= bits && R + bits <= MaxLength
    requires Scaled(q, R) <= p < Scaled(q + 1, R) && key == Rev(p, MaxLength) && y == x - cur
    requires from == cur + Shr(key, R) && to == from + Pow2(bits) && step == Pow2(len - R)
    ensures (from <= x < to && OnStride(x - from, step)) <==> (y < Pow2(bits) && p <= SubPoint(R, q, bits, y) < p1)
  {
    var c1 := SubCode(p, p1, c, len, R, q, key);
    SubShare(c1, len - R, len, R, q, Shr(key, R), bits, cur, from, to, step, x, y, p, p1);
  }

  /** SubHit for the code c1 past the first code of subtree q, whose
      reversal k is where ReplicateValue starts. */
  lemma SubShare(c1: nat, n: nat, len: int, R: nat, q: nat, k: nat, bits: nat, cur: int,
                 from: int, to: int, step: nat, x: int, y: nat, p: nat, p1: nat)
    requires 1 <= R && n == len - R && 1 <= n <= bits && R + bits <= MaxLength
    requires c1 < Pow2(n) && k == Rev(c1, n) && y == x - cur
    requires from == cur + k && to == from + Pow2(bits) && step == Pow2(n)
    requires p == Scaled(q, R) + Scaled(c1, len) && p1 == Scaled(q, R) + Scaled(c1 + 1, len)
    ensures (from <= x < to && OnStride(x - from, step)) <==> (y < Pow2(bits) && p <= SubPoint(R, q, bits, y) < p1)
  {
    SlotsOfCode(c1, n, k, cur, bits, x, y);
    SubPointShare(R, q, bits, y, c1, len);
  }

  // ---------------------------------------------------------------------
  // The second pass, table by table and code by code

  /** Opening the table of subtree qn, which code i starts, writes only a
      root slot; the new table still holds what the first pass left there,
      which is what SubValue says of it, since no slot of it lies before
      code i. */
  lemma SubFilledOpen(t2: seq<int>, t: seq<int>, t1: seq<int>, off: nat, R: nat, ls: seq<int>, order: seq<int>,
                      fl: nat, qn: nat, qn1: nat, i: nat, total: int, low: int, item: int)
    requires i <= |ls| && SubFilled(t, t1, off, R, ls, order, fl, qn, i) && qn1 == qn + 1
    requires fl <= qn && Pos(ls, i) == Scaled(qn, R)
    requires |t| == |t1| && total == SubStart(ls, R, fl, qn) && off + SubStart(ls, R, fl, qn + 1) <= |t|
    requires forall x :: 0 <= x < |t| && !(off <= x < off + total) ==> t[x] == t1[x]
    requires 0 <= low < Pow2(R)
    requires |t2| == |t| && forall x :: 0 <= x < |t2| ==> t2[x] == if x == off + low then item else t[x]
    ensures SubFilled(t2, t1, off, R, ls, order, fl, qn1, i)
  {
    forall q, y | fl <= q < qn1 && 0 <= y < Pow2(SubBits(ls, R, q))
      ensures SlotHolds(t2, off + SubStart(ls, R, fl, q) + y, SubValue(t1, off, R, ls, order, fl, i, q, y))
    {
      SubSlotOpen(t2, t, t1, off, R, ls, order, fl, qn, qn1, i, total, low, item, q, y);
    }
  }

  /** SubFilledOpen for one slot y of the table of subtree q. */
  lemma SubSlotOpen(t2: seq<int>, t: seq<int>, t1: seq<int>, off: nat, R: nat, ls: seq<int>, order: seq<int>,
                    fl: nat, qn: nat, qn1: nat, i: nat, total: int, low: int, item: int, q: nat, y: nat)
    requires i <= |ls| && SubFilled(t, t1, off, R, ls, order, fl, qn, i) && qn1 == qn + 1
    requires fl <= qn && Pos(ls, i) == Scaled(qn, R)
    requires |t| == |t1| && total == SubStart(ls, R, fl, qn) && off + SubStart(ls, R, fl, qn + 1) <= |t|
    requires forall x :: 0 <= x < |t| && !(off <= x < off + total) ==> t[x] == t1[x]
    requires 0 <= low < Pow2(R)
    requires |t2| == |t| && forall x :: 0 <= x < |t2| ==> t2[x] == if x == off + low then item else t[x]
    requires fl <= q < qn1 && y < Pow2(SubBits(ls, R, q))
    ensures off + SubStart(ls, R, fl, q) + y < |t2|
    ensures t2[off + SubStart(ls, R, fl, q) + y] == SubValue(t1, off, R, ls, order, fl, i, q, y)
  {
    var v := SubValue(t1, off, R, ls, order, fl, i, q, y);
    var x := off + SubStart(ls, R, fl, q) + y;
    SubStartFloor(ls, R, fl, q);
    SubStartGrows(ls, R, fl, q + 1, qn1);
    assert t2[x] == t[x];
    if q < qn {
      assert SlotHolds(t, x, v);
    } else {
      assert t[x] == t1[x];
    }
  }

  /** Replicating long code i over the table of its subtree q, as
      PlaceInSubtree does, puts code i's entry in exactly the slots whose
      point lies in its share; the tables of earlier subtrees lie below and
      keep their values. */
  lemma SubFilledStep(t2: seq<int>, t: seq<int>, t1: seq<int>, off: nat, R: nat, cnt: seq<nat>, top: nat,
                      ls: seq<int>, order: seq<int>, fl: nat, q: nat, qn: nat, i: nat, i1: nat, len: int,
                      key: nat, bits: nat, cur: int, from: int, to: int, step: nat, item: int)
    requires Laid(cnt, top, ls) && i < |ls| && i < |order| && ls[i] == len && i1 == i + 1
    requires 1 <= R < len <= MaxLength && len - R <= bits && fl <= q && qn == q + 1 && bits == SubBits(ls, R, q)
    requires Scaled(q, R) <= Pos(ls, i) < Scaled(q + 1, R) && key == Rev(Pos(ls, i), MaxLength)
    requires cur == off + SubStart(ls, R, fl, q) && SubFilled(t, t1, off, R, ls, order, fl, qn, i)
    requires step == Pow2(len - R) && item == Entry(len - R, order[i])
    requires from == cur + Shr(key, R) && to == from + Pow2(bits) && Replicated(t2, t, from, to, step, item)
    ensures SubFilled(t2, t1, off, R, ls, order, fl, qn, i1)
  {
    forall q', y | fl <= q' < qn && 0 <= y < Pow2(SubBits(ls, R, q'))
      ensures SlotHolds(t2, off + SubStart(ls, R, fl, q') + y, SubValue(t1, off, R, ls, order, fl, i1, q', y))
    {
      SubSlotAny(t2, t, t1, off, R, cnt, top, ls, order, fl, q, qn, i, i1, len, key, bits, cur, from, to, step, item, q', y);
    }
  }

  /** SubFilledStep for one slot y of the table of subtree q' <= q. */
  lemma SubSlotAny(t2: seq<int>, t: seq<int>, t1: seq<int>, off: nat, R: nat, cnt: seq<nat>, top: nat,
                   ls: seq<int>, order: seq<int>, fl: nat, q: nat, qn: nat, i: nat, i1: nat, len: int,
                   key: nat, bits: nat, cur: int, from: int, to: int, step: nat, item: int, q': nat, y: nat)
    requires Laid(cnt, top, ls) && i < |ls| && i < |order| && ls[i] == len && i1 == i + 1
    requires 1 <= R < len <= MaxLength && len - R <= bits && fl <= q && qn == q + 1 && bits == SubBits(ls, R, q)
    requires Scaled(q, R) <= Pos(ls, i) < Scaled(q + 1, R) && key == Rev(Pos(ls, i), MaxLength)
    requires cur == off + SubStart(ls, R, fl, q) && SubFilled(t, t1, off, R, ls, order, fl, qn, i)
    requires step == Pow2(len - R) && item == Entry(len - R, order[i])
    requires from == cur + Shr(key, R) && to == from + Pow2(bits) && Replicated(t2, t, from, to, step, item)
    requires fl <= q' < qn && y < Pow2(SubBits(ls, R, q'))
    ensures SlotHolds(t2, off + SubStart(ls, R, fl, q') + y, SubValue(t1, off, R, ls, order, fl, i1, q', y))
  {
    var x := off + SubStart(ls, R, fl, q') + y;
    assert SlotHolds(t, x, SubValue(t1, off, R, ls, order, fl, i, q', y));
    if q' < q {
      SubSlotBelow(t1, off, R, cnt, top, ls, order, fl, q, i, i1, cur, q', y);
      assert t2[x] == t[x];
    } else {
      assert q' == q;
      SubSlotStep(t1, off, R, cnt, top, ls, order, fl, q, i, i1, len, key, bits, cur, from, to, step, item, y);
    }
  }

  /** SubFilledStep for one slot y of the table of an earlier subtree q':
      the slot lies below the table of subtree q, and its point before code
      i, so placing code i leaves its value alone. */
  lemma SubSlotBelow(t1: seq<int>, off: nat, R: nat, cnt: seq<nat>, top: nat, ls: seq<int>, order: seq<int>,
                     fl: nat, q: nat, i: nat, i1: nat, cur: int, q': nat, y: nat)
    requires Laid(cnt, top, ls) && i < |ls| && i1 == i + 1 && 1 <= R <= MaxLength
    requires fl <= q' < q && y < Pow2(SubBits(ls, R, q'))
    requires Scaled(q, R) <= Pos(ls, i) && cur == off + SubStart(ls, R, fl, q)
    ensures off + SubStart(ls, R, fl, q') + y < cur
    ensures SubValue(t1, off, R, ls, order, fl, i1, q', y) == SubValue(t1, off, R, ls, order, fl, i, q', y)
  {
    var p := SubPoint(R, q', SubBits(ls, R, q'), y);
    SubStartGrows(ls, R, fl, q' + 1, q);
    assert p < Pos(ls, i) by {
      SubBitsFit(cnt, top, ls, R, q');
      SubPointIn(R, q', SubBits(ls, R, q'), y);
      ScaledLess(q' + 1, q, R);
    }
    PosMonotone(ls, i, i1);
  }

  /** SubFilledStep for one slot y of the table of subtree q: the value
      the slot should hold once code i is placed is code i's entry exactly
      where ReplicateValue writes it, and what it was before elsewhere. */
  lemma SubSlotStep(t1: seq<int>, off: nat, R: nat, cnt: seq<nat>, top: nat, ls: seq<int>, order: seq<int>,
                    fl: nat, q: nat, i: nat, i1: nat, len: int, key: nat, bits: nat, cur: int, from: int, to: int,
                    step: nat, item: int, y: nat)
    requires Laid(cnt, top, ls) && i < |ls| && i < |order| && ls[i] == len && i1 == i + 1
    requires 1 <= R < len <= MaxLength && len - R <= bits && bits == SubBits(ls, R, q) && y < Pow2(bits)
    requires fl <= q
    requires Scaled(q, R) <= Pos(ls, i) < Scaled(q + 1, R) && key == Rev(Pos(ls, i), MaxLength)
    requires cur == off + SubStart(ls, R, fl, q) && from == cur + Shr(key, R) && to == from + Pow2(bits)
    requires step == Pow2(len - R) && item == Entry(len - R, order[i])
    ensures SubValue(t1, off, R, ls, order, fl, i1, q, y) ==
      if from <= off + SubStart(ls, R, fl, q) + y < to && OnStride(off + SubStart(ls, R, fl, q) + y - from, step)
      then item else SubValue(t1, off, R, ls, order, fl, i, q, y)
  {
    var x, p := off + SubStart(ls, R, fl, q) + y, SubPoint(R, q, bits, y);
    SubSlotHit(cnt, top, ls, i, i1, len, R, q, key, bits, cur, from, to, step, x, y, p);
    SubSlotValue(t1, off, R, ls, order, fl, i, i1, q, y, p, item);
  }

  /** The slot x = cur + y is written for code i exactly when its point p
      lies in the share of code i. */
  lemma SubSlotHit(cnt: seq<nat>, top: nat, ls: seq<int>, i: nat, i1: nat, len: int, R: nat, q: nat, key: nat,
                   bits: nat, cur: int, from: int, to: int, step: nat, x: int, y: nat, p: nat)
    requires Laid(cnt, top, ls) && i < |ls| && ls[i] == len && i1 == i + 1
    requires 1 <= R < len <= MaxLength && len - R <= bits && bits == SubBits(ls, R, q) && y < Pow2(bits)
    requires Scaled(q, R) <= Pos(ls, i) < Scaled(q + 1, R) && key == Rev(Pos(ls, i), MaxLength)
    requires from == cur + Shr(key, R) && to == from + Pow2(bits) && step == Pow2(len - R)
    requires x == cur + y && p == SubPoint(R, q, bits, y)
    ensures (from <= x < to && OnStride(x - from, step)) <==> Pos(ls, i) <= p < Pos(ls, i1)
  {
    SubBitsFit(cnt, top, ls, R, q);
    var c := CodeAt(cnt, top, ls, i);
    assert Pos(ls, i1) == Scaled(c + 1, len);
    SubHit(Pos(ls, i), Pos(ls, i1), c, len, R, q, key, bits, cur, from, to, step, x, y);
  }

  /** Once code i is placed, slot y of the table of subtree q holds code
      i's entry if its point p lies in the share of code i, and what it
      held before otherwise. */
  lemma SubSlotValue(t1: seq<int>, off: nat, R: nat, ls: seq<int>, order: seq<int>, fl: nat, i: nat, i1: nat,
                     q: nat, y: nat, p: nat, item: int)
    requires i < |ls| && i < |order| && i1 == i + 1 && p == SubPoint(R, q, SubBits(ls, R, q), y)
    requires item == Entry(ls[i] - R, order[i])
    ensures SubValue(t1, off, R, ls, order, fl, i1, q, y) ==
      if Pos(ls, i) <= p < Pos(ls, i1) then item else SubValue(t1, off, R, ls, order, fl, i, q, y)
  {
    PosMonotone(ls, i, i1);
    if Pos(ls, i) <= p < Pos(ls, i1) {
      OwnerIs(ls, p, i);
    }
  }

  /** Once every code of a complete code is placed and every table is
      open, every slot holds its entry. */
  lemma SubFilledDone(t: seq<int>, t1: seq<int>, off: nat, R: nat, cnt: seq<nat>, top: nat, ls: seq<int>,
                      order: seq<int>, fl: nat, qn: nat, i: nat)
    requires Laid(cnt, top, ls) && Complete(ls) && 1 <= R <= MaxLength && qn == Pow2(R) && i == |ls|
    requires SubFilled(t, t1, off, R, ls, order, fl, qn, i)
    ensures SubTablesFilled(t, off, R, ls, order, fl)
  {
    forall q, y | fl <= q < Pow2(R) && 0 <= y < Pow2(SubBits(ls, R, q))
      ensures SlotHolds(t, off + SubStart(ls, R, fl, q) + y, SubEntry(ls, order, R, q, y))
    {
      var v := SubValue(t1, off, R, ls, order, fl, |ls|, q, y);
      assert SlotHolds(t, off + SubStart(ls, R, fl, q) + y, v);
      SubBitsFit(cnt, top, ls, R, q);
      SubPointIn(R, q, SubBits(ls, R, q), y);
      ScaledLess(q + 1, Pow2(R), R);
      ScaledWhole(R);
    }
  }

  /** SubEntry reads only the first |ls| symbols of the order. */
  lemma SubTablesPrefix(t: seq<int>, off: nat, R: nat, ls: seq<int>, order: seq<int>, fl: nat)
    requires |ls| <= |order| && SubTablesFilled(t, off, R, ls, order, fl)
    ensures SubTablesFilled(t, off, R, ls, order[..|ls|], fl)
  {
    forall q, y | fl <= q < Pow2(R) && 0 <= y < Pow2(SubBits(ls, R, q))
      ensures SubEntry(ls, order[..|ls|], R, q, y) == SubEntry(ls, order, R, q, y)
    {
    }
  }
}
