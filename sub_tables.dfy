/** The second-level tables of a two-level Huffman decoding table.

    A code longer than R bits starts inside one subtree of the code space:
    the 2^(15 - R) points that share its first R bits.  The builder opens
    one second-level table per subtree that such codes reach, in the order
    of the subtrees, and points the subtree's root slot at it.  This module
    proves where the codes fall, what the table-size search finds, and how
    the root slots and the slots in use evolve. */
module SubTables {
  import opened Binary
  import opened BitReverse
  import opened CanonicalCode
  import opened TableLayout

  /** A complete code: its codes fill the code space (Kraft sum 2^15). */
  predicate Complete(ls: seq<int>)
  {
    Pos(ls, |ls|) == CodeSpace
  }

  /** The whole code space is the 2^R subtrees of an R-bit table. */
  lemma ScaledWhole(R: nat)
    requires R <= MaxLength
    ensures Scaled(Pow2(R), R) == CodeSpace
  {
    ScaledIsProduct(Pow2(R), R);
    Pow2Add(R, MaxLength - R);
    CodeSpaceIs();
  }

  /** The codes of length at most R fill the subtrees before FirstLong, and
      the first longer code starts the subtree FirstLong. */
  lemma FirstLongStart(cnt: seq<nat>, top: nat, ls: seq<int>, R: nat)
    requires LaidCodes(cnt, top, ls) && 1 <= R <= top
    ensures Start(cnt, R + 1) <= |ls|
    ensures Pos(ls, Start(cnt, R + 1)) == Scaled(FirstLong(cnt, R), R)
    ensures FirstLong(cnt, R) <= Pow2(R)
  {
    LaidIs(cnt, top, ls);
    var s, fl := Start(cnt, R + 1), FirstLong(cnt, R);
    assert s == Start(cnt, R) + cnt[R] && fl == NextCode(cnt, R) + cnt[R];
    PosAt(cnt, top, s, R, cnt[R], fl);
    PosMonotone(ls, s, |ls|);
    ScaledWhole(R);
    ScaledLess(Pow2(R), fl, R);
  }

  /** The key of a point p of subtree q: its low R bits are q read
      backwards, the bits above them are p's offset in the subtree read
      backwards. */
  lemma KeySplit(p: nat, q: nat, R: nat)
    requires 1 <= R <= MaxLength && Scaled(q, R) <= p < Scaled(q + 1, R)
    ensures Rev(p, MaxLength) % Pow2(R) == Rev(q, R)
    ensures Rev(p, MaxLength) / Pow2(R) == Rev(p - Scaled(q, R), MaxLength - R)
  {
    var k := MaxLength - R;
    var lo := p - Scaled(q, R);
    ScaledIsProduct(q, R);
    ScaledSucc(q, R);
    MulComm(q, Pow2(k));
    KeyHalves(p, lo, q, k, R);
  }

  /** KeySplit on the product form p == lo + 2^k * q of the point. */
  lemma KeyHalves(p: nat, lo: nat, q: nat, k: nat, R: nat)
    requires R == MaxLength - k && lo < Pow2(k) && p == lo + Pow2(k) * q
    ensures Rev(p, MaxLength) % Pow2(R) == Rev(q, R)
    ensures Rev(p, MaxLength) / Pow2(R) == Rev(lo, k)
  {
    RevHigh(lo, q, k, MaxLength, R);
  }

  /** The test `(key & mask) !== low` of the builder: the low R bits of the
      key of the code at p differ from low exactly when p starts subtree qn,
      the first one without a table.  Before the first long code low is -1;
      afterwards it is the root slot of subtree qn - 1, which holds p. */
  lemma NewSubtree(p: nat, qn: nat, R: nat, low: int, first: bool)
    requires 1 <= R <= MaxLength && p < CodeSpace
    requires first ==> low == -1 && p == Scaled(qn, R)
    requires !first ==> 1 <= qn && low == Rev(qn - 1, R) && Scaled(qn - 1, R) <= p <= Scaled(qn, R)
    ensures (Low(Rev(p, MaxLength), R) != low) <==> p == Scaled(qn, R)
    ensures p == Scaled(qn, R) ==> qn < Pow2(R) && Low(Rev(p, MaxLength), R) == Rev(qn, R)
  {
    if p == Scaled(qn, R) {
      ScaledFits(qn, R);
      ScaledLess(qn, qn + 1, R);
      SubtreeKeyLow(p, qn, R);
      if !first && Rev(qn, R) == low {
        RevInjective(qn, qn - 1, R);
      }
    } else {
      var q := qn - 1;
      assert q + 1 == qn;
      SubtreeKeyLow(p, q, R);
    }
  }

  /** The low R bits of the key of a point of subtree q are q read
      backwards. */
  lemma SubtreeKeyLow(p: nat, q: nat, R: nat)
    requires 1 <= R <= MaxLength && Scaled(q, R) <= p < Scaled(q + 1, R)
    ensures Low(Rev(p, MaxLength), R) == Rev(q, R)
  {
    LowShr(Rev(p, MaxLength), R);
    KeySplit(p, q, R);
  }

  /** A code longer than R that starts inside subtree q ends inside it. */
  lemma CodeInSubtree(cnt: seq<nat>, top: nat, ls: seq<int>, i: nat, q: nat, R: nat)
    requires LaidCodes(cnt, top, ls) && i < |ls| && 1 <= R < ls[i]
    requires Scaled(q, R) <= Pos(ls, i) < Scaled(q + 1, R)
    ensures Pos(ls, i + 1) <= Scaled(q + 1, R)
  {
    LaidIs(cnt, top, ls);
    var c := CodeAt(cnt, top, ls, i);
    CodeFitsSubtree(c, ls[i], q, R);
  }

  /** The share of a code c of length l > R that starts inside subtree q
      ends inside it: q + 1 scaled to l bits is a code value. */
  lemma CodeFitsSubtree(c: nat, l: int, q: nat, R: nat)
    requires 1 <= R < l <= MaxLength && Scaled(c, l) < Scaled(q + 1, R)
    ensures Scaled(c + 1, l) <= Scaled(q + 1, R)
  {
    MulNonneg(q + 1, Pow2(l - R));
    var e := (q + 1) * Pow2(l - R);
    ScaledShift(q + 1, R, l);
    ScaledLess(c, e, l);
    ScaledLess(c + 1, e, l);
  }

  /** Inside the part of the code space the codes cover, Owner finds the
      code whose share holds the point. */
  lemma OwnerBounds(ls: seq<int>, p: nat)
    requires p < Pos(ls, |ls|)
    ensures Owner(ls, p) < |ls| && Pos(ls, Owner(ls, p)) <= p < Pos(ls, Owner(ls, p) + 1)
  {
    var e := FirstFrom(ls, p + 1, 0);
    FirstFromBounds(ls, p + 1, 0, 0);
    assert e > 0;
    FirstFromBounds(ls, p + 1, 0, e - 1);
  }

  /** The code holding the last point of subtree q, for a complete code: it
      comes at or after every code i that starts in the subtree, and its
      length is Longest(q). */
  lemma LastCode(ls: seq<int>, R: nat, q: nat, i: nat) returns (o: nat)
    requires Complete(ls) && 1 <= R <= MaxLength && q < Pow2(R)
    requires i < |ls| && Scaled(q, R) <= Pos(ls, i) < Scaled(q + 1, R)
    ensures i <= o < |ls| && Longest(ls, R, q) == ls[o]
    ensures Pos(ls, o) < Scaled(q + 1, R) <= Pos(ls, o + 1)
  {
    var end := Scaled(q + 1, R);
    ScaledWhole(R);
    ScaledLess(q + 1, Pow2(R), R);
    var last := end - 1;
    o := Owner(ls, last);
    OwnerBounds(ls, last);
    LongestIs(ls, R, q, last, o);
    if o < i {
      PosMonotone(ls, o + 1, i);
    }
  }

  /** Longest(q) is the length of the owner of the last point of q. */
  lemma LongestIs(ls: seq<int>, R: nat, q: nat, last: nat, o: nat)
    requires last + 1 == Scaled(q + 1, R) && o == Owner(ls, last) && o < |ls|
    ensures Longest(ls, R, q) == ls[o]
  {
  }

  /** When subtree q holds a code longer than R, so does its last point. */
  lemma LongestLong(cnt: seq<nat>, top: nat, ls: seq<int>, R: nat, q: nat, i: nat)
    requires LaidCodes(cnt, top, ls) && Complete(ls) && 1 <= R <= top && q < Pow2(R)
    requires i < |ls| && R < ls[i] && Scaled(q, R) <= Pos(ls, i) < Scaled(q + 1, R)
    ensures R < Longest(ls, R, q) <= top
  {
    LaidIs(cnt, top, ls);
    var o := LastCode(ls, R, q, i);
    LengthsSorted(cnt, top, ls, i, o);
    var l := LengthAt(cnt, top, ls, o);
  }

  /** k codes of length l in a row, from index s to index e, take
      Scaled(k, l) of the code space. */
  lemma {:induction false} PosSpan(ls: seq<int>, s: nat, l: int, k: nat, e: nat)
    requires 1 <= l <= MaxLength && e == s + k && e <= |ls| && forall x :: s <= x < e ==> ls[x] == l
    ensures Pos(ls, e) == Pos(ls, s) + Scaled(k, l)
    decreases k
  {
    if k > 0 {
      var k1, x := k - 1, e - 1;
      PosSpan(ls, s, l, k1, x);
      assert ls[x] == l;
      ScaledSucc(k1, l);
    } else {
      ScaledTwice(0, l);
    }
  }

  /** Scaled is additive. */
  lemma {:induction false} ScaledAdd(a: nat, c: nat, l: int)
    ensures Scaled(a + c, l) == Scaled(a, l) + Scaled(c, l)
    decreases MaxLength - l
  {
    if l < MaxLength {
      ScaledAdd(a, c, l + 1);
    }
  }

  /** A count below the length l is shifted up to the table width b by
      Shl, which is what Scaled does between the two lengths. */
  lemma {:induction false} ShlScaled(x: nat, l: int, b: int)
    requires 1 <= l <= b <= MaxLength
    ensures Shl(x, b - l) >= 0 && Scaled(Shl(x, b - l), b) == Scaled(x, l)
    decreases b - l
  {
    if l < b {
      ShlScaled(x, l, b - 1);
      var y := Shl(x, b - 1 - l);
      assert b - l - 1 == b - 1 - l;
      ScaledDouble(y, b);
    }
  }

  /** The codes from index i on with lengths len..b, counted by count (the
      builder's count array once the codes before i are placed), weigh
      Weight(count, len, b) codes of length b. */
  lemma {:induction false} WeightPos(cnt: seq<nat>, top: nat, ls: seq<int>, count: seq<int>, i: nat, len: nat, b: nat)
    requires LaidCodes(cnt, top, ls) && |count| == |cnt| && 1 <= len <= b <= top
    requires Start(cnt, len) <= i <= Start(cnt, len + 1) && count[len] == Start(cnt, len + 1) - i
    requires forall l :: len < l <= top ==> count[l] == cnt[l]
    ensures i <= Start(cnt, b + 1) <= |ls| && Weight(count, len, b) >= 0
    ensures Scaled(Weight(count, len, b), b) == Pos(ls, Start(cnt, b + 1)) - Pos(ls, i)
    decreases b
  {
    StartGrows(cnt, len + 1, b + 1);
    var e := Start(cnt, b + 1);
    if b == len {
      var k := count[len];
      assert Weight(count, len, b) == k by {
        assert Weight(count, len + 1, b) == 0;
        assert b - len == 0;
      }
      BlockSpan(cnt, top, ls, len, i, e, k);
    } else {
      var b1 := b - 1;
      WeightPos(cnt, top, ls, count, i, len, b1);
      var s := Start(cnt, b1 + 1);
      assert b1 + 1 == b;
      var c := cnt[b];
      assert count[b] == c && e == s + c;
      WeightStep(count, len, b1, b);
      var w1, w := Weight(count, len, b1), Weight(count, len, b);
      assert w == 2 * w1 + c;
      BlockSpan(cnt, top, ls, b, s, e, c);
      WeightDouble(w1, c, w, b, Pos(ls, i), Pos(ls, s), Pos(ls, e));
    }
  }

  /** The codes from index s to the end e of the block of length l take
      Scaled(e - s, l) of the code space. */
  lemma BlockSpan(cnt: seq<nat>, top: nat, ls: seq<int>, l: nat, s: nat, e: nat, k: nat)
    requires LaidCodes(cnt, top, ls) && 1 <= l <= top
    requires Start(cnt, l) <= s && e == Start(cnt, l + 1) && k == e - s
    ensures e <= |ls| && k <= cnt[l] && Pos(ls, e) == Pos(ls, s) + Scaled(k, l)
  {
    LaidIs(cnt, top, ls);
    BlockLengths(cnt, top, l, cnt[l]);
    PosSpan(ls, s, l, k, e);
  }

  /** The step of WeightPos in the code space: doubling the table width
      doubles the weight of the shorter codes. */
  lemma WeightDouble(w1: nat, c: nat, w: int, b: int, pi: int, ps: int, pe: int)
    requires 1 < b <= MaxLength && w == 2 * w1 + c
    requires Scaled(w1, b - 1) == ps - pi && pe == ps + Scaled(c, b)
    ensures w >= 0 && Scaled(w, b) == pe - pi
  {
    var a := 2 * w1;
    ScaledAdd(a, c, b);
    assert a + c == w;
    ScaledDouble(w1, b);
  }

  /** The search of nextTableBitSize read in the code space: the codes of
      lengths len..b from the first code of subtree q on weigh at least a
      whole subtree at b bits exactly when b reaches the longest code of
      the subtree. */
  lemma WeightSubtree(cnt: seq<nat>, top: nat, ls: seq<int>, count: seq<int>, i: nat, len: nat, b: nat,
                      R: nat, q: nat, o: nat, L: nat)
    requires LaidCodes(cnt, top, ls) && |count| == |cnt| && 1 <= R < len <= b <= top
    requires Start(cnt, len) <= i <= Start(cnt, len + 1) && count[len] == Start(cnt, len + 1) - i
    requires forall l :: len < l <= top ==> count[l] == cnt[l]
    requires o < |ls| && L <= top && Start(cnt, L) <= o < Start(cnt, L + 1)
    requires i <= |ls| && Pos(ls, i) == Scaled(q, R) && Pos(ls, o) < Scaled(q + 1, R) <= Pos(ls, o + 1)
    ensures Weight(count, len, b) >= Pow2(b - R) <==> b >= L
  {
    LaidIs(cnt, top, ls);
    WeightPos(cnt, top, ls, count, i, len, b);
    var e := Start(cnt, b + 1);
    WeightAgainstSubtree(Weight(count, len, b), b, R, q, Pos(ls, e));
    if b >= L {
      StartGrows(cnt, L + 1, b + 1);
      PosMonotone(ls, o + 1, e);
    } else {
      StartGrows(cnt, b + 1, L);
      PosMonotone(ls, e, o);
    }
  }

  /** Codes that weigh w at b bits, laid from the start of subtree q, reach
      the end of the subtree exactly when w is a whole subtree, 2^(b - R). */
  lemma WeightAgainstSubtree(w: nat, b: int, R: nat, q: nat, e: int)
    requires 1 <= R <= b <= MaxLength && Scaled(w, b) == e - Scaled(q, R)
    ensures w >= Pow2(b - R) <==> e >= Scaled(q + 1, R)
  {
    ShlScaled(1, R, b);
    Pow2IsShl(b - R);
    ScaledAdd(q, 1, R);
    ScaledLess(w, Pow2(b - R), b);
  }

  lemma {:induction false} Pow2IsShl(n: nat)
    ensures Shl(1, n) == Pow2(n)
  {
    if n > 0 {
      Pow2IsShl(n - 1);
    }
  }

  /** WeightSubtree for every width: the weight reaches a whole subtree
      from the longest length L of the subtree on, and only from there. */
  lemma SubtreeSearch(cnt: seq<nat>, top: nat, ls: seq<int>, count: seq<int>, i: nat, len: nat,
                      R: nat, q: nat) returns (L: nat)
    requires LaidCodes(cnt, top, ls) && Complete(ls) && |count| == |cnt|
    requires 1 <= R < len <= top
    requires Start(cnt, len) <= i < Start(cnt, len + 1) && count[len] == Start(cnt, len + 1) - i
    requires forall l :: len < l <= top ==> count[l] == cnt[l]
    requires q < Pow2(R) && i < |ls| && Pos(ls, i) == Scaled(q, R)
    ensures L == Longest(ls, R, q) && len <= L <= top && SubBits(ls, R, q) == L - R
    ensures forall b :: len <= b <= top ==> (Weight(count, len, b) >= Pow2(b - R) <==> b >= L)
  {
    LaidIs(cnt, top, ls);
    LengthIs(cnt, top, ls, i, len);
    ScaledLess(q, q + 1, R);
    var o := LastCode(ls, R, q, i);
    LengthsSorted(cnt, top, ls, i, o);
    L := LengthAt(cnt, top, ls, o);
    forall b | len <= b <= top
      ensures Weight(count, len, b) >= Pow2(b - R) <==> b >= L
    {
      WeightSubtree(cnt, top, ls, count, i, len, b, R, q, o, L);
    }
  }

  /** What nextTableBitSize returns: given that the weight reaches a whole
      subtree from the width L on and only from there (SubtreeSearch), the
      search stops at L, so it returns L - R bits. */
  lemma SubBitsFromWeights(count: seq<int>, len: nat, top: nat, R: nat, L: nat, r: int)
    requires 1 <= R < len <= L <= top <= MaxLength && top < |count|
    requires forall b :: len <= b <= top ==> (Weight(count, len, b) >= Pow2(b - R) <==> b >= L)
    requires len - R <= r && r + R <= top
    requires r + R < MaxLength ==> Pow2(r) <= Weight(count, len, r + R)
    requires forall b :: len <= b < r + R ==> Weight(count, len, b) < Pow2(b - R)
    ensures r + R == L
  {
    var b := r + R;
    assert b - R == r;
    assert Weight(count, len, L) >= Pow2(L - R);
    assert b < MaxLength ==> Weight(count, len, b) >= Pow2(b - R);
  }

  /** Every table starts past the root table, and later tables start
      later. */
  lemma {:induction false} SubStartFloor(ls: seq<int>, R: nat, q0: nat, q: nat)
    ensures Pow2(R) <= SubStart(ls, R, q0, q)
    decreases q
  {
    if q > q0 {
      SubStartFloor(ls, R, q0, q - 1);
    }
  }

  lemma {:induction false} SubStartGrows(ls: seq<int>, R: nat, q0: nat, a: nat, b: nat)
    requires a <= b
    ensures Pow2(R) <= SubStart(ls, R, q0, a) <= SubStart(ls, R, q0, b)
    decreases b
  {
    if a < b {
      SubStartGrows(ls, R, q0, a, b - 1);
    } else {
      SubStartFloor(ls, R, q0, a);
    }
  }

  /** The writes of a code of length len into a table of bits index bits:
      the start slot key >> R lies below the stride 2^(len - R), which
      divides the table size. */
  lemma SubSlots(key: nat, R: nat, len: nat, bits: nat)
    requires R < len <= R + bits && key < Pow2(len)
    ensures Shr(key, R) < Pow2(len - R)
    ensures OnStride(Pow2(bits), Pow2(len - R)) && Pow2(len - R) <= Pow2(bits)
  {
    assert R + (len - R) == len;
    LowShr(key, R);
    ShiftBound(key, R, len - R);
    Pow2OnStride(len - R, bits);
    Pow2Monotone(len - R, bits);
  }

  /** A multiple of step below a multiple end of step is at most end - step. */
  lemma StrideLast(d: int, end: int, step: int)
    requires step > 0 && 0 <= d < end && d % step == 0 && end % step == 0
    ensures d + step <= end
  {
    var m, e := d / step, end / step;
    assert d == step * m && end == step * e;
    if m >= e {
      MulLe(step, e, m);
    }
    MulLe(step, m + 1, e);
  }

  /** Replicating from cur + k, k below the stride, over end slots writes
      only inside [cur, cur + end). */
  lemma ReplicatedInside(t2: seq<int>, t1: seq<int>, cur: int, k: int, at: int, end: int, step: int, item: int)
    requires step > 0 && 0 <= k < step && OnStride(end, step) && at == cur + k
    requires Replicated(t2, t1, at, at + end, step, item)
    ensures |t2| == |t1|
    ensures forall x :: 0 <= x < |t2| && !(cur <= x < cur + end) ==> t2[x] == t1[x]
  {
    forall x | 0 <= x < |t2| && !(cur <= x < cur + end)
      ensures t2[x] == t1[x]
    {
      var d := x - (cur + k);
      if cur + k <= x < cur + k + end && OnStride(d, step) {
        OnStrideMod(d, step);
        OnStrideMod(end, step);
        StrideLast(d, end, step);
      }
    }
  }

  // ---------------------------------------------------------------------
  // The root slots and the slots in use

  /** The pointer entry of the root slot j of subtree q: the length of the
      longest code of the subtree, and the distance from slot j to the
      subtree's table. */
  function PointerEntry(ls: seq<int>, R: nat, q0: nat, q: nat, j: nat): int
  {
    Entry(Longest(ls, R, q), SubStart(ls, R, q0, q) - j)
  }

  /** Root slot j once the tables of the subtrees q0 .. qn - 1 are open: a
      pointer for those subtrees, its value in t1 for the others. */
  function RootAfter(t1: seq<int>, off: nat, R: nat, ls: seq<int>, q0: nat, qn: nat, j: nat): int
    requires off + Pow2(R) <= |t1| && j < Pow2(R)
  {
    var q := Rev(j, R);
    if q0 <= q < qn then PointerEntry(ls, R, q0, q, j) else t1[off + j]
  }

  /** The table t against t1 once the tables of the subtrees q0 .. qn - 1
      are open and total slots from off are in use: nothing past them has
      changed, and the root slots are as RootAfter says. */
  predicate SubFrame(t: seq<int>, t1: seq<int>, off: nat, R: nat, ls: seq<int>, q0: nat, qn: nat, total: int)
  {
    |t| == |t1| && Pow2(R) <= total && off + total <= |t|
    && (forall x {:trigger t[x]} :: 0 <= x < |t| && !(off <= x < off + total) ==> t[x] == t1[x])
    && forall j :: 0 <= j < Pow2(R) ==> t[off + j] == RootAfter(t1, off, R, ls, q0, qn, j)
  }

  /** Writes past the root table and inside the slots in use keep SubFrame. */
  lemma SubFrameKeep(t2: seq<int>, t: seq<int>, t1: seq<int>, off: nat, R: nat, ls: seq<int>, q0: nat, qn: nat,
                     total: int, lo: int, hi: int)
    requires SubFrame(t, t1, off, R, ls, q0, qn, total)
    requires |t2| == |t| && off + Pow2(R) <= lo && hi <= off + total
    requires forall x :: 0 <= x < |t2| && !(lo <= x < hi) ==> t2[x] == t[x]
    ensures SubFrame(t2, t1, off, R, ls, q0, qn, total)
  {
    forall j | 0 <= j < Pow2(R)
      ensures t2[off + j] == RootAfter(t1, off, R, ls, q0, qn, j)
    {
      assert t2[off + j] == t[off + j];
    }
  }

  /** Opening the table of subtree qn: the slots in use grow by its size,
      and its root slot Rev(qn, R) gets its pointer. */
  lemma SubFrameOpen(t2: seq<int>, t: seq<int>, t1: seq<int>, off: nat, R: nat, ls: seq<int>, q0: nat, qn: nat,
                     qn1: nat, total: int, total2: int, low: nat, item: int)
    requires SubFrame(t, t1, off, R, ls, q0, qn, total) && qn1 == qn + 1
    requires q0 <= qn < Pow2(R) && low == Rev(qn, R) && item == PointerEntry(ls, R, q0, qn, low)
    requires total <= total2 && off + total2 <= |t|
    requires |t2| == |t| && forall x :: 0 <= x < |t2| ==> t2[x] == if x == off + low then item else t[x]
    ensures SubFrame(t2, t1, off, R, ls, q0, qn1, total2)
  {
    RevBound(qn, R);
    RevRev(qn, R);
    forall j | 0 <= j < Pow2(R)
      ensures t2[off + j] == RootAfter(t1, off, R, ls, q0, qn1, j)
    {
      if j != low {
        RevRev(j, R);
        assert t2[off + j] == RootAfter(t1, off, R, ls, q0, qn, j);
      }
    }
  }
}
