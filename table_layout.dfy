/** Where the entries of a two-level Huffman decoding table go.

    The code space of a prefix code with lengths up to 15 is [0, 2^15): a
    code of length l and value c owns [c * 2^(15 - l), (c + 1) * 2^(15 - l)),
    and the canonical codes own consecutive pieces of it (CanonicalCode.Pos).
    A table indexed by R bits read least-significant first has 2^R root
    slots; root slot j stands for the subtree of the code space whose R-bit
    prefix is Rev(j, R).  This module names the pieces the table builder
    fills: the code that owns a point, the longest code inside a subtree,
    and where each second-level table starts. */
module TableLayout {
  import opened Binary
  import opened BitReverse
  import opened CanonicalCode

  /** A packed table entry: `bits << 16 | value`, for value < 2^16. */
  function Entry(bits: int, value: int): int
  {
    bits * 0x10000 + value
  }

  /** The point of the code space where the share of root slot j begins:
      the slot index read backwards as an R-bit prefix. */
  function Point(j: nat, R: nat): nat
  {
    Scaled(Rev(j, R), R)
  }

  /** The first index at or after i whose code starts at or beyond x, or
      |ls| when there is none. */
  function FirstFrom(ls: seq<int>, x: nat, i: nat): (r: nat)
    requires i <= |ls|
    ensures i <= r <= |ls|
    decreases |ls| - i
  {
    if i == |ls| || Pos(ls, i) >= x then i else FirstFrom(ls, x, i + 1)
  }

  /** The index of the code whose share of the code space holds point p:
      the last code that starts at or before p. */
  function Owner(ls: seq<int>, p: nat): nat
  {
    var e := FirstFrom(ls, p + 1, 0);
    if e == 0 then 0 else e - 1
  }

  /** The length of the longest code inside subtree q (the R-bit prefix
      q): the code that holds the last point of the subtree. */
  function Longest(ls: seq<int>, R: nat, q: nat): int
  {
    var end := Scaled(q + 1, R);
    var o := Owner(ls, if end > 0 then end - 1 else 0);
    if o < |ls| then ls[o] else 0
  }

  /** The index bits of the second-level table of subtree q. */
  function SubBits(ls: seq<int>, R: nat, q: nat): nat
  {
    if Longest(ls, R, q) > R then Longest(ls, R, q) - R else 0
  }

  /** Where, counted from the table's start, the second-level table of
      subtree q begins: after the root table and the second-level tables
      of the subtrees q0 .. q - 1. */
  function SubStart(ls: seq<int>, R: nat, q0: nat, q: nat): nat
    decreases q
  {
    if q <= q0 then Pow2(R) else SubStart(ls, R, q0, q - 1) + Pow2(SubBits(ls, R, q - 1))
  }

  /** The first R-bit prefix that no code of length at most R takes:
      next_code[R] + bl_count[R]. */
  function FirstLong(cnt: seq<nat>, R: nat): nat
    requires 1 <= R < |cnt|
  {
    NextCode(cnt, R) + cnt[R]
  }

  /** The number of slots the builder uses for the counts cnt: the root
      table alone for at most one code, else the root table and one
      second-level table for each subtree past the short codes. */
  function TableSize(cnt: seq<nat>, R: nat): nat
    requires |cnt| == MaxLength + 1 && 1 <= R <= MaxLength
  {
    if Start(cnt, MaxLength + 1) <= 1 then Pow2(R)
    else SubStart(LengthsUpTo(cnt, MaxLength), R, FirstLong(cnt, R), Pow2(R))
  }

  /** x << n for the non-negative shifts of the builder, written as n
      doublings so that it stays linear. */
  function Shl(x: int, n: nat): int
  {
    if n == 0 then x else 2 * Shl(x, n - 1)
  }

  /** Kraft weight of the codes of lengths lo..b measured in slots of a
      table indexed by b bits: the sum of count[l] << (b - l). */
  function Weight(count: seq<int>, lo: nat, b: int): int
    requires b < |count|
    decreases b - lo + 1
  {
    if lo > b then 0 else Shl(count[lo], b - lo) + Weight(count, lo + 1, b)
  }

  /** Adding one bit to the table doubles the weight of the shorter codes
      and adds the codes of the new length. */
  lemma {:induction false} WeightStep(count: seq<int>, lo: nat, b: int, b2: int)
    requires b2 == b + 1 && lo <= b2 && b2 < |count|
    ensures Weight(count, lo, b2) == 2 * Weight(count, lo, b) + count[b2]
    decreases b - lo + 1
  {
    if lo <= b {
      WeightStep(count, lo + 1, b, b2);
      assert b2 - lo == b - lo + 1;
    }
  }

  // ---------------------------------------------------------------------
  // Searching the code space

  /** FirstFrom stops at k when every code from i to k - 1 starts before x
      and code k (if any) starts at or beyond it. */
  lemma {:induction false} FirstFromIs(ls: seq<int>, x: nat, i: nat, k: nat)
    requires i <= k <= |ls|
    requires k == 0 || Pos(ls, k - 1) < x
    requires k == |ls| || x <= Pos(ls, k)
    ensures FirstFrom(ls, x, i) == k
    decreases k - i
  {
    if i < k {
      PosMonotone(ls, i, k - 1);
      FirstFromIs(ls, x, i + 1, k);
    }
  }

  /** The codes before FirstFrom start before x, and the code at it (if
      any) starts at or beyond x. */
  lemma {:induction false} FirstFromBounds(ls: seq<int>, x: nat, i: nat, m: nat)
    requires i <= m <= |ls|
    ensures m < FirstFrom(ls, x, i) ==> Pos(ls, m) < x
    ensures FirstFrom(ls, x, i) < |ls| ==> x <= Pos(ls, FirstFrom(ls, x, i))
    decreases |ls| - i
  {
    if i < |ls| && Pos(ls, i) < x {
      if i < m {
        FirstFromBounds(ls, x, i + 1, m);
      } else {
        FirstFromBounds(ls, x, i + 1, i + 1);
      }
    }
  }

  /** Code k owns exactly the points from its start up to the next code's
      start. */
  lemma OwnerIs(ls: seq<int>, p: nat, k: nat)
    requires k < |ls| && Pos(ls, k) <= p < Pos(ls, k + 1)
    ensures Owner(ls, p) == k
  {
    FirstFromIs(ls, p + 1, 0, k + 1);
  }
  // ---------------------------------------------------------------------
  // The canonical codes in the code space

  /** The i-th length of the canonical order is the l whose block holds i.
      Stated for the lengths up to any top, so that no literal bound is
      unfolded. */
  lemma LengthAt(cnt: seq<nat>, top: nat, ls: seq<int>, i: nat) returns (l: nat)
    requires 1 <= top < |cnt| && ls == LengthsUpTo(cnt, top) && i < |ls|
    ensures l == ls[i] && 1 <= l <= top
    ensures Start(cnt, l) <= i < Start(cnt, l + 1)
  {
    LengthsUpToSize(cnt, top);
    l := StartRange(cnt, top, i);
    LengthsUpToShape(cnt, top, l, i);
  }

  /** The codes of length l are those of the block [Start(l), Start(l + 1)). */
  lemma LengthIs(cnt: seq<nat>, top: nat, ls: seq<int>, i: nat, l: int)
    requires 1 <= top < |cnt| && ls == LengthsUpTo(cnt, top) && 1 <= l <= top
    requires Start(cnt, l) <= i < Start(cnt, l + 1)
    ensures i < |ls| && ls[i] == l
  {
    LengthsUpToSize(cnt, top);
    StartGrows(cnt, l + 1, top + 1);
    var k := LengthAt(cnt, top, ls, i);
    if k < l {
      StartGrows(cnt, k + 1, l);
    } else if k > l {
      StartGrows(cnt, l + 1, k);
    }
  }

  /** The canonical order lists the lengths in increasing order. */
  lemma LengthsSorted(cnt: seq<nat>, top: nat, ls: seq<int>, i: nat, k: nat)
    requires 1 <= top < |cnt| && ls == LengthsUpTo(cnt, top) && i <= k < |ls|
    ensures ls[i] <= ls[k]
  {
    var a := LengthAt(cnt, top, ls, i);
    var b := LengthAt(cnt, top, ls, k);
    if a > b {
      StartGrows(cnt, b + 1, a);
    }
  }

  /** ls lists, in canonical order, the code lengths 1..top counted by cnt,
      and the codes fit in the code space (the code is not
      over-subscribed).  The builder uses top == 15; keeping it a parameter
      keeps the literal bound out of the proofs. */
  predicate Laid(cnt: seq<nat>, top: nat, ls: seq<int>)
  {
    1 <= top <= MaxLength && top < |cnt| && ls == LengthsUpTo(cnt, top)
    && Pos(ls, |ls|) <= CodeSpace
  }

  /** Laid, with ls tied to LengthsUpTo one code at a time (through
      CodeLength), so that a proof about a loop over the codes does not see
      the recursive definition of the whole list; LaidIs recovers Laid. */
  predicate LaidCodes(cnt: seq<nat>, top: nat, ls: seq<int>)
  {
    1 <= top <= MaxLength && top < |cnt| && |ls| == |LengthsUpTo(cnt, top)|
    && (forall k :: 0 <= k < |ls| ==> CodeLength(ls, k) == LengthsUpTo(cnt, top)[k])
    && Pos(ls, |ls|) <= CodeSpace
  }

  /** The length of code k. */
  function CodeLength(ls: seq<int>, k: nat): int
    requires k < |ls|
  {
    ls[k]
  }

  lemma LaidIs(cnt: seq<nat>, top: nat, ls: seq<int>)
    requires LaidCodes(cnt, top, ls)
    ensures Laid(cnt, top, ls)
  {
    forall k | 0 <= k < |ls|
      ensures ls[k] == LengthsUpTo(cnt, top)[k]
    {
      assert CodeLength(ls, k) == ls[k];
    }
  }

  /** The canonical lengths of a code whose Kraft sum is at most 2^15 are
      laid out in the code space. */
  lemma LaidOut(cnt: seq<nat>)
    requires |cnt| == MaxLength + 1 && KraftSum(cnt) <= CodeSpace
    ensures Laid(cnt, MaxLength, LengthsUpTo(cnt, MaxLength))
  {
    PosEnd(cnt);
  }

  /** c has l bits exactly when its share starts inside the code space. */
  lemma ScaledFits(c: nat, l: int)
    requires 1 <= l <= MaxLength
    ensures c < Pow2(l) <==> Scaled(c, l) < CodeSpace
  {
    CodeSpaceIs();
    ScaledIsProduct(c, l);
    Pow2Add(l, MaxLength - l);
    ScaleInterval(c, 0, Pow2(l), Pow2(MaxLength - l));
  }

  /** The i-th code of a laid-out code: a value c of ls[i] bits whose share
      of the code space is [Scaled(c, ls[i]), Scaled(c + 1, ls[i])). */
  lemma CodeAt(cnt: seq<nat>, top: nat, ls: seq<int>, i: nat) returns (c: nat)
    requires Laid(cnt, top, ls) && i < |ls|
    ensures 1 <= ls[i] <= MaxLength && c < Pow2(ls[i])
    ensures Pos(ls, i) == Scaled(c, ls[i]) && Pos(ls, i + 1) == Scaled(c + 1, ls[i])
  {
    var l := LengthAt(cnt, top, ls, i);
    var k := i - Start(cnt, l);
    c := NextCode(cnt, l) + k;
    PosAt(cnt, top, i, l, k, c);
    ScaledSucc(c, l);
    PosMonotone(ls, i + 1, |ls|);
    ScaledFits(c, l);
    ScaledLess(c, c + 1, l);
  }

  /** The key of a code read backwards over 15 bits is its value read
      backwards over its own length. */
  lemma RevScaled(c: nat, l: int)
    requires 1 <= l <= MaxLength && c < Pow2(l)
    ensures Rev(Scaled(c, l), MaxLength) == Rev(c, l)
  {
    var m: nat := MaxLength - l;
    var x := Scaled(c, l);
    assert x == 0 + Pow2(m) * c by {
      ScaledIsProduct(c, l);
    }
    RevSplit(0, c, m, l);
    assert m + l == MaxLength;
    RevZero(m);
  }

  /** A code followed by another is not the last value of its length. */
  lemma CodeBefore(cnt: seq<nat>, top: nat, ls: seq<int>, i: nat) returns (c: nat)
    requires Laid(cnt, top, ls) && i + 1 < |ls|
    ensures 1 <= ls[i] <= MaxLength && c + 1 < Pow2(ls[i])
    ensures Pos(ls, i) == Scaled(c, ls[i]) && Pos(ls, i + 1) == Scaled(c + 1, ls[i])
  {
    c := CodeAt(cnt, top, ls, i);
    var d := CodeAt(cnt, top, ls, i + 1);
    ScaledFits(d, ls[i + 1]);
    ScaledFits(c + 1, ls[i]);
  }

  /** When c is not the last l-bit value, the successor of its key in
      bit-reversed order is the key of c + 1. */
  lemma KeySuccessor(c: nat, l: nat, key: nat, next: nat)
    requires c + 1 < Pow2(l) && key == Rev(c, l) && next < Pow2(l)
    requires key < Pow2(l) - 1 ==> Rev(next, l) == Rev(key, l) + 1
    ensures next == Rev(c + 1, l)
  {
    RevNotAllOnes(c, l);
    RevRev(c, l);
    RevRev(next, l);
  }

  /** GetNextKey's contract read in the code space: the key that follows
      the key of code i is the key of code i + 1. */
  lemma KeyAdvance(cnt: seq<nat>, top: nat, ls: seq<int>, i: nat, key: nat, next: nat)
    requires Laid(cnt, top, ls) && i + 1 < |ls| && 1 <= ls[i]
    requires key == Rev(Pos(ls, i), MaxLength) && next < Pow2(ls[i])
    requires key < Pow2(ls[i]) - 1 ==> Rev(next, ls[i]) == Rev(key, ls[i]) + 1
    ensures next == Rev(Pos(ls, i + 1), MaxLength)
  {
    var l := ls[i];
    var c := CodeBefore(cnt, top, ls, i);
    assert key == Rev(c, l) by {
      RevScaled(c, l);
    }
    assert next == Rev(c + 1, l) by {
      KeySuccessor(c, l, key, next);
    }
    RevScaled(c + 1, l);
  }

  /** The key of code i has ls[i] bits. */
  lemma KeyBound(cnt: seq<nat>, top: nat, ls: seq<int>, i: nat)
    requires Laid(cnt, top, ls) && i < |ls|
    ensures 1 <= ls[i] <= MaxLength && Rev(Pos(ls, i), MaxLength) < Pow2(ls[i])
  {
    var c := CodeAt(cnt, top, ls, i);
    RevScaled(c, ls[i]);
    RevBound(c, ls[i]);
  }

  // ---------------------------------------------------------------------
  // Root slots of the codes of length at most R

  /** Root slot j of an R-bit table belongs to the code c of length l <= R
      exactly when its share of the code space lies in that code's share. */
  lemma SlotOwned(j: nat, R: nat, c: nat, l: nat)
    requires 1 <= l <= R <= MaxLength && c < Pow2(l) && j < Pow2(R)
    ensures j % Pow2(l) == Rev(c, l) <==> Scaled(c, l) <= Point(j, R) < Scaled(c + 1, l)
  {
    var y, a := Rev(j, R), Pow2(R - l);
    MulNonneg(c, a);
    var lo: nat, hi: nat := c * a, (c + 1) * a;
    RevPrefix(j, c, l, R);
    DivInterval(y, a, c);
    ScaledShift(c, l, R);
    ScaledShift(c + 1, l, R);
    ScaledLess(lo, y, R);
    ScaledLess(y, hi, R);
  }

  /** d is a non-negative multiple of step. */
  predicate OnStride(d: int, step: int)
    requires step > 0
    decreases d
  {
    d == 0 || (d >= step && OnStride(d - step, step))
  }

  /** 2^b is a multiple of 2^a for a <= b. */
  lemma Pow2OnStride(a: nat, b: nat)
    requires a <= b
    ensures OnStride(Pow2(b), Pow2(a))
  {
    Pow2Divides(a, b);
    OnStrideMod(Pow2(b), Pow2(a));
  }

  lemma {:induction false} OnStrideMod(d: int, step: int)
    requires step > 0
    ensures OnStride(d, step) <==> d >= 0 && d % step == 0
  {
    if d >= step {
      OnStrideMod(d - step, step);
      DivModBounds(d - step, step);
      DivUnique(d, step, (d - step) / step + 1, (d - step) % step);
    } else if 0 < d {
      DivUnique(d, step, 0, d);
    }
  }

  /** t with item written at every index x in [from, to) that is a
      multiple of step above base: the effect of replicating item with
      stride step. */
  ghost function Strided(t: seq<int>, base: int, from: int, to: int, step: int, item: int): (r: seq<int>)
    requires step > 0
    ensures |r| == |t|
  {
    seq(|t|, x requires 0 <= x < |t| => if from <= x < to && OnStride(x - base, step) then item else t[x])
  }

  /** t is t0 with item written at from, from + step, ... below to. */
  predicate Replicated(t: seq<int>, t0: seq<int>, from: int, to: int, step: int, item: int)
    requires step > 0
  {
    |t| == |t0| &&
    forall x :: 0 <= x < |t| ==> t[x] == if from <= x < to && OnStride(x - from, step) then item else t0[x]
  }

  lemma StridedAll(t0: seq<int>, t: seq<int>, from: int, to: int, step: int, item: int)
    requires step > 0 && t == Strided(t0, from, from, to, step, item)
    ensures Replicated(t, t0, from, to, step, item)
  {
  }

  /** The slots ReplicateValue writes from base + key with stride p over T
      slots (T a multiple of p, key < p) are the x in [base, base + T) with
      (x - base) % p == key. */
  lemma StrideSlot(x: int, base: int, key: nat, p: nat, T: nat)
    requires 0 <= key < p && 0 < T && T % p == 0
    ensures (base + key <= x < base + key + T && (x - (base + key)) % p == 0)
        <==> (base <= x < base + T && (x - base) % p == key)
  {
    var t := T / p;
    assert T == p * t;
    if base + key <= x && (x - (base + key)) % p == 0 {
      var m := (x - (base + key)) / p;
      assert x - base == p * m + key;
      DivUnique(x - base, p, m, key);
      if x < base + key + T {
        if m >= t {
          MulLe(p, t, m);
        }
        MulLe(p, m + 1, t);
      }
    }
    if base <= x && (x - base) % p == key {
      var m := (x - base) / p;
      assert x - (base + key) == p * m + 0;
      DivUnique(x - (base + key), p, m, 0);
    }
  }

  /** The entry of the code owning point p. */
  function ShortEntry(ls: seq<int>, order: seq<int>, p: nat): int
  {
    var k := Owner(ls, p);
    if k < |ls| && k < |order| then Entry(ls[k], order[k]) else 0
  }

  /** The table t after the first i codes (all of length at most R) are
      placed in the root table at off: a root slot whose share starts
      before code i holds the entry of the code owning that share, and
      every other slot is as in t0. */
  predicate RootFilled(t: seq<int>, t0: seq<int>, off: nat, R: nat, ls: seq<int>, order: seq<int>, i: nat)
    requires |t| == |t0| && i <= |ls| && off + Pow2(R) <= |t|
  {
    (forall x {:trigger t[x]} :: 0 <= x < |t| && !(off <= x < off + Pow2(R)) ==> t[x] == t0[x])
    && forall j :: 0 <= j < Pow2(R) ==> t[off + j] == RootValue(t0, off, R, ls, order, i, j)
  }

  /** Root slot j holds the entry of the code that owns its share if that
      code is among the first i, and its old value otherwise. */
  function RootValue(t0: seq<int>, off: nat, R: nat, ls: seq<int>, order: seq<int>, i: nat, j: nat): int
    requires i <= |ls| && off + Pow2(R) <= |t0| && j < Pow2(R)
  {
    if Point(j, R) < Pos(ls, i) then ShortEntry(ls, order, Point(j, R)) else t0[off + j]
  }



  /** The slots that ReplicateValue writes from the key of the code c of
      length l <= R, with stride 2^l over 2^R slots, are the root slots
      whose share lies in the share of c. */
  lemma SlotsOfCode(c: nat, l: nat, key: nat, off: int, R: nat, x: int, j: int)
    requires 1 <= l <= R <= MaxLength && c < Pow2(l) && key == Rev(c, l) && j == x - off
    ensures (off + key <= x < off + key + Pow2(R) && OnStride(x - (off + key), Pow2(l)))
        <==> (0 <= j < Pow2(R) && Scaled(c, l) <= Point(j, R) < Scaled(c + 1, l))
  {
    var p, T, d := Pow2(l), Pow2(R), x - (off + key);
    OnStrideMod(d, p);
    RevBound(c, l);
    Pow2Divides(l, R);
    StrideSlot(x, off, key, p, T);
    assert (off + key <= x < off + key + T && OnStride(d, p)) <==> (0 <= j < T && j % p == key);
    if 0 <= j < T {
      SlotOwned(j, R, c, l);
    }
  }


  /** The slots that ReplicateValue writes for code i of length at most R
      from its key are the root slots whose share lies in the share of
      code i. */
  lemma RootHit(cnt: seq<nat>, top: nat, ls: seq<int>, i: nat, key: nat, off: int, R: nat, x: int, j: int)
    requires Laid(cnt, top, ls)
    requires i < |ls| && 1 <= ls[i] <= R <= MaxLength
    requires key == Rev(Pos(ls, i), MaxLength) && j == x - off
    ensures (off + key <= x < off + key + Pow2(R) && OnStride(x - (off + key), Pow2(ls[i])))
        <==> (0 <= j < Pow2(R) && Pos(ls, i) <= Point(j, R) < Pos(ls, i + 1))
  {
    var l := ls[i];
    var c := CodeAt(cnt, top, ls, i);
    RevScaled(c, l);
    SlotsOfCode(c, l, key, off, R, x, j);
  }



  /** Placing code i of length at most R, as the root loop of the builder
      does, extends RootFilled by that code. */
  lemma RootStep(t1: seq<int>, t2: seq<int>, t0: seq<int>, off: nat, R: nat,
                 cnt: seq<nat>, top: nat, ls: seq<int>, order: seq<int>, i: nat, key: nat, step: nat, item: int,
                 base: int, size: int)
    requires Laid(cnt, top, ls)
    requires i < |ls| <= |order| && 1 <= ls[i] <= R <= MaxLength
    requires key == Rev(Pos(ls, i), MaxLength)
    requires |t1| == |t0| == |t2| && off + Pow2(R) <= |t1|
    requires RootFilled(t1, t0, off, R, ls, order, i)
    requires step == Pow2(ls[i]) && item == Entry(ls[i], order[i])
    requires Replicated(t2, t1, base, base + size, step, item) && base == off + key && size == Pow2(R)
    ensures RootFilled(t2, t0, off, R, ls, order, i + 1)
  {
    RootStepOutside(t1, t2, t0, off, R, cnt, top, ls, i, key, step, item, base, base + size);
    RootStepInside(t1, t2, t0, off, R, cnt, top, ls, order, i, i + 1, key, step, item, base, base + size);
  }

  /** A code of length at most R writes nothing outside the root table. */
  lemma RootStepOutside(t1: seq<int>, t2: seq<int>, t0: seq<int>, off: nat, R: nat,
                        cnt: seq<nat>, top: nat, ls: seq<int>, i: nat, key: nat, step: nat, item: int,
                        base: int, to: int)
    requires Laid(cnt, top, ls)
    requires i < |ls| && 1 <= ls[i] <= R <= MaxLength
    requires key == Rev(Pos(ls, i), MaxLength) && step == Pow2(ls[i])
    requires |t1| == |t0| == |t2|
    requires forall x :: 0 <= x < |t1| && !(off <= x < off + Pow2(R)) ==> t1[x] == t0[x]
    requires Replicated(t2, t1, base, to, step, item) && base == off + key && to == base + Pow2(R)
    ensures forall x :: 0 <= x < |t2| && !(off <= x < off + Pow2(R)) ==> t2[x] == t0[x]
  {
    forall x | 0 <= x < |t2| && !(off <= x < off + Pow2(R))
      ensures t2[x] == t0[x]
    {
      RootHit(cnt, top, ls, i, key, off, R, x, x - off);
    }
  }

  /** Code i fills the root slots of its share of the code space. */
  lemma RootStepInside(t1: seq<int>, t2: seq<int>, t0: seq<int>, off: nat, R: nat,
                       cnt: seq<nat>, top: nat, ls: seq<int>, order: seq<int>, i: nat, i1: nat, key: nat,
                       step: nat, item: int, base: int, to: int)
    requires Laid(cnt, top, ls)
    requires i < |ls| <= |order| && 1 <= ls[i] <= R <= MaxLength && i1 == i + 1
    requires key == Rev(Pos(ls, i), MaxLength)
    requires |t1| == |t0| == |t2| && off + Pow2(R) <= |t1|
    requires forall j :: 0 <= j < Pow2(R) ==> t1[off + j] == RootValue(t0, off, R, ls, order, i, j)
    requires step == Pow2(ls[i]) && item == Entry(ls[i], order[i])
    requires Replicated(t2, t1, base, to, step, item) && base == off + key && to == base + Pow2(R)
    ensures forall j :: 0 <= j < Pow2(R) ==> t2[off + j] == RootValue(t0, off, R, ls, order, i1, j)
  {
    forall j | 0 <= j < Pow2(R)
      ensures t2[off + j] == RootValue(t0, off, R, ls, order, i1, j)
    {
      RootStepAt(t0, t1, t2, cnt, top, ls, order, i, i1, key, off, R, off + j, j, step, item, base, to);
    }
  }

  lemma RootStepAt(t0: seq<int>, t1: seq<int>, t2: seq<int>, cnt: seq<nat>, top: nat, ls: seq<int>, order: seq<int>,
                   i: nat, i1: nat, key: nat, off: nat, R: nat, x: int, j: nat, step: nat, item: int,
                   base: int, to: int)
    requires Laid(cnt, top, ls)
    requires i < |ls| <= |order| && 1 <= ls[i] <= R <= MaxLength && i1 == i + 1
    requires key == Rev(Pos(ls, i), MaxLength) && x == off + j && j < Pow2(R)
    requires |t1| == |t0| == |t2| && off + Pow2(R) <= |t1|
    requires t1[x] == RootValue(t0, off, R, ls, order, i, j)
    requires step == Pow2(ls[i]) && item == Entry(ls[i], order[i]) && base == off + key && to == base + Pow2(R)
    requires t2[x] == if base <= x < to && OnStride(x - base, step) then item else t1[x]
    ensures t2[x] == RootValue(t0, off, R, ls, order, i1, j)
  {
    RootHit(cnt, top, ls, i, key, off, R, x, j);
    if Pos(ls, i) <= Point(j, R) < Pos(ls, i + 1) {
      OwnerIs(ls, Point(j, R), i);
    }
  }
}
