/** The second pass of buildHuffmanTable: the codes longer than rootBits.

    The codes are visited in canonical order.  A code that starts a new
    R-bit subtree of the code space opens a second-level table for that
    subtree right after the tables in use, sized by nextTableBitSize, and
    points the subtree's root slot at it; every long code is then
    replicated over its subtree's table.  Cursors is the state the loop
    keeps between codes. */
module TableBuilder {
  import opened Binary
  import opened BitReverse
  import opened CanonicalCode
  import opened TableLayout
  import opened SubTables
  import opened Huffman
  import opened SubEntries

  /** The builder's variables before the long code i: qn is the first
      subtree without a table.  Before the first long code nothing is open
      (low is -1 and the table in use is the root table); afterwards the
      table in use is that of subtree qn - 1, which holds code i's start.
      total counts the slots in use and cur is where the table in use
      begins. */
  ghost predicate Cursors(cnt: seq<nat>, ls: seq<int>, R: nat, i: nat, qn: nat, key: int, low: int,
                          bits: int, size: int, total: int, cur: int, off: int)
    requires 1 <= R < |cnt|
  {
    var fl, s := FirstLong(cnt, R), Start(cnt, R + 1);
    s <= i <= |ls| && fl <= qn <= Pow2(R) && Pos(ls, i) <= Scaled(qn, R) && 0 <= key
    && (i < |ls| ==> key == Rev(Pos(ls, i), MaxLength))
    && (i == s ==> qn == fl && low == -1 && size == Pow2(R))
    && (i > s ==> fl < qn && low == Rev(qn - 1, R) && bits == SubBits(ls, R, qn - 1) && size == Pow2(bits)
                  && Scaled(qn - 1, R) <= Pos(ls, i))
    && total == SubStart(ls, R, fl, qn) && cur == off + total - size
  }

  /** A code of a complete code starts inside the code space. */
  lemma PosBelowEnd(cnt: seq<nat>, top: nat, ls: seq<int>, i: nat)
    requires LaidCodes(cnt, top, ls) && Complete(ls) && i < |ls|
    ensures Pos(ls, i) < CodeSpace
  {
    LaidIs(cnt, top, ls);
    var c := CodeAt(cnt, top, ls, i);
    ScaledLess(c, c + 1, ls[i]);
    PosMonotone(ls, i + 1, |ls|);
  }

  /** The test `(key & mask) !== low` opens a table exactly when code i
      starts subtree qn; otherwise code i lies inside subtree qn - 1. */
  lemma OpenTest(cnt: seq<nat>, top: nat, ls: seq<int>, R: nat, i: nat, qn: nat, key: int, low: int,
                 bits: int, size: int, total: int, cur: int, off: int)
    requires LaidCodes(cnt, top, ls) && Complete(ls) && 1 <= R <= top && i < |ls|
    requires Cursors(cnt, ls, R, i, qn, key, low, bits, size, total, cur, off)
    ensures (Low(key, R) != low) <==> Pos(ls, i) == Scaled(qn, R)
    ensures Pos(ls, i) == Scaled(qn, R) ==> qn < Pow2(R) && Low(key, R) == Rev(qn, R)
    ensures Pos(ls, i) == Scaled(qn, R) ==> Pos(ls, i) < Scaled(qn + 1, R)
    ensures Pos(ls, i) != Scaled(qn, R) ==> i > Start(cnt, R + 1) && Scaled(qn - 1, R) <= Pos(ls, i) < Scaled(qn, R)
  {
    var p := Pos(ls, i);
    PosBelowEnd(cnt, top, ls, i);
    ScaledLess(qn, qn + 1, R);
    if i == Start(cnt, R + 1) {
      FirstLongStart(cnt, top, ls, R);
      NewSubtree(p, qn, R, low, true);
    } else {
      NewSubtree(p, qn, R, low, false);
    }
  }

  /** nextTableBitSize, called at the first code i of subtree qn, returns
      the index bits of that subtree's table. */
  lemma OpenBits(cnt: seq<nat>, top: nat, ls: seq<int>, count: seq<int>, i: nat, len: nat, R: nat, qn: nat, r: int)
    requires LaidCodes(cnt, top, ls) && Complete(ls) && top == MaxLength && |count| == |cnt|
    requires 1 <= R < len <= top
    requires Start(cnt, len) <= i < Start(cnt, len + 1) && count[len] == Start(cnt, len + 1) - i
    requires forall l :: len < l <= top ==> count[l] == cnt[l]
    requires qn < Pow2(R) && i < |ls| && Pos(ls, i) == Scaled(qn, R)
    requires len - R <= r <= MaxLength - R
    requires r + R < MaxLength ==> Pow2(r) <= Weight(count, len, r + R)
    requires forall b :: len <= b < r + R ==> Weight(count, len, b) < Pow2(b - R)
    ensures r == SubBits(ls, R, qn) && r + R == Longest(ls, R, qn)
  {
    var L := SubtreeSearch(cnt, top, ls, count, i, len, R, qn);
    SubBitsFromWeights(count, len, top, R, L, r);
  }

  /** The facts about long code i of length len that hold throughout one
      turn of the inner loop. */
  ghost predicate LongCode(cnt: seq<nat>, top: nat, ls: seq<int>, R: nat, len: nat, i: nat)
  {
    LaidCodes(cnt, top, ls) && Complete(ls) && top == MaxLength && 1 <= R < len <= top
    && Start(cnt, len) <= i < Start(cnt, len + 1) && i < |ls|
  }

  /** Long code i lies in subtree q, whose table is the table in use: it
      begins at cur, has size = 2^bits slots and ends the total slots in
      use, and low is the root slot of q. */
  ghost predicate InSubtree(cnt: seq<nat>, ls: seq<int>, R: nat, i: nat, q: nat, key: int, low: int,
                            bits: int, size: int, total: int, cur: int, off: int)
    requires 1 <= R < |cnt|
  {
    FirstLong(cnt, R) <= q < Pow2(R) && i < |ls| && Scaled(q, R) <= Pos(ls, i) < Scaled(q + 1, R)
    && key == Rev(Pos(ls, i), MaxLength) && low == Rev(q, R)
    && bits == SubBits(ls, R, q) && size == Pow2(bits)
    && total == SubStart(ls, R, FirstLong(cnt, R), q + 1) && cur == off + total - size
  }

  /** The key of a code of length len has len bits. */
  lemma LongKey(cnt: seq<nat>, top: nat, ls: seq<int>, R: nat, len: nat, i: nat)
    requires LongCode(cnt, top, ls, R, len, i)
    ensures Rev(Pos(ls, i), MaxLength) < Pow2(len)
  {
    LaidIs(cnt, top, ls);
    LengthIs(cnt, top, ls, i, len);
    KeyBound(cnt, top, ls, i);
  }

  /** The writes of long code i into the table of its subtree q: the stride
      2^(len - R) divides the table size, the start slot key >> R lies below
      the stride, and the table lies past the root table and inside the
      slots in use. */
  lemma LongSlots(cnt: seq<nat>, top: nat, ls: seq<int>, R: nat, len: nat, i: nat, q: nat, key: int, low: int,
                  bits: int, size: int, total: int, cur: int, off: int, step: int)
    requires LongCode(cnt, top, ls, R, len, i) && step == Pow2(len - R)
    requires InSubtree(cnt, ls, R, i, q, key, low, bits, size, total, cur, off)
    ensures len - R <= bits && 0 <= key < Pow2(len) && Shr(key, R) < step
    ensures OnStride(size, step) && step <= size
    ensures off + Pow2(R) <= cur && cur + size == off + total
  {
    var o := LastCode(ls, R, q, i);
    assert key < Pow2(len) && len <= ls[o] by {
      LaidIs(cnt, top, ls);
      LengthIs(cnt, top, ls, i, len);
      KeyBound(cnt, top, ls, i);
      LengthsSorted(cnt, top, ls, i, o);
    }
    SubSlots(key, R, len, bits);
    SubStartFloor(ls, R, FirstLong(cnt, R), q);
  }

  /** After long code i is placed in the table of subtree q and the key has
      stepped, the cursors hold for code i + 1. */
  lemma LongAdvance(cnt: seq<nat>, top: nat, ls: seq<int>, R: nat, len: nat, i: nat, i1: nat, q: nat, qn: nat,
                    key: int, next: int, low: int, bits: int, size: int, total: int, cur: int, off: int)
    requires LongCode(cnt, top, ls, R, len, i) && i1 == i + 1 && qn == q + 1
    requires InSubtree(cnt, ls, R, i, q, key, low, bits, size, total, cur, off)
    requires 0 <= next < Pow2(len) && (key < Pow2(len) - 1 ==> Rev(next, len) == Rev(key, len) + 1)
    ensures Cursors(cnt, ls, R, i1, qn, next, low, bits, size, total, cur, off)
  {
    LaidIs(cnt, top, ls);
    LengthIs(cnt, top, ls, i, len);
    StartGrows(cnt, R + 1, len);
    CodeInSubtree(cnt, top, ls, i, q, R);
    PosMonotone(ls, i, i + 1);
    if i + 1 < |ls| {
      KeyAdvance(cnt, top, ls, i, key, next);
    }
  }

  /** The values the branch `(key & mask) !== low` computes when code i
      starts subtree qn: the new table begins where the slots in use end,
      nextTableBitSize gives its index bits, and the pointer entry of root
      slot low is the one the layout prescribes. */
  lemma Opened(cnt: seq<nat>, ls: seq<int>, R: nat, i: nat, qn: nat, key: int, low: int, bits: int, size: int,
               total0: int, total: int, size0: int, cur0: int, cur: int, off: int)
    requires 1 <= R <= MaxLength && |cnt| == MaxLength + 1
    requires qn < Pow2(R) && i < |ls| && Pos(ls, i) == Scaled(qn, R) && key == Rev(Pos(ls, i), MaxLength)
    requires Low(key, R) == Rev(qn, R) && low == Low(key, R)
    requires FirstLong(cnt, R) <= qn && total0 == SubStart(ls, R, FirstLong(cnt, R), qn) && cur0 == off + total0 - size0
    requires bits == SubBits(ls, R, qn) && bits + R == Longest(ls, R, qn)
    requires size == Pow2(bits) && total == total0 + size && cur == cur0 + size0
    ensures InSubtree(cnt, ls, R, i, qn, key, low, bits, size, total, cur, off)
    ensures 0 <= low < Pow2(R) && total0 <= total <= SubStart(ls, R, FirstLong(cnt, R), Pow2(R))
    ensures Entry(bits + R, cur - off - low) == PointerEntry(ls, R, FirstLong(cnt, R), qn, low)
  {
    RevBound(qn, R);
    ScaledLess(qn, qn + 1, R);
    OpenedSizes(ls, R, FirstLong(cnt, R), qn, bits, size, total0, total, size0, cur0, cur, off);
  }

  /** The sizes the branch computes: the new table begins at SubStart(qn)
      and the slots in use end at SubStart(qn + 1). */
  lemma OpenedSizes(ls: seq<int>, R: nat, fl: nat, qn: nat, bits: int, size: int,
                    total0: int, total: int, size0: int, cur0: int, cur: int, off: int)
    requires fl <= qn < Pow2(R) && total0 == SubStart(ls, R, fl, qn) && cur0 == off + total0 - size0
    requires bits == SubBits(ls, R, qn) && size == Pow2(bits) && total == total0 + size && cur == cur0 + size0
    ensures total == SubStart(ls, R, fl, qn + 1) && cur - off == total0
    ensures total0 <= total <= SubStart(ls, R, fl, Pow2(R))
  {
    SubStartGrows(ls, R, fl, qn + 1, Pow2(R));
  }

  /** The branch `(key & mask) !== low` of buildHuffmanTable: the table of
      subtree qn opens right after the slots in use, and the root slot
      low = key & mask points at it. */
  method OpenSubTable(table: array<int>, off: nat, R: nat, count: array<int>, len: nat, key: nat,
                      cur0: int, size0: int, total0: int,
                      ghost i: nat, ghost qn: nat, ghost qn1: nat, ghost cnt: seq<nat>, ghost top: nat,
                      ghost ls: seq<int>, ghost t1: seq<int>, ghost order: seq<int>)
    returns (cur: int, bits: int, size: int, total: int, low: int)
    requires LongCode(cnt, top, ls, R, len, i) && |cnt| == MaxLength + 1 && count.Length == |cnt|
    requires count[len] == Start(cnt, len + 1) - i && forall l :: len < l <= top ==> count[l] == cnt[l]
    requires qn < Pow2(R) && Pos(ls, i) == Scaled(qn, R) && key == Rev(Pos(ls, i), MaxLength)
    requires Low(key, R) == Rev(qn, R) && qn1 == qn + 1
    requires FirstLong(cnt, R) <= qn && total0 == SubStart(ls, R, FirstLong(cnt, R), qn) && cur0 == off + total0 - size0
    requires off + SubStart(ls, R, FirstLong(cnt, R), Pow2(R)) <= table.Length
    requires |t1| == table.Length && SubFrame(table[..], t1, off, R, ls, FirstLong(cnt, R), qn, total0)
    requires SubFilled(table[..], t1, off, R, ls, order, FirstLong(cnt, R), qn, i)
    requires table != count
    modifies table
    ensures InSubtree(cnt, ls, R, i, qn, key, low, bits, size, total, cur, off)
    ensures SubFrame(table[..], t1, off, R, ls, FirstLong(cnt, R), qn1, total)
    ensures SubFilled(table[..], t1, off, R, ls, order, FirstLong(cnt, R), qn1, i)
  {
    cur := cur0 + size0;  // currentOffset += tableSize
    bits := NextTableBitSize(count, len, R);
    size := Pow2(bits);  // 1 << tableBits
    total := total0 + size;
    low := Low(key, R);  // key & mask
    OpenBits(cnt, top, ls, count[..], i, len, R, qn, bits);
    Opened(cnt, ls, R, i, qn, key, low, bits, size, total0, total, size0, cur0, cur, off);
    ghost var t := table[..];
    var item := Entry(bits + R, cur - off - low);
    table[off + low] := item;
    SubFrameOpen(table[..], t, t1, off, R, ls, FirstLong(cnt, R), qn, qn1, total0, total, low, item);
    SubFilledOpen(table[..], t, t1, off, R, ls, order, FirstLong(cnt, R), qn, qn1, i, total0, low, item);
  }

  /** When code i does not start subtree qn, it lies in subtree qn - 1,
      whose table stays the table in use. */
  lemma StayInSubtree(cnt: seq<nat>, top: nat, ls: seq<int>, R: nat, i: nat, q: nat, qn: nat, key: int,
                      low: int, bits: int, size: int, total: int, cur: int, off: int)
    requires LaidCodes(cnt, top, ls) && Complete(ls) && 1 <= R <= top && i < |ls| && q == qn - 1
    requires Cursors(cnt, ls, R, i, qn, key, low, bits, size, total, cur, off) && Low(key, R) == low
    ensures InSubtree(cnt, ls, R, i, q, key, low, bits, size, total, cur, off)
  {
    PosBelowEnd(cnt, top, ls, i);
    NewSubtree(Pos(ls, i), qn, R, low, false);
  }

  /** The branch `(key & mask) !== low` taken or not: afterwards code i
      lies in subtree q, whose table is the table in use. */
  method EnterSubtree(table: array<int>, off: nat, R: nat, count: array<int>, len: nat, key: nat,
                      low0: int, bits0: int, size0: int, total0: int, cur0: int,
                      ghost i: nat, ghost qn: nat, ghost cnt: seq<nat>, ghost top: nat, ghost ls: seq<int>,
                      ghost t1: seq<int>, ghost order: seq<int>)
    returns (low: int, bits: int, size: int, total: int, cur: int, ghost q: nat, ghost qn1: nat)
    requires LongCode(cnt, top, ls, R, len, i) && |cnt| == MaxLength + 1 && count.Length == |cnt|
    requires count[len] == Start(cnt, len + 1) - i && forall l :: len < l <= top ==> count[l] == cnt[l]
    requires Cursors(cnt, ls, R, i, qn, key, low0, bits0, size0, total0, cur0, off)
    requires off + SubStart(ls, R, FirstLong(cnt, R), Pow2(R)) <= table.Length
    requires |t1| == table.Length && SubFrame(table[..], t1, off, R, ls, FirstLong(cnt, R), qn, total0)
    requires SubFilled(table[..], t1, off, R, ls, order, FirstLong(cnt, R), qn, i)
    requires table != count
    modifies table
    ensures InSubtree(cnt, ls, R, i, q, key, low, bits, size, total, cur, off) && qn1 == q + 1
    ensures SubFrame(table[..], t1, off, R, ls, FirstLong(cnt, R), qn1, total)
    ensures SubFilled(table[..], t1, off, R, ls, order, FirstLong(cnt, R), qn1, i)
  {
    OpenTest(cnt, top, ls, R, i, qn, key, low0, bits0, size0, total0, cur0, off);
    if Low(key, R) != low0 {  // (key & mask) !== low
      q, qn1 := qn, qn + 1;
      cur, bits, size, total, low := OpenSubTable(table, off, R, count, len, key, cur0, size0, total0,
                                                  i, q, qn1, cnt, top, ls, t1, order);
    } else {
      q, qn1 := qn - 1, qn;
      StayInSubtree(cnt, top, ls, R, i, q, qn1, key, low0, bits0, size0, total0, cur0, off);
      low, bits, size, total, cur := low0, bits0, size0, total0, cur0;
    }
  }

  /** Replicates long code `symbol` over the table of its subtree. */
  method PlaceInSubtree(table: array<int>, off: nat, R: nat, sorted: array<int>, len: nat, step: int,
                        symbol: nat, ghost symbol1: nat, key: nat, low: int, bits: int, size: int, total: int, cur: int,
                        ghost q: nat, ghost qn: nat, ghost cnt: seq<nat>, ghost top: nat, ghost ls: seq<int>,
                        ghost t1: seq<int>, ghost order: seq<int>)
    requires LongCode(cnt, top, ls, R, len, symbol) && |ls| <= sorted.Length && step == Pow2(len - R)
    requires InSubtree(cnt, ls, R, symbol, q, key, low, bits, size, total, cur, off) && qn == q + 1
    requires |t1| == table.Length && SubFrame(table[..], t1, off, R, ls, FirstLong(cnt, R), qn, total)
    requires symbol < |order| && sorted[symbol] == order[symbol] && symbol1 == symbol + 1
    requires SubFilled(table[..], t1, off, R, ls, order, FirstLong(cnt, R), qn, symbol)
    requires table != sorted
    modifies table
    ensures SubFrame(table[..], t1, off, R, ls, FirstLong(cnt, R), qn, total)
    ensures SubFilled(table[..], t1, off, R, ls, order, FirstLong(cnt, R), qn, symbol1)
  {
    LongSlots(cnt, top, ls, R, len, symbol, q, key, low, bits, size, total, cur, off, step);
    ghost var t := table[..];
    var item := Entry(len - R, sorted[symbol]);  // (len - rootBits) << 16 | sorted[symbol]
    var k := Shr(key, R);  // key >> rootBits
    var at := cur + k;
    ReplicateValue(table, at, step, size, item);
    ReplicatedInside(table[..], t, cur, k, at, size, step, item);
    SubFrameKeep(table[..], t, t1, off, R, ls, FirstLong(cnt, R), qn, total, cur, cur + size);
    LaidIs(cnt, top, ls);
    LengthIs(cnt, top, ls, symbol, len);
    SubFilledStep(table[..], t, t1, off, R, cnt, top, ls, order, FirstLong(cnt, R), q, qn, symbol, symbol1, len,
                  key, bits, cur, at, at + size, step, item);
  }

  /** One turn of the inner loop of the second pass: open the table of a
      new subtree if code symbol starts one, replicate the code over the
      table of its subtree and step the key. */
  method PlaceLongCode(table: array<int>, off: nat, R: nat, sorted: array<int>, count: array<int>,
                       len: nat, step: int, key0: nat, symbol0: nat, low0: int, bits0: int, size0: int,
                       total0: int, cur0: int,
                       ghost qn0: nat, ghost cnt: seq<nat>, ghost top: nat, ghost ls: seq<int>, ghost t1: seq<int>,
                       ghost order: seq<int>)
    returns (key: nat, symbol: nat, low: int, bits: int, size: int, total: int, cur: int, ghost qn: nat)
    requires LongCode(cnt, top, ls, R, len, symbol0) && |cnt| == MaxLength + 1
    requires |ls| <= sorted.Length && step == Pow2(len - R) && count.Length == |cnt|
    requires count[len] == Start(cnt, len + 1) - symbol0
    requires forall l :: len < l <= top ==> count[l] == cnt[l]
    requires Cursors(cnt, ls, R, symbol0, qn0, key0, low0, bits0, size0, total0, cur0, off)
    requires off + SubStart(ls, R, FirstLong(cnt, R), Pow2(R)) <= table.Length
    requires |t1| == table.Length && SubFrame(table[..], t1, off, R, ls, FirstLong(cnt, R), qn0, total0)
    requires symbol0 < |order| && sorted[symbol0] == order[symbol0]
    requires SubFilled(table[..], t1, off, R, ls, order, FirstLong(cnt, R), qn0, symbol0)
    requires table != sorted && table != count && count != sorted
    modifies table
    ensures symbol == symbol0 + 1
    ensures Cursors(cnt, ls, R, symbol, qn, key, low, bits, size, total, cur, off)
    ensures SubFrame(table[..], t1, off, R, ls, FirstLong(cnt, R), qn, total)
    ensures SubFilled(table[..], t1, off, R, ls, order, FirstLong(cnt, R), qn, symbol)
  {
    ghost var q;
    symbol := symbol0 + 1;
    low, bits, size, total, cur, q, qn := EnterSubtree(table, off, R, count, len, key0, low0, bits0, size0, total0,
                                                       cur0, symbol0, qn0, cnt, top, ls, t1, order);
    PlaceInSubtree(table, off, R, sorted, len, step, symbol0, symbol, key0, low, bits, size, total, cur, q, qn, cnt, top,
                   ls, t1, order);
    LongKey(cnt, top, ls, R, len, symbol0);
    key := GetNextKey(key0, len);
    LongAdvance(cnt, top, ls, R, len, symbol0, symbol, q, qn, key0, key, low, bits, size, total, cur, off);
  }

  /** The inner loop of the second pass: the codes of length len, counting
      count[len] down to zero. */
  method FillSubLength(table: array<int>, off: nat, R: nat, sorted: array<int>, count: array<int>,
                       len: nat, step: int, key0: nat, symbol0: nat, low0: int, bits0: int, size0: int,
                       total0: int, cur0: int,
                       ghost qn0: nat, ghost cnt: seq<nat>, ghost top: nat, ghost ls: seq<int>, ghost t1: seq<int>,
                       ghost order: seq<int>)
    returns (key: nat, symbol: nat, low: int, bits: int, size: int, total: int, cur: int, ghost qn: nat)
    requires LaidCodes(cnt, top, ls) && (Complete(ls) || |ls| == 0) && top == MaxLength && |cnt| == MaxLength + 1
    requires 1 <= R < len <= top && |ls| <= sorted.Length && step == Pow2(len - R) && count.Length == |cnt|
    requires symbol0 == Start(cnt, len) && forall l :: len <= l <= top ==> count[l] == cnt[l]
    requires Cursors(cnt, ls, R, symbol0, qn0, key0, low0, bits0, size0, total0, cur0, off)
    requires Complete(ls) ==> off + SubStart(ls, R, FirstLong(cnt, R), Pow2(R)) <= table.Length
    requires |t1| == table.Length && SubFrame(table[..], t1, off, R, ls, FirstLong(cnt, R), qn0, total0)
    requires order == sorted[..] && SubFilled(table[..], t1, off, R, ls, order, FirstLong(cnt, R), qn0, symbol0)
    requires table != sorted && table != count && count != sorted
    modifies table, count
    ensures symbol == Start(cnt, len + 1)
    ensures count[len] == 0 && forall l :: 0 <= l < count.Length && l != len ==> count[l] == old(count[l])
    ensures Cursors(cnt, ls, R, symbol, qn, key, low, bits, size, total, cur, off)
    ensures SubFrame(table[..], t1, off, R, ls, FirstLong(cnt, R), qn, total)
    ensures SubFilled(table[..], t1, off, R, ls, order, FirstLong(cnt, R), qn, symbol)
  {
    LengthsUpToSize(cnt, top);
    StartGrows(cnt, len + 1, top + 1);
    key, symbol, low, bits, size, total, cur, qn := key0, symbol0, low0, bits0, size0, total0, cur0, qn0;
    while count[len] > 0
      invariant Start(cnt, len) <= symbol && 0 <= count[len] && symbol + count[len] == Start(cnt, len + 1)
      invariant forall l :: 0 <= l < count.Length && l != len ==> count[l] == old(count[l])
      invariant Cursors(cnt, ls, R, symbol, qn, key, low, bits, size, total, cur, off)
      invariant SubFrame(table[..], t1, off, R, ls, FirstLong(cnt, R), qn, total)
      invariant SubFilled(table[..], t1, off, R, ls, order, FirstLong(cnt, R), qn, symbol)
    {
      assert sorted[symbol] == order[symbol];
      key, symbol, low, bits, size, total, cur, qn := PlaceLongCode(table, off, R, sorted, count, len, step, key,
                                                                    symbol, low, bits, size, total, cur,
                                                                    qn, cnt, top, ls, t1, order);
      ghost var placed := table[..];
      count[len] := count[len] - 1;
      assert table[..] == placed;
    }
  }

  /** When every code has been placed, the tables of all the subtrees past
      the short codes are open (a complete code), or none is (no code). */
  lemma AllPlaced(cnt: seq<nat>, top: nat, ls: seq<int>, R: nat, qn: nat, key: int, low: int,
                  bits: int, size: int, total: int, cur: int, off: int)
    requires LaidCodes(cnt, top, ls) && top == MaxLength && 1 <= R <= top
    requires Cursors(cnt, ls, R, |ls|, qn, key, low, bits, size, total, cur, off)
    ensures Complete(ls) ==> qn == Pow2(R)
    ensures |ls| == 0 ==> qn == FirstLong(cnt, R) && total == Pow2(R)
  {
    if Complete(ls) {
      ScaledWhole(R);
      ScaledLess(qn, Pow2(R), R);
    }
    if |ls| == 0 {
      LengthsUpToSize(cnt, top);
      StartGrows(cnt, R + 1, top + 1);
    }
  }

  /** The second pass of buildHuffmanTable: the codes longer than R, with
      the variables low = -1, currentOffset = off and tableSize =
      totalSize = 2^R left by the first pass.  For a complete code it opens
      the tables of all the subtrees from FirstLong on and leaves totalSize
      at their end; without codes it changes nothing. */
  method FillSubTables(table: array<int>, off: nat, R: nat, sorted: array<int>, count: array<int>,
                       key0: nat, symbol0: nat, ghost cnt: seq<nat>, ghost top: nat, ghost ls: seq<int>)
    returns (total: int)
    requires LaidCodes(cnt, top, ls) && (Complete(ls) || |ls| == 0) && top == MaxLength && |cnt| == MaxLength + 1
    requires 1 <= R <= top && |ls| <= sorted.Length && count.Length == |cnt|
    requires forall l :: R < l <= top ==> count[l] == cnt[l]
    requires symbol0 == Start(cnt, R + 1) && (symbol0 < |ls| ==> key0 == Rev(Pos(ls, symbol0), MaxLength))
    requires off + Pow2(R) <= table.Length
    requires Complete(ls) ==> off + SubStart(ls, R, FirstLong(cnt, R), Pow2(R)) <= table.Length
    requires table != sorted && table != count && count != sorted
    modifies table, count
    ensures Complete(ls) ==> total == SubStart(ls, R, FirstLong(cnt, R), Pow2(R))
    ensures Complete(ls) ==> SubFrame(table[..], old(table[..]), off, R, ls, FirstLong(cnt, R), Pow2(R), total)
    ensures Complete(ls) ==> SubTablesFilled(table[..], off, R, ls, sorted[..], FirstLong(cnt, R))
    ensures |ls| == 0 ==> total == Pow2(R) && table[..] == old(table[..])
  {
    ghost var t1, fl, order := table[..], FirstLong(cnt, R), sorted[..];
    FirstLongStart(cnt, top, ls, R);
    var low, cur, bits, size := -1, off, R, Pow2(R);  // tableBits, tableSize as the first pass left them
    total := size;
    var key, symbol := key0, symbol0;
    ghost var qn := fl;
    var step := 1;
    var len := R + 1;
    while len <= MaxLength
      invariant R + 1 <= len <= MaxLength + 1 && step == Pow2(len - 1 - R)
      invariant symbol == Start(cnt, len)
      invariant forall l :: len <= l <= top ==> count[l] == cnt[l]
      invariant Cursors(cnt, ls, R, symbol, qn, key, low, bits, size, total, cur, off)
      invariant SubFrame(table[..], t1, off, R, ls, fl, qn, total)
      invariant order == sorted[..] && SubFilled(table[..], t1, off, R, ls, order, fl, qn, symbol)
    {
      step := step * 2;  // step <<= 1
      key, symbol, low, bits, size, total, cur, qn := FillSubLength(table, off, R, sorted, count, len, step, key,
                                                                    symbol, low, bits, size, total, cur,
                                                                    qn, cnt, top, ls, t1, order);
      len := len + 1;
    }
    SubTablesDone(table[..], t1, off, R, cnt, top, ls, order, qn, key, low, bits, size, total, cur, symbol);
  }

  /** What the second pass leaves once its loops end: for a complete code
      every table is open and holds its entries, and without codes the
      table is as the first pass left it. */
  lemma SubTablesDone(t: seq<int>, t1: seq<int>, off: nat, R: nat, cnt: seq<nat>, top: nat, ls: seq<int>,
                      order: seq<int>, qn: nat, key: int, low: int, bits: int, size: int, total: int, cur: int,
                      symbol: nat)
    requires LaidCodes(cnt, top, ls) && (Complete(ls) || |ls| == 0) && top == MaxLength && |cnt| == MaxLength + 1
    requires 1 <= R <= top && symbol == Start(cnt, MaxLength + 1)
    requires Cursors(cnt, ls, R, symbol, qn, key, low, bits, size, total, cur, off)
    requires SubFrame(t, t1, off, R, ls, FirstLong(cnt, R), qn, total)
    requires SubFilled(t, t1, off, R, ls, order, FirstLong(cnt, R), qn, symbol)
    ensures Complete(ls) ==> total == SubStart(ls, R, FirstLong(cnt, R), Pow2(R))
    ensures Complete(ls) ==> SubFrame(t, t1, off, R, ls, FirstLong(cnt, R), Pow2(R), total)
    ensures Complete(ls) ==> SubTablesFilled(t, off, R, ls, order, FirstLong(cnt, R))
    ensures |ls| == 0 ==> total == Pow2(R) && t == t1
  {
    var fl := FirstLong(cnt, R);
    LengthsUpToSize(cnt, top);
    AllPlaced(cnt, top, ls, R, qn, key, low, bits, size, total, cur, off);
    if Complete(ls) {
      LaidIs(cnt, top, ls);
      SubFilledDone(t, t1, off, R, cnt, top, ls, order, fl, qn, symbol);
    }
    if |ls| == 0 {
      forall x | 0 <= x < |t1|
        ensures t[x] == t1[x]
      {
        if off <= x < off + total {
          assert t[off + (x - off)] == RootAfter(t1, off, R, ls, fl, qn, x - off);
        }
      }
    }
  }

  // ---------------------------------------------------------------------
  // buildHuffmanTable

  /** The root slot j of the table for a complete code: the entry of the
      short code that owns slot j's share of the code space when that share
      lies before FirstLong, else the pointer to the table of its subtree. */
  function RootEntry(ls: seq<int>, order: seq<int>, R: nat, fl: nat, j: nat): int
  {
    var q := Rev(j, R);
    if q < fl then ShortEntry(ls, order, Point(j, R)) else PointerEntry(ls, R, fl, q, j)
  }

  /** The table never has fewer slots than the root table. */
  lemma TableSizeFloor(cnt: seq<nat>, R: nat)
    requires |cnt| == MaxLength + 1 && 1 <= R <= MaxLength
    ensures Pow2(R) <= TableSize(cnt, R)
  {
    SubStartFloor(LengthsUpTo(cnt, MaxLength), R, FirstLong(cnt, R), Pow2(R));
  }

  /** The two passes together, for a complete code: every root slot holds
      RootEntry, and nothing outside the slots in use has changed. */
  lemma RootSlots(t0: seq<int>, t1: seq<int>, t2: seq<int>, off: nat, R: nat, cnt: seq<nat>, top: nat,
                  ls: seq<int>, order: seq<int>, total: int)
    requires LaidCodes(cnt, top, ls) && 1 <= R <= top && |t1| == |t0| && off + Pow2(R) <= |t0|
    requires Start(cnt, R + 1) <= |ls| && RootFilled(t1, t0, off, R, ls, order, Start(cnt, R + 1))
    requires SubFrame(t2, t1, off, R, ls, FirstLong(cnt, R), Pow2(R), total)
    ensures forall j :: 0 <= j < Pow2(R) ==> t2[off + j] == RootEntry(ls, order, R, FirstLong(cnt, R), j)
    ensures forall x :: 0 <= x < |t2| && !(off <= x < off + total) ==> t2[x] == t0[x]
  {
    var fl, s := FirstLong(cnt, R), Start(cnt, R + 1);
    FirstLongStart(cnt, top, ls, R);
    forall j | 0 <= j < Pow2(R)
      ensures t2[off + j] == RootEntry(ls, order, R, fl, j)
    {
      var q := Rev(j, R);
      RevBound(j, R);
      assert t2[off + j] == RootAfter(t1, off, R, ls, fl, Pow2(R), j);
      if q < fl {
        ScaledLess(q, fl, R);
        assert Point(j, R) < Pos(ls, s);
        assert t1[off + j] == RootValue(t0, off, R, ls, order, s, j);
      }
    }
  }

  /** ShortEntry reads only the first |ls| symbols of the order. */
  lemma ShortEntryPrefix(ls: seq<int>, order: seq<int>, p: nat)
    requires |ls| <= |order|
    ensures ShortEntry(ls, order[..|ls|], p) == ShortEntry(ls, order, p)
  {
  }

  /** Without codes the first pass writes nothing. */
  lemma NothingRoot(t0: seq<int>, t1: seq<int>, off: nat, R: nat, ls: seq<int>, order: seq<int>)
    requires |ls| == 0 && |t1| == |t0| && off + Pow2(R) <= |t0| && RootFilled(t1, t0, off, R, ls, order, 0)
    ensures t1 == t0
  {
    forall x | 0 <= x < |t1|
      ensures t1[x] == t0[x]
    {
      if off <= x < off + Pow2(R) {
        assert t1[off + (x - off)] == RootValue(t0, off, R, ls, order, 0, x - off);
      }
    }
  }

  /** The branch `offset[15] === 1` of buildHuffmanTable: a code of one
      symbol fills all size root slots with the bare symbol. */
  method FillSingle(table: array<int>, off: int, size: int, symbol: int)
    requires 0 <= off && 0 <= size && off + size <= table.Length
    modifies table
    ensures forall x :: 0 <= x < table.Length ==> table[x] == if off <= x < off + size then symbol else old(table[x])
  {
    var k := 0;
    while k < size
      invariant 0 <= k <= size
      invariant forall x :: 0 <= x < table.Length ==> table[x] == if off <= x < off + k then symbol else old(table[x])
    {
      table[off + k] := symbol;
      k := k + 1;
    }
  }

  /** What buildHuffmanTable leaves in the table t (t0 before) for the
      code lengths lens with the table at off and R root bits, having
      returned r: r slots are in use and nothing past them has changed; no
      code leaves the table as it was, a single code fills the root table
      with its bare symbol, and otherwise every root slot is RootEntry and
      every slot of every second-level table is SubEntry. */
  ghost predicate Built(t: seq<int>, t0: seq<int>, off: nat, R: nat, lens: seq<int>, r: int)
    requires 1 <= R <= MaxLength
  {
    var cnt, order := BlCount(lens), CanonicalOrder(lens);
    |t| == |t0| && r == TableSize(cnt, R) && Pow2(R) <= r && off + r <= |t|
    && (forall x :: 0 <= x < |t| && !(off <= x < off + r) ==> t[x] == t0[x])
    && (|order| == 0 ==> t == t0)
    && (|order| == 1 ==> forall x :: off <= x < off + r ==> t[x] == order[0])
    && (|order| >= 2 ==> forall j :: 0 <= j < Pow2(R) ==>
          t[off + j] == RootEntry(LengthsUpTo(cnt, MaxLength), order, R, FirstLong(cnt, R), j))
    && (|order| >= 2 ==> SubTablesFilled(t, off, R, LengthsUpTo(cnt, MaxLength), order, FirstLong(cnt, R)))
  }

  /** The single-code branch establishes Built. */
  lemma SingleBuilt(t: seq<int>, t0: seq<int>, off: nat, R: nat, lens: seq<int>, symbol: int)
    requires 1 <= R <= MaxLength && |t| == |t0| && off + Pow2(R) <= |t|
    requires Start(BlCount(lens), MaxLength + 1) == 1 && [symbol] == CanonicalOrder(lens)
    requires forall x :: 0 <= x < |t| ==> t[x] == if off <= x < off + Pow2(R) then symbol else t0[x]
    ensures Built(t, t0, off, R, lens, Pow2(R))
  {
  }

  /** The two passes establish Built: nothing is written without codes,
      and RootSlots holds for a complete code. */
  lemma TwoLevelBuilt(t0: seq<int>, t1: seq<int>, t2: seq<int>, off: nat, R: nat, cnt: seq<nat>, lens: seq<int>,
                      ls: seq<int>, order: seq<int>, s: nat, total: int)
    requires 1 <= R <= MaxLength && cnt == BlCount(lens) && ls == LengthsUpTo(cnt, MaxLength)
    requires s == Start(cnt, R + 1) <= |ls|
    requires LaidCodes(cnt, MaxLength, ls) && |ls| == Start(cnt, MaxLength + 1) && |ls| != 1
    requires |ls| <= |order| && order[..|ls|] == CanonicalOrder(lens)
    requires |ls| == 0 || Complete(ls)
    requires |t1| == |t0| && off + Pow2(R) <= off + TableSize(cnt, R) <= |t0| && RootFilled(t1, t0, off, R, ls, order, s)
    requires Complete(ls) ==> total == SubStart(ls, R, FirstLong(cnt, R), Pow2(R))
    requires Complete(ls) ==> SubFrame(t2, t1, off, R, ls, FirstLong(cnt, R), Pow2(R), total)
    requires Complete(ls) ==> SubTablesFilled(t2, off, R, ls, order, FirstLong(cnt, R))
    requires |ls| == 0 ==> total == Pow2(R) && t2 == t1
    ensures Built(t2, t0, off, R, lens, total)
  {
    if |ls| == 0 {
      NothingRoot(t0, t1, off, R, ls, order);
    } else {
      CompleteBuilt(t0, t1, t2, off, R, cnt, lens, ls, order, s, total);
    }
  }

  lemma CompleteBuilt(t0: seq<int>, t1: seq<int>, t2: seq<int>, off: nat, R: nat, cnt: seq<nat>, lens: seq<int>,
                      ls: seq<int>, order: seq<int>, s: nat, total: int)
    requires 1 <= R <= MaxLength && cnt == BlCount(lens) && ls == LengthsUpTo(cnt, MaxLength)
    requires s == Start(cnt, R + 1) <= |ls|
    requires LaidCodes(cnt, MaxLength, ls) && |ls| == Start(cnt, MaxLength + 1) && |ls| >= 2
    requires |ls| <= |order| && order[..|ls|] == CanonicalOrder(lens) && Complete(ls)
    requires |t1| == |t0| && off + Pow2(R) <= |t0| && RootFilled(t1, t0, off, R, ls, order, s)
    requires total == SubStart(ls, R, FirstLong(cnt, R), Pow2(R)) && total == TableSize(cnt, R)
    requires SubFrame(t2, t1, off, R, ls, FirstLong(cnt, R), Pow2(R), total)
    requires SubTablesFilled(t2, off, R, ls, order, FirstLong(cnt, R))
    ensures Built(t2, t0, off, R, lens, total)
  {
    RootSlots(t0, t1, t2, off, R, cnt, MaxLength, ls, order, total);
    SubTablesPrefix(t2, off, R, ls, order, FirstLong(cnt, R));
    forall j | 0 <= j < Pow2(R)
      ensures RootEntry(ls, order, R, FirstLong(cnt, R), j) == RootEntry(ls, CanonicalOrder(lens), R, FirstLong(cnt, R), j)
    {
      ShortEntryPrefix(ls, order, Point(j, R));
    }
  }

  /** The two passes of buildHuffmanTable for no code or a complete code
      of at least two symbols, with the counts and the sorted symbols of
      the lengths lens. */
  method FillTwoLevel(table: array<int>, off: nat, R: nat, sorted: array<int>, count: array<int>,
                      ghost cnt: seq<nat>, ghost lens: seq<int>)
    returns (total: int)
    requires cnt == BlCount(lens) && 1 <= R <= MaxLength && count.Length == |cnt|
    requires forall l :: 0 <= l <= MaxLength ==> count[l] == cnt[l]
    requires Start(cnt, MaxLength + 1) <= sorted.Length
    requires sorted[..Start(cnt, MaxLength + 1)] == CanonicalOrder(lens)
    requires Start(cnt, MaxLength + 1) == 0 || (Start(cnt, MaxLength + 1) >= 2 && KraftSum(cnt) == CodeSpace)
    requires off + TableSize(cnt, R) <= table.Length
    requires table != sorted && table != count && count != sorted
    modifies table, count
    ensures Built(table[..], old(table[..]), off, R, lens, total)
  {
    ghost var t0 := table[..];
    ghost var ls := LengthsUpTo(cnt, MaxLength);
    LengthsUpToSize(cnt, MaxLength);
    PosEnd(cnt);
    LaidOut(cnt);
    TableSizeFloor(cnt, R);
    assert LaidCodes(cnt, MaxLength, ls);
    var key, symbol := FillRoot(table, off, R, sorted, count, cnt, MaxLength, ls);
    ghost var t1 := table[..];
    total := FillSubTables(table, off, R, sorted, count, key, symbol, cnt, MaxLength, ls);
    StartGrows(cnt, R + 1, MaxLength + 1);
    TwoLevelBuilt(t0, t1, table[..], off, R, cnt, lens, ls, sorted[..], Start(cnt, R + 1), total);
  }

  /** Everything after the sort: a single code fills the root table with
      its symbol, otherwise the two passes run. */
  method FillTables(table: array<int>, off: nat, R: nat, sorted: array<int>, count: array<int>, codes: int,
                    ghost cnt: seq<nat>, ghost lens: seq<int>)
    returns (r: int)
    requires cnt == BlCount(lens) && 1 <= R <= MaxLength && count.Length == |cnt|
    requires forall l :: 0 <= l <= MaxLength ==> count[l] == cnt[l]
    requires codes == Start(cnt, MaxLength + 1) <= sorted.Length && sorted[..codes] == CanonicalOrder(lens)
    requires codes <= 1 || KraftSum(cnt) == CodeSpace
    requires off + TableSize(cnt, R) <= table.Length
    requires table != sorted && table != count && count != sorted
    modifies table, count
    ensures Built(table[..], old(table[..]), off, R, lens, r)
  {
    TableSizeFloor(cnt, R);
    var size := Pow2(R);  // tableSize = totalSize = 1 << rootBits
    if codes == 1 {  // offset[15] === 1
      ghost var t0 := table[..];
      FillSingle(table, off, size, sorted[0]);
      SingleBuilt(table[..], t0, off, R, lens, sorted[0]);
      return size;
    }
    r := FillTwoLevel(table, off, R, sorted, count, cnt, lens);
  }

  /** buildHuffmanTable: fills the table for the code lengths
      codeLengths[..codeLengthsSize] at tableGroup[tableIdx] and returns the
      number of slots used; Built states what every root slot and every
      slot of every second-level table then holds.  buildHuffmanTable is
      only ever given a code with at most one symbol or a complete code,
      with room for the table, and at most 2^16 symbols, so that a symbol
      fits the 16 value bits of an entry. */
  method BuildHuffmanTable(tableGroup: array<int>, tableIdx: int, rootBits: int, codeLengths: array<int>,
                           codeLengthsSize: int)
    returns (r: int)
    requires 0 <= codeLengthsSize <= codeLengths.Length && codeLengthsSize <= 0x1_0000
    requires ValidLengths(codeLengths[..codeLengthsSize])
    requires 1 <= rootBits <= MaxLength && tableGroup != codeLengths
    requires 0 <= tableIdx < tableGroup.Length && 0 <= tableGroup[tableIdx]
    requires var cnt := BlCount(codeLengths[..codeLengthsSize]);
      (Start(cnt, MaxLength + 1) <= 1 || KraftSum(cnt) == CodeSpace)
      && tableGroup[tableIdx] + TableSize(cnt, rootBits) <= tableGroup.Length
    modifies tableGroup
    ensures Built(tableGroup[..], old(tableGroup[..]), old(tableGroup[tableIdx]), rootBits, codeLengths[..codeLengthsSize], r)
  {
    ghost var lens := codeLengths[..codeLengthsSize];
    var off := tableGroup[tableIdx];  // tableOffset
    var count, sorted, codes := CountAndSort(codeLengths, codeLengthsSize, BlCount(lens));
    r := FillTables(tableGroup, off, rootBits, sorted, count, codes, BlCount(lens), lens);
    assert codeLengths[..codeLengthsSize] == lens;
  }
}
