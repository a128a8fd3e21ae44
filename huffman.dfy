/** Canonical Huffman decoding tables (section 3.2 of RFC 7932).

    Brotli reads the bits of a prefix code least-significant first, so the
    decoder indexes its tables with the code written backwards: a code of
    length len whose canonical value is c sits at every index whose low len
    bits are Rev(c, len).  The table is two-level: 2^rootBits root slots,
    and for codes longer than rootBits a second-level table per root slot.
    Entries pack a bit length in the high 16 bits and a symbol or a table
    offset in the low 16 bits. */
module Huffman {
  import opened Binary
  import opened BitReverse
  import opened CanonicalCode
  import opened TableLayout

  // ---------------------------------------------------------------------
  // getNextKey, replicateValue, nextTableBitSize

  /** The key that follows `key` among len-bit keys enumerated in
      bit-reversed order: clear the run of one bits at the top and set the
      first zero bit below it.  The all-ones key is returned unchanged. */
  method GetNextKey(key: nat, len: nat) returns (next: nat)
    requires 1 <= len && key < Pow2(len)
    ensures next < Pow2(len)
    ensures key == Pow2(len) - 1 ==> next == key
    ensures key < Pow2(len) - 1 ==> Rev(next, len) == Rev(key, len) + 1
  {
    var step := Pow2(len - 1);  // 1 << (len - 1)
    ghost var s: int := len - 1;
    DivUnique(key, Pow2(len), 0, key);
    // `(key & step) !== 0` for step == 2^s is bit s of key being set
    while step > 0 && (key / step) % 2 == 1
      invariant -1 <= s < len
      invariant step == if s >= 0 then Pow2(s) else 0
      invariant key / Pow2(s + 1) == Pow2(len - 1 - s) - 1
    {
      HighOnesStep(key, len, s);
      Pow2Half(s);
      step, s := step / 2, s - 1;  // step >> 1
    }
    if step == 0 {
      next := key;  // (key & -1) + 0
    } else {
      NextKeyRev(key, len, s);
      next := key % step + step;  // (key & (step - 1)) + step
    }
  }

  lemma Pow2Half(s: nat)
    ensures s >= 1 ==> Pow2(s) / 2 == Pow2(s - 1)
    ensures s == 0 ==> Pow2(s) / 2 == 0
  {
  }

  /** One round of GetNextKey's scan: when bit s is set and all bits above
      it are set, all bits from s upwards are set. */
  lemma HighOnesStep(key: nat, len: nat, s: nat)
    requires s < len
    requires (key / Pow2(s)) % 2 == 1
    requires key / Pow2(s + 1) == Pow2(len - 1 - s) - 1
    ensures key / Pow2(s) == Pow2(len - s) - 1
  {
    var k := key / Pow2(s);
    DivDiv(key, Pow2(s), 2);
    assert k == 2 * (k / 2) + 1;
    assert Pow2(len - s) == 2 * Pow2(len - 1 - s);
  }



  /** Incrementing the reversed key: the top bits above s are ones, bit s
      is zero, and the next key keeps the low s bits and sets bit s. */
  lemma NextKeyRev(key: nat, len: nat, s: nat)
    requires s < len && key < Pow2(len)
    requires (key / Pow2(s)) % 2 == 0
    requires key / Pow2(s + 1) == Pow2(len - 1 - s) - 1
    ensures key % Pow2(s) + Pow2(s) < Pow2(len)
    ensures key < Pow2(len) - 1
    ensures Rev(key % Pow2(s) + Pow2(s), len) == Rev(key, len) + 1
  {
    var p := Pow2(s);
    var lo, k := key % p, key / p;
    var n := len - s;
    var h := Pow2(n - 1) - 1;
    assert k == 2 * h by {
      DivDiv(key, p, 2);
      assert k == 2 * (k / 2) + k % 2;
    }
    assert key == lo + p * (2 * h) by {
      SplitAt(key, s);
    }
    RevIncrement(lo, s, n, len, h);
    NextKeyBounds(lo, s, n, len, h);
  }

  /** The reversed-order successor of lo + 2^s * (all ones, then a zero) over
      w = s + n bits is lo + 2^s. */
  lemma RevIncrement(lo: nat, s: nat, n: nat, w: nat, h: nat)
    requires n >= 1 && w == s + n && lo < Pow2(s) && h + 1 == Pow2(n - 1)
    ensures Rev(lo + Pow2(s), w) == Rev(lo + Pow2(s) * (2 * h), w) + 1
  {
    var m := n - 1;
    var b := 2 * h;
    MulNonneg(Pow2(s), b);
    RevSplit(lo, b, s, n);
    RevDoubledOnes(h, m, n, b);
    RevSplit(lo, 1, s, n);
    assert lo + Pow2(s) * 1 == lo + Pow2(s) && s + n == w;
    RevOne(n);
  }

  /** Reversing all ones followed by a zero over n bits gives all ones. */
  lemma RevDoubledOnes(h: nat, m: nat, n: nat, b: nat)
    requires n == m + 1 && h + 1 == Pow2(m) && b == 2 * h
    ensures Rev(b, n) == h
  {
    RevEven(h, m);
    RevAllOnes(m);
  }

  lemma NextKeyBounds(lo: nat, s: nat, n: nat, w: nat, h: nat)
    requires n >= 1 && w == s + n && lo < Pow2(s) && h + 1 == Pow2(n - 1)
    ensures lo + Pow2(s) < Pow2(w)
    ensures lo + Pow2(s) * (2 * h) < Pow2(w) - 1
  {
    var p := Pow2(s);
    var a := p * (2 * h);
    MulNonneg(p, 2 * h);
    assert Pow2(n) == 2 * h + 2;
    Pow2Add(s, n);
    assert p * Pow2(n) == a + 2 * p by {
      MulDistrib(p, 2 * h, 2);
    }
  }

  /** Writes item at offset + end - step, offset + end - 2 * step, ...,
      offset, and nowhere else. */
  method ReplicateValue(table: array<int>, offset: int, step: int, end: int, item: int)
    requires 0 < step && 0 < end && OnStride(end, step)
    requires 0 <= offset && offset + end - step < table.Length
    modifies table
    ensures Replicated(table[..], old(table[..]), offset, offset + end, step, item)
  {
    ghost var t0 := table[..];
    var pos := end;
    assert table[..] == Strided(t0, offset, offset + pos, offset + end, step, item);
    // do { ... } while (pos > 0)
    ghost var hi, prev := pos, table[..];
    pos := pos - step;
    table[offset + pos] := item;
    ReplicateStep(t0, prev, table[..], offset, hi, pos, end, step, item);
    while pos > 0
      invariant 0 <= pos <= end - step && OnStride(pos, step)
      invariant table[..] == Strided(t0, offset, offset + pos, offset + end, step, item)
    {
      hi, prev := pos, table[..];
      pos := pos - step;
      table[offset + pos] := item;
      ReplicateStep(t0, prev, table[..], offset, hi, pos, end, step, item);
    }
    StridedAll(t0, table[..], offset, offset + end, step, item);
  }

  /** One write of ReplicateValue extends the written stride downwards. */
  lemma ReplicateStep(t0: seq<int>, prev: seq<int>, next: seq<int>, offset: int, hi: int, lo: int, end: int,
                      step: int, item: int)
    requires step > 0 && 0 < hi && OnStride(hi, step) && lo == hi - step && 0 <= offset + lo < |prev|
    requires prev == Strided(t0, offset, offset + hi, offset + end, step, item)
    requires |next| == |prev| && forall x :: 0 <= x < |next| ==> next[x] == if x == offset + lo then item else prev[x]
    requires lo < end
    ensures next == Strided(t0, offset, offset + lo, offset + end, step, item)
    ensures 0 <= lo && OnStride(lo, step)
  {
    forall x | 0 <= x < |next|
      ensures next[x] == Strided(t0, offset, offset + lo, offset + end, step, item)[x]
    {
      if offset + lo < x < offset + hi {
        OffStride(lo, x - offset, step);
      }
    }
  }

  /** Strictly between two consecutive multiples of step lies no multiple. */
  lemma OffStride(lo: int, d: int, step: int)
    requires step > 0 && OnStride(lo, step) && lo < d < lo + step
    ensures !OnStride(d, step)
  {
    OnStrideMod(lo, step);
    OnStrideMod(d, step);
    var q := lo / step;
    assert lo == step * q;
    DivUnique(d, step, q, d - lo);
  }

  /** The size in bits of the second-level table that starts with a code of
      length len: the smallest number of bits beyond rootBits for which the
      codes of length len and longer fill the table, and at most
      15 - rootBits. */
  method NextTableBitSize(count: array<int>, len: int, rootBits: int) returns (r: int)
    requires count.Length == 16 && 0 <= rootBits < len <= 15
    ensures len - rootBits <= r <= 15 - rootBits
    ensures r + rootBits < 15 ==> Pow2(r) <= Weight(count[..], len, r + rootBits)
    ensures forall b :: len <= b < r + rootBits ==> Weight(count[..], len, b) < Pow2(b - rootBits)
  {
    var bits := len;
    var left := Pow2(bits - rootBits);  // 1 << (bits - rootBits)
    while bits < 15
      invariant len <= bits <= 15
      invariant left == Pow2(bits - rootBits) - 2 * Weight(count[..], len, bits - 1)
      invariant forall b :: len <= b < bits ==> Weight(count[..], len, b) < Pow2(b - rootBits)
    {
      WeightStep(count[..], len, bits - 1, bits);
      left := left - count[bits];
      if left <= 0 {
        break;
      }
      bits := bits + 1;
      left := left * 2;  // left <<= 1
    }
    r := bits - rootBits;
  }

  // ---------------------------------------------------------------------
  // buildHuffmanTable: counting and sorting the symbols

  /** count[l] becomes the number of symbols of code length l, for every l
      in 0..15. */
  method CountLengths(codeLengths: array<int>, size: int) returns (count: array<int>)
    requires 0 <= size <= codeLengths.Length && ValidLengths(codeLengths[..size])
    ensures fresh(count) && count.Length == MaxLength + 1
    ensures forall l :: 0 <= l <= MaxLength ==> count[l] == Count(codeLengths[..size], l)
  {
    count := new int[MaxLength + 1](_ => 0);
    var sym := 0;
    while sym < size
      invariant 0 <= sym <= size
      invariant forall l :: 0 <= l <= MaxLength ==> count[l] == Count(codeLengths[..sym], l)
    {
      forall l | 0 <= l <= MaxLength
        ensures Count(codeLengths[..sym + 1], l) == Count(codeLengths[..sym], l) + (if codeLengths[sym] == l then 1 else 0)
      {
        SymbolsOfLengthSnoc(codeLengths[..size], sym, l);
        assert codeLengths[..size][..sym + 1] == codeLengths[..sym + 1];
        assert codeLengths[..size][..sym] == codeLengths[..sym];
      }
      assert 0 <= codeLengths[..size][sym] <= MaxLength;
      count[codeLengths[sym]] := count[codeLengths[sym]] + 1;
      sym := sym + 1;
    }
    assert codeLengths[..sym] == codeLengths[..size];
  }

  /** offset[l] becomes the number of codes shorter than l, for l in 1..15. */
  method StartOffsets(count: array<int>, ghost cnt: seq<nat>) returns (offset: array<int>)
    requires count.Length == |cnt| == MaxLength + 1
    requires forall l :: 0 <= l <= MaxLength ==> count[l] == cnt[l]
    ensures fresh(offset) && offset.Length == MaxLength + 1
    ensures forall l :: 1 <= l <= MaxLength ==> offset[l] == Start(cnt, l)
  {
    offset := new int[MaxLength + 1](_ => 0);
    offset[1] := 0;
    var len := 1;
    while len < MaxLength
      invariant 1 <= len <= MaxLength
      invariant forall l :: 1 <= l <= len ==> offset[l] == Start(cnt, l)
    {
      offset[len + 1] := offset[len] + count[len];
      len := len + 1;
    }
  }

  /** Every symbol with a code sits at the index of the canonical order
      that its length and rank give it. */
  method SortSymbols(codeLengths: array<int>, size: int, offset: array<int>, ghost cnt: seq<nat>)
    returns (sorted: array<int>)
    requires 0 <= size <= codeLengths.Length && ValidLengths(codeLengths[..size])
    requires Counted(cnt, codeLengths[..size]) && offset.Length == MaxLength + 1 && offset != codeLengths
    requires forall l :: 1 <= l <= MaxLength ==> offset[l] == Start(cnt, l)
    modifies offset
    ensures fresh(sorted) && sorted.Length == size
    ensures forall l :: 1 <= l <= MaxLength ==> offset[l] == Start(cnt, l + 1)
    ensures Start(cnt, MaxLength + 1) <= size
    ensures sorted[..Start(cnt, MaxLength + 1)] == CanonicalOrder(codeLengths[..size])
  {
    ghost var lens := codeLengths[..size];
    sorted := new int[size](_ => 0);
    var sym := 0;
    assert offset[..] == Offsets(offset[0], cnt, lens, 0);
    while sym < size
      invariant 0 <= sym <= size && lens == codeLengths[..size]
      invariant offset[..] == Offsets(offset[0], cnt, lens, sym)
      invariant sorted[..] == Fill(cnt, lens, size, sym)
    {
      PlaceSymbol(codeLengths, size, sorted, offset, sym, cnt, lens);
      sym := sym + 1;
    }
    FillCanonical(cnt, lens, size);
    OffsetsEnd(offset[0], cnt, lens);
  }

  /** The first steps of buildHuffmanTable: count the code lengths, turn
      the counts into start offsets and sort the symbols into canonical
      order.  codes is offset[15] after sorting: the number of symbols with
      a code. */
  method CountAndSort(codeLengths: array<int>, size: int, ghost cnt: seq<nat>)
    returns (count: array<int>, sorted: array<int>, codes: int)
    requires 0 <= size <= codeLengths.Length && ValidLengths(codeLengths[..size])
    requires cnt == BlCount(codeLengths[..size])
    ensures fresh(count) && fresh(sorted) && count != sorted && count.Length == MaxLength + 1
    ensures forall l :: 0 <= l <= MaxLength ==> count[l] == cnt[l]
    ensures codes == Start(cnt, MaxLength + 1) <= sorted.Length
    ensures sorted[..codes] == CanonicalOrder(codeLengths[..size])
  {
    count := CountLengths(codeLengths, size);
    var offset := StartOffsets(count, cnt);
    sorted := SortSymbols(codeLengths, size, offset, cnt);
    codes := offset[MaxLength];
  }

  /** One step of the sorting loop: symbol sym, if it has a code, goes to
      the next free index of its length's block. */
  method PlaceSymbol(codeLengths: array<int>, size: int, sorted: array<int>, offset: array<int>, sym: int,
                     ghost cnt: seq<nat>, ghost lens: seq<int>)
    requires 0 <= sym < size <= codeLengths.Length && lens == codeLengths[..size]
    requires ValidLengths(lens) && Counted(cnt, lens)
    requires sorted.Length == size && offset.Length == MaxLength + 1
    requires sorted != offset && sorted != codeLengths && offset != codeLengths
    requires offset[..] == Offsets(offset[0], cnt, lens, sym) && sorted[..] == Fill(cnt, lens, size, sym)
    modifies sorted, offset
    ensures offset[..] == Offsets(offset[0], cnt, lens, sym + 1) && sorted[..] == Fill(cnt, lens, size, sym + 1)
  {
    ghost var s0, o0 := sorted[..], offset[..];
    var len := codeLengths[sym];
    if len != 0 {
      PlaceBound(cnt, lens, sym);
      sorted[offset[len]] := sym;
      offset[len] := offset[len] + 1;
    }
    PlaceNext(s0, sorted[..], o0, offset[..], cnt, lens, size, sym);
  }

  lemma PlaceNext(s0: seq<int>, s1: seq<int>, o0: seq<int>, o1: seq<int>, cnt: seq<nat>, lens: seq<int>, size: nat, m: nat)
    requires m < |lens| && |cnt| == MaxLength + 1 && 0 <= lens[m] <= MaxLength
    requires |o0| == MaxLength + 1 && s0 == Fill(cnt, lens, size, m) && o0 == Offsets(o0[0], cnt, lens, m)
    requires |s1| == |s0| && forall i :: 0 <= i < |s0| ==> s1[i] == if lens[m] != 0 && i == o0[lens[m]] then m else s0[i]
    requires |o1| == |o0| && forall l :: 0 <= l < |o0| ==> o1[l] == if lens[m] != 0 && l == lens[m] then o0[l] + 1 else o0[l]
    requires lens[m] != 0 ==> o0[lens[m]] < size
    ensures s1 == Fill(cnt, lens, size, m + 1) && o1 == Offsets(o1[0], cnt, lens, m + 1)
  {
    OffsetsNext(o0[0], cnt, lens, m);
    FillNext(cnt, lens, size, m);
    if lens[m] == 0 {
      assert s1 == s0 && o1 == o0;
    } else {
      assert s1 == s0[o0[lens[m]] := m];
      assert o1 == o0[lens[m] := o0[lens[m]] + 1];
    }
  }

  /** The offsets array once the first m symbols are placed: offset[l] is
      the index of the block of length l where the next symbol of that
      length goes. */
  ghost function Offsets(o0: int, cnt: seq<nat>, lens: seq<int>, m: nat): (o: seq<int>)
    requires m <= |lens| && |cnt| == MaxLength + 1
    ensures |o| == MaxLength + 1
  {
    seq(MaxLength + 1, l requires 0 <= l <= MaxLength => if l == 0 then o0 else Slot(cnt, l, Count(lens[..m], l)))
  }

  lemma OffsetsEnd(o0: int, cnt: seq<nat>, lens: seq<int>)
    requires Counted(cnt, lens)
    ensures forall l :: 1 <= l <= MaxLength ==> Offsets(o0, cnt, lens, |lens|)[l] == Start(cnt, l + 1)
  {
    assert lens[..|lens|] == lens;
  }

  /** The sorted array once the first m symbols are placed: symbol m - 1,
      if it has a code, written at the next index of its block. */
  ghost function Fill(cnt: seq<nat>, lens: seq<int>, size: nat, m: nat): (s: seq<int>)
    requires m <= |lens| && |cnt| == MaxLength + 1
    ensures |s| == size
  {
    if m == 0 then seq(size, _ => 0)
    else
      var prev, l := Fill(cnt, lens, size, m - 1), lens[m - 1];
      if 1 <= l <= MaxLength && Slot(cnt, l, Count(lens[..m - 1], l)) < size
      then prev[Slot(cnt, l, Count(lens[..m - 1], l)) := m - 1]
      else prev
  }

  lemma OffsetsNext(o0: int, cnt: seq<nat>, lens: seq<int>, m: nat)
    requires m < |lens| && |cnt| == MaxLength + 1 && 0 <= lens[m] <= MaxLength
    ensures Offsets(o0, cnt, lens, m + 1) == if lens[m] == 0 then Offsets(o0, cnt, lens, m)
      else Offsets(o0, cnt, lens, m)[lens[m] := Offsets(o0, cnt, lens, m)[lens[m]] + 1]
  {
    PlaceCounts(lens, m);
  }

  lemma FillNext(cnt: seq<nat>, lens: seq<int>, size: nat, m: nat)
    requires m < |lens| && |cnt| == MaxLength + 1
    ensures Fill(cnt, lens, size, m + 1) ==
      if 1 <= lens[m] <= MaxLength && Slot(cnt, lens[m], Count(lens[..m], lens[m])) < size
      then Fill(cnt, lens, size, m)[Slot(cnt, lens[m], Count(lens[..m], lens[m])) := m]
      else Fill(cnt, lens, size, m)
  {
  }

  /** Once every symbol is placed, the filled prefix is the canonical order. */
  lemma FillCanonical(cnt: seq<nat>, lens: seq<int>, size: nat)
    requires ValidLengths(lens) && Counted(cnt, lens) && size == |lens|
    ensures Start(cnt, MaxLength + 1) <= size
    ensures Fill(cnt, lens, size, size)[..Start(cnt, MaxLength + 1)] == CanonicalOrder(lens)
  {
    CanonicalUpToStart(cnt, lens, MaxLength);
    CanonicalUpToSize(lens, MaxLength);
    FillPlaced(cnt, lens, size, size);
    assert lens[..size] == lens;
    PlacedCanonical(Fill(cnt, lens, size, size), cnt, lens);
  }

  /** Fill places the first m symbols as Placed says. */
  lemma {:induction false} FillPlaced(cnt: seq<nat>, lens: seq<int>, size: nat, m: nat)
    requires ValidLengths(lens) && Counted(cnt, lens) && m <= |lens| && Start(cnt, MaxLength + 1) <= size
    ensures Placed(Fill(cnt, lens, size, m), cnt, lens, m)
  {
    if m > 0 {
      FillPlaced(cnt, lens, size, m - 1);
      var prev := Fill(cnt, lens, size, m - 1);
      PlaceCounts(lens, m - 1);
      if lens[m - 1] == 0 {
        PlaceSkip(prev, cnt, lens, m - 1);
      } else {
        PlaceBound(cnt, lens, m - 1);
        PlaceStep(prev, Fill(cnt, lens, size, m), cnt, lens, m - 1);
      }
    }
  }

  /** Index k of the block of length l. */
  function Slot(cnt: seq<nat>, l: nat, k: nat): nat
    requires l <= |cnt|
  {
    Start(cnt, l) + k
  }

  /** The symbols among the first m with a code of length l sit at the
      start of the block of length l, in increasing order. */
  ghost predicate Placed(s: seq<int>, cnt: seq<nat>, lens: seq<int>, m: nat)
    requires m <= |lens| && |cnt| == MaxLength + 1
  {
    forall l, k :: 1 <= l <= MaxLength && 0 <= k < Count(lens[..m], l) ==>
      (Slot(cnt, l, k) < |s| && s[Slot(cnt, l, k)] == SymbolsOfLength(lens[..m], l)[k])
  }

  /** Adding symbol m to the prefix adds it to the list of its length only. */
  lemma PlaceCounts(lens: seq<int>, m: nat)
    requires m < |lens|
    ensures forall l ::
      SymbolsOfLength(lens[..m + 1], l) == SymbolsOfLength(lens[..m], l) + (if lens[m] == l then [m] else [])
  {
    forall l
      ensures SymbolsOfLength(lens[..m + 1], l) == SymbolsOfLength(lens[..m], l) + (if lens[m] == l then [m] else [])
    {
      SymbolsOfLengthSnoc(lens, m, l);
    }
  }

  /** The index where symbol m goes lies in the block of its length, inside
      the sorted array. */
  lemma PlaceBound(cnt: seq<nat>, lens: seq<int>, m: nat)
    requires ValidLengths(lens) && Counted(cnt, lens) && m < |lens| && lens[m] != 0
    ensures Slot(cnt, lens[m], Count(lens[..m], lens[m])) < Start(cnt, lens[m] + 1)
    ensures Start(cnt, lens[m] + 1) <= Start(cnt, MaxLength + 1) <= |lens|
  {
    SymbolIndex(lens, m);
    StartGrows(cnt, lens[m] + 1, MaxLength + 1);
    CanonicalUpToStart(cnt, lens, MaxLength);
    CanonicalUpToSize(lens, MaxLength);
  }

  lemma PlaceStep(before: seq<int>, after: seq<int>, cnt: seq<nat>, lens: seq<int>, m: nat)
    requires ValidLengths(lens) && Counted(cnt, lens) && m < |lens| && lens[m] != 0
    requires Placed(before, cnt, lens, m)
    requires Slot(cnt, lens[m], Count(lens[..m], lens[m])) < |before|
    requires after == before[Slot(cnt, lens[m], Count(lens[..m], lens[m])) := m]
    ensures Placed(after, cnt, lens, m + 1)
  {
    var m1 := m + 1;
    var pos := Slot(cnt, lens[m], Count(lens[..m], lens[m]));
    forall l, k | 1 <= l <= MaxLength && 0 <= k < Count(lens[..m1], l)
      ensures Slot(cnt, l, k) < |after| && after[Slot(cnt, l, k)] == SymbolsOfLength(lens[..m1], l)[k]
    {
      PlaceStepAt(before, after, cnt, lens, m, m1, pos, l, k);
    }
  }

  /** Symbol m lands at pos; every other placed symbol stays where it was. */
  lemma PlaceStepAt(before: seq<int>, after: seq<int>, cnt: seq<nat>, lens: seq<int>, m: nat, m1: nat, pos: nat,
                    l: int, k: nat)
    requires ValidLengths(lens) && Counted(cnt, lens) && m < |lens| && lens[m] != 0 && m1 == m + 1
    requires pos == Slot(cnt, lens[m], Count(lens[..m], lens[m])) && pos < |before| && after == before[pos := m]
    requires 1 <= l <= MaxLength && k < Count(lens[..m1], l)
    requires k < Count(lens[..m], l) ==>
      Slot(cnt, l, k) < |before| && before[Slot(cnt, l, k)] == SymbolsOfLength(lens[..m], l)[k]
    ensures Slot(cnt, l, k) < |after| && after[Slot(cnt, l, k)] == SymbolsOfLength(lens[..m1], l)[k]
  {
    var l0 := lens[m];
    SymbolsOfLengthSnoc(lens, m, l);
    if l == l0 && k == Count(lens[..m], l0) {
      assert Slot(cnt, l, k) == pos;
    } else {
      assert Slot(cnt, l, k) != pos by {
        SymbolIndex(lens, m);
        SymbolsOfLengthPrefix(lens, m1, l);
        SlotInBlock(cnt, lens, l, k);
        SlotInBlock(cnt, lens, l0, Count(lens[..m], l0));
        if l != l0 {
          BlocksDisjoint(cnt, l, l0, Slot(cnt, l, k), pos);
        }
      }
      assert k < Count(lens[..m], l);
    }
  }

  /** Index k of the block of length l lies inside that block. */
  lemma SlotInBlock(cnt: seq<nat>, lens: seq<int>, l: int, k: nat)
    requires Counted(cnt, lens) && 1 <= l <= MaxLength && k < Count(lens, l)
    ensures Start(cnt, l) <= Slot(cnt, l, k) < Start(cnt, l + 1)
  {
    assert cnt[l] == Count(lens, l);
  }

  /** The blocks of two different lengths do not overlap. */
  lemma BlocksDisjoint(cnt: seq<nat>, l: int, l0: int, x: int, y: int)
    requires 1 <= l <= MaxLength && 1 <= l0 <= MaxLength && l != l0 && |cnt| == MaxLength + 1
    requires Start(cnt, l) <= x < Start(cnt, l + 1) && Start(cnt, l0) <= y < Start(cnt, l0 + 1)
    ensures x != y
  {
    if l < l0 {
      StartGrows(cnt, l + 1, l0);
    } else {
      StartGrows(cnt, l0 + 1, l);
    }
  }

  lemma PlaceSkip(s: seq<int>, cnt: seq<nat>, lens: seq<int>, m: nat)
    requires |cnt| == MaxLength + 1 && m < |lens| && lens[m] == 0
    requires Placed(s, cnt, lens, m)
    ensures Placed(s, cnt, lens, m + 1)
  {
    PlaceCounts(lens, m);
  }

  /** Once every symbol is placed, the sorted array starts with the
      canonical order. */
  lemma PlacedCanonical(s: seq<int>, cnt: seq<nat>, lens: seq<int>)
    requires ValidLengths(lens) && Counted(cnt, lens)
    requires Placed(s, cnt, lens, |lens|)
    requires Start(cnt, MaxLength + 1) <= |s|
    ensures s[..Start(cnt, MaxLength + 1)] == CanonicalOrder(lens)
  {
    var n := Start(cnt, MaxLength + 1);
    CanonicalUpToStart(cnt, lens, MaxLength);
    forall i | 0 <= i < n
      ensures s[i] == CanonicalOrder(lens)[i]
    {
      var l := StartRange(cnt, MaxLength, i);
      var k := i - Start(cnt, l);
      PlacedAt(s, cnt, lens, l, k, i);
      CanonicalAt(cnt, lens, l, k, i);
    }
  }

  lemma PlacedAt(s: seq<int>, cnt: seq<nat>, lens: seq<int>, l: int, k: nat, i: nat)
    requires Counted(cnt, lens) && Placed(s, cnt, lens, |lens|)
    requires 1 <= l <= MaxLength && k < cnt[l] && i == Slot(cnt, l, k)
    ensures k < Count(lens, l) && i < |s| && s[i] == SymbolsOfLength(lens, l)[k]
  {
    assert lens[..|lens|] == lens;
  }

  lemma CanonicalAt(cnt: seq<nat>, lens: seq<int>, l: int, k: nat, i: nat)
    requires Counted(cnt, lens)
    requires 1 <= l <= MaxLength && k < cnt[l] && i == Slot(cnt, l, k)
    ensures i < |CanonicalOrder(lens)| && CanonicalOrder(lens)[i] == SymbolsOfLength(lens, l)[k]
  {
    CanonicalUpToSlot(cnt, lens, MaxLength, l, k, i);
  }

  lemma CanonicalUpToSlot(cnt: seq<nat>, lens: seq<int>, u: int, l: int, k: nat, i: nat)
    requires Counted(cnt, lens)
    requires 1 <= l <= u && l <= MaxLength && k < cnt[l] && i == Slot(cnt, l, k)
    ensures i < |CanonicalUpTo(lens, u)| && CanonicalUpTo(lens, u)[i] == SymbolsOfLength(lens, l)[k]
  {
    var p := l - 1;
    CanonicalUpToStart(cnt, lens, p);
    assert p + 1 == l;
    assert k < |SymbolsOfLength(lens, l)| by { assert cnt[l] == Count(lens, l); }
    CanonicalUpToAt(lens, u, l, k, p, i);
  }

  // ---------------------------------------------------------------------
  // The root table

  /** Fills the root table with the codes of length 1..R, in canonical
      order: code i goes to every root slot whose share of the code space
      lies in code i's share.  Afterwards symbol is the number of codes of
      length at most R and key is the key of the first longer code. */
  method FillRoot(table: array<int>, off: int, R: int, sorted: array<int>, count: array<int>,
                  ghost cnt: seq<nat>, ghost top: nat, ghost ls: seq<int>)
    returns (key: int, symbol: int)
    requires LaidCodes(cnt, top, ls) && 1 <= R <= top && |ls| <= sorted.Length
    requires count.Length == |cnt| && forall l :: 0 <= l < |cnt| ==> count[l] == cnt[l]
    requires 0 <= off && off + Pow2(R) <= table.Length
    requires table != sorted && table != count && sorted != count
    modifies table, count
    ensures forall l :: 0 <= l < |cnt| ==> count[l] == if 1 <= l <= R then 0 else cnt[l]
    ensures symbol == Start(cnt, R + 1) && symbol <= |ls| && 0 <= key
    ensures symbol < |ls| ==> key == Rev(Pos(ls, symbol), MaxLength)
    ensures RootFilled(table[..], old(table[..]), off, R, ls, sorted[..], symbol)
  {
    ghost var t0 := table[..];
    LengthsUpToSize(cnt, top);
    RevZero(MaxLength);
    key, symbol := 0, 0;
    var step := 1;
    var len := 1;
    while len <= R
      invariant 1 <= len <= R + 1 && step == Pow2(len - 1)
      invariant forall l :: 0 <= l < |cnt| ==> count[l] == if 1 <= l < len then 0 else cnt[l]
      invariant symbol == Start(cnt, len) && symbol <= |ls| && 0 <= key
      invariant symbol < |ls| ==> key == Rev(Pos(ls, symbol), MaxLength)
      invariant RootFilled(table[..], t0, off, R, ls, sorted[..], symbol)
    {
      step := step * 2;  // step <<= 1
      var nextLen := len + 1;
      key, symbol := FillRootLength(table, off, R, sorted, count, len, step, key, symbol, cnt, top, ls, t0, nextLen);
      len := nextLen;
    }
  }

  /** Writes the entry of code `symbol` (of length len) into every root slot
      whose low len bits are its reversed code `key`, and steps to the key
      of the next code. */
  method PlaceCode(table: array<int>, off: int, R: int, sorted: array<int>, len: int, step: int, key: int,
                   symbol: int, ghost cnt: seq<nat>, ghost top: nat, ghost ls: seq<int>, ghost t0: seq<int>,
                   ghost following: int)
    returns (next: int)
    requires LaidCodes(cnt, top, ls) && 1 <= len <= R <= top && |ls| <= sorted.Length && step == Pow2(len)
    requires Start(cnt, len) <= symbol < Start(cnt, len + 1) && symbol < |ls| && key == Rev(Pos(ls, symbol), MaxLength)
    requires 0 <= off && off + Pow2(R) <= table.Length && |t0| == table.Length && table != sorted
    requires RootFilled(table[..], t0, off, R, ls, sorted[..], symbol) && following == symbol + 1
    modifies table
    ensures RootFilled(table[..], t0, off, R, ls, sorted[..], following)
    ensures 0 <= next && (following < |ls| ==> next == Rev(Pos(ls, following), MaxLength))
  {
    ghost var t1 := table[..];
    LaidIs(cnt, top, ls);
    LengthIs(cnt, top, ls, symbol, len);
    KeyBound(cnt, top, ls, symbol);
    Pow2OnStride(len, R);
    var item := Entry(len, sorted[symbol]);  // len << 16 | sorted[symbol]
    var base, size := off + key, Pow2(R);
    ReplicateValue(table, base, step, size, item);
    RootStep(t1, table[..], t0, off, R, cnt, top, ls, sorted[..], symbol, key, step, item, base, size);
    next := GetNextKey(key, len);
    if symbol + 1 < |ls| {
      KeyAdvance(cnt, top, ls, symbol, key, next);
    }
  }

  /** The inner loop of FillRoot: the codes of length len, each replicated
      with stride step = 2^len over the root table. */
  method FillRootLength(table: array<int>, off: int, R: int, sorted: array<int>, count: array<int>,
                        len: int, step: int, key0: int, symbol0: int,
                        ghost cnt: seq<nat>, ghost top: nat, ghost ls: seq<int>, ghost t0: seq<int>,
                        ghost nextLen: int)
    returns (key: int, symbol: int)
    requires LaidCodes(cnt, top, ls) && 1 <= len <= R <= top && |ls| <= sorted.Length && step == Pow2(len)
    requires count.Length == |cnt| && count[len] == cnt[len]
    requires 0 <= off && off + Pow2(R) <= table.Length && |t0| == table.Length
    requires table != sorted && table != count && sorted != count
    requires symbol0 == Start(cnt, len) <= |ls| && 0 <= key0 && (symbol0 < |ls| ==> key0 == Rev(Pos(ls, symbol0), MaxLength))
    requires RootFilled(table[..], t0, off, R, ls, sorted[..], symbol0) && nextLen == len + 1
    modifies table, count
    ensures count[len] == 0 && forall l :: 0 <= l < count.Length && l != len ==> count[l] == old(count[l])
    ensures symbol == Start(cnt, nextLen) <= |ls| && 0 <= key && (symbol < |ls| ==> key == Rev(Pos(ls, symbol), MaxLength))
    ensures RootFilled(table[..], t0, off, R, ls, sorted[..], symbol)
  {
    LengthsUpToSize(cnt, top);
    StartGrows(cnt, len + 1, top + 1);
    key, symbol := key0, symbol0;
    while count[len] > 0
      invariant Start(cnt, len) <= symbol <= |ls| && 0 <= count[len] && symbol + count[len] == Start(cnt, len + 1)
      invariant forall l :: 0 <= l < count.Length && l != len ==> count[l] == old(count[l])
      invariant 0 <= key && (symbol < |ls| ==> key == Rev(Pos(ls, symbol), MaxLength))
      invariant RootFilled(table[..], t0, off, R, ls, sorted[..], symbol)
    {
      var following := symbol + 1;
      key := PlaceCode(table, off, R, sorted, len, step, key, symbol, cnt, top, ls, t0, following);
      symbol := following;
      ghost var placed := table[..];
      count[len] := count[len] - 1;
      assert table[..] == placed;
    }
  }
}
