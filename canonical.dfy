/** Canonical prefix codes as section 3.2 of RFC 7932 assigns them: the
    symbols with a non-zero code length, ordered by (length, symbol), get
    consecutive code values, starting for each length at next_code[len]. */
module CanonicalCode {
  import opened Binary

  /** The longest code length Brotli allows. */
  const MaxLength := 15

  /** The size of the code space, 2^MaxLength: a complete code has Kraft
      sum CodeSpace. */
  const CodeSpace := 0x8000

  lemma CodeSpaceIs()
    ensures Pow2(MaxLength) == CodeSpace
  {
    assert Pow2(5) == 32;
    Pow2Add(5, 5);
    Pow2Add(10, 5);
  }

  /** The symbols (indices of lens) whose code length is l, in increasing
      order. */
  function SymbolsOfLength(lens: seq<int>, l: int): seq<int>
  {
    if lens == [] then []
    else SymbolsOfLength(lens[..|lens| - 1], l) + (if lens[|lens| - 1] == l then [|lens| - 1] else [])
  }

  /** The number of symbols whose code length is l (bl_count[l] in RFC 7932). */
  function Count(lens: seq<int>, l: int): nat
  {
    |SymbolsOfLength(lens, l)|
  }

  /** The symbols of lengths 1..upTo, ordered by (length, symbol). */
  function CanonicalUpTo(lens: seq<int>, upTo: int): seq<int>
    decreases upTo
  {
    if upTo <= 0 then [] else CanonicalUpTo(lens, upTo - 1) + SymbolsOfLength(lens, upTo)
  }

  /** Every symbol that has a code, in the order codes are assigned. */
  function CanonicalOrder(lens: seq<int>): seq<int>
  {
    CanonicalUpTo(lens, MaxLength)
  }

  /** bl_count of RFC 7932: the number of symbols of each length 0..15. */
  function BlCount(lens: seq<int>): (cnt: seq<nat>)
    ensures |cnt| == MaxLength + 1
    ensures forall l :: 0 <= l <= MaxLength ==> cnt[l] == Count(lens, l)
  {
    seq(MaxLength + 1, l => Count(lens, l))
  }

  /** cnt holds the bl_count of lens. */
  predicate Counted(cnt: seq<nat>, lens: seq<int>)
  {
    |cnt| == MaxLength + 1 && forall l :: 0 <= l <= MaxLength ==> cnt[l] == Count(lens, l)
  }

  /** next_code[bits] of RFC 7932, section 3.2:
      code = (code + bl_count[bits - 1]) << 1, with bl_count[0] taken as 0. */
  function NextCode(cnt: seq<nat>, bits: nat): nat
    requires bits < |cnt|
  {
    if bits <= 1 then 0 else 2 * (NextCode(cnt, bits - 1) + cnt[bits - 1])
  }

  /** The number of codes shorter than l, that is of lengths 1..l-1. */
  function Start(cnt: seq<nat>, l: nat): nat
    requires l <= |cnt|
  {
    if l <= 1 then 0 else Start(cnt, l - 1) + cnt[l - 1]
  }

  /** The code value of symbol s: next_code of its length, plus the number
      of earlier symbols of the same length. */
  function Code(lens: seq<int>, s: nat): nat
    requires s < |lens| && 1 <= lens[s] <= MaxLength
  {
    NextCode(BlCount(lens), lens[s]) + Count(lens[..s], lens[s])
  }

  /** Code lengths are valid when each is in 0..15. */
  predicate ValidLengths(lens: seq<int>)
  {
    forall s :: 0 <= s < |lens| ==> 0 <= lens[s] <= MaxLength
  }

  /** The Kraft sum of the lengths 1..15 in units of 2^-15: the code space
      the code uses. 2^15 means the code is complete. */
  function KraftSum(cnt: seq<nat>): nat
    requires |cnt| == MaxLength + 1
  {
    NextCode(cnt, MaxLength) + cnt[MaxLength]
  }

  // ---------------------------------------------------------------------
  // Properties of SymbolsOfLength and CanonicalUpTo

  lemma {:induction false} SymbolsOfLengthMembers(lens: seq<int>, l: int)
    ensures forall s :: s in SymbolsOfLength(lens, l) <==> 0 <= s < |lens| && lens[s] == l
    ensures forall i, j :: 0 <= i < j < |SymbolsOfLength(lens, l)| ==>
      SymbolsOfLength(lens, l)[i] < SymbolsOfLength(lens, l)[j]
  {
    if lens != [] {
      var init := lens[..|lens| - 1];
      SymbolsOfLengthMembers(init, l);
      var prev, all := SymbolsOfLength(init, l), SymbolsOfLength(lens, l);
      forall i, j | 0 <= i < j < |all|
        ensures all[i] < all[j]
      {
        if j >= |prev| {
          assert all[i] in prev;
        }
      }
    }
  }

  /** Extending the lengths by one symbol extends each list by at most that
      symbol. */
  lemma SymbolsOfLengthSnoc(lens: seq<int>, k: nat, l: int)
    requires k < |lens|
    ensures SymbolsOfLength(lens[..k + 1], l)
      == SymbolsOfLength(lens[..k], l) + (if lens[k] == l then [k] else [])
  {
    assert lens[..k + 1][..k] == lens[..k];
  }

  /** The symbols of length l among the first m are a prefix of all the
      symbols of length l. */
  lemma {:induction false} SymbolsOfLengthPrefix(lens: seq<int>, m: nat, l: int)
    requires m <= |lens|
    ensures Count(lens[..m], l) <= Count(lens, l)
    ensures SymbolsOfLength(lens, l)[..Count(lens[..m], l)] == SymbolsOfLength(lens[..m], l)
    decreases |lens| - m
  {
    if m < |lens| {
      SymbolsOfLengthSnoc(lens, m, l);
      SymbolsOfLengthPrefix(lens, m + 1, l);
      var all, shorter := SymbolsOfLength(lens, l), SymbolsOfLength(lens[..m + 1], l);
      assert all[..Count(lens[..m], l)] == shorter[..Count(lens[..m], l)];
    } else {
      assert lens[..m] == lens;
    }
  }

  /** A symbol's rank among the symbols of its length is the number of
      smaller symbols of that length. */
  lemma SymbolRank(lens: seq<int>, l: int, k: nat)
    requires k < Count(lens, l)
    ensures 0 <= SymbolsOfLength(lens, l)[k] < |lens|
    ensures Count(lens[..SymbolsOfLength(lens, l)[k]], l) == k
  {
    var all := SymbolsOfLength(lens, l);
    var s := all[k];
    SymbolsOfLengthMembers(lens, l);
    assert s in all;
    var j := Count(lens[..s], l);
    SymbolsOfLengthSnoc(lens, s, l);
    SymbolsOfLengthPrefix(lens, s + 1, l);
    assert all[j] == s;
  }

  lemma {:induction false} CanonicalUpToPrefix(lens: seq<int>, a: int, b: int)
    requires a <= b
    ensures |CanonicalUpTo(lens, a)| <= |CanonicalUpTo(lens, b)|
    ensures CanonicalUpTo(lens, b)[..|CanonicalUpTo(lens, a)|] == CanonicalUpTo(lens, a)
    decreases b - a
  {
    if a < b && b > 0 {
      CanonicalUpToPrefix(lens, a, b - 1);
    }
  }

  lemma {:induction false} CanonicalUpToGrows(lens: seq<int>, a: int, b: int)
    requires a <= b
    ensures |CanonicalUpTo(lens, a)| <= |CanonicalUpTo(lens, b)|
    decreases b - a
  {
    if a < b && b > 0 {
      CanonicalUpToGrows(lens, a, b - 1);
    }
  }

  /** Membership: a symbol is listed exactly when its length is in 1..upTo. */
  lemma {:induction false} CanonicalUpToMembers(lens: seq<int>, upTo: int)
    ensures forall s :: s in CanonicalUpTo(lens, upTo) <==> 0 <= s < |lens| && 1 <= lens[s] <= upTo
    decreases upTo
  {
    if upTo > 0 {
      CanonicalUpToMembers(lens, upTo - 1);
      SymbolsOfLengthMembers(lens, upTo);
    }
  }

  /** Symbol a gets its code before symbol b: a shorter code, or the same
      length and a smaller symbol. */
  predicate Precedes(lens: seq<int>, a: int, b: int)
  {
    0 <= a < |lens| && 0 <= b < |lens| && (lens[a] < lens[b] || (lens[a] == lens[b] && a < b))
  }

  /** The order: by length, and by symbol within a length. */
  lemma {:induction false} CanonicalUpToSorted(lens: seq<int>, upTo: int)
    ensures forall i, j :: 0 <= i < j < |CanonicalUpTo(lens, upTo)| ==>
      Precedes(lens, CanonicalUpTo(lens, upTo)[i], CanonicalUpTo(lens, upTo)[j])
    decreases upTo
  {
    if upTo > 0 {
      var prev, last := CanonicalUpTo(lens, upTo - 1), SymbolsOfLength(lens, upTo);
      CanonicalUpToSorted(lens, upTo - 1);
      CanonicalUpToMembers(lens, upTo - 1);
      SymbolsOfLengthMembers(lens, upTo);
      var all := prev + last;
      forall i, j | 0 <= i < j < |all|
        ensures Precedes(lens, all[i], all[j])
      {
        if j < |prev| {
          assert all[i] == prev[i] && all[j] == prev[j];
        } else if i < |prev| {
          assert all[i] in prev;
          assert all[j] in last;
        } else {
          assert all[i] == last[i - |prev|];
          assert all[j] == last[j - |prev|];
          assert all[i] in last && all[j] in last;
        }
      }
    }
  }

  /** The length of the canonical list is the sum of the counts. */
  lemma CanonicalUpToLength(lens: seq<int>, upTo: int)
    requires upTo >= 1
    ensures |CanonicalUpTo(lens, upTo)| == |CanonicalUpTo(lens, upTo - 1)| + Count(lens, upTo)
  {
  }

  /** offset[l] of the table builder: the symbols of length l start at
      index Start(bl_count, l) of the canonical order. */
  lemma {:induction false} CanonicalUpToStart(cnt: seq<nat>, lens: seq<int>, u: int)
    requires Counted(cnt, lens) && 0 <= u <= MaxLength
    ensures |CanonicalUpTo(lens, u)| == Start(cnt, u + 1)
    decreases u
  {
    if u > 0 {
      CanonicalUpToStart(cnt, lens, u - 1);
    }
  }

  /** The canonical list for no symbols is empty. */
  lemma {:induction false} CanonicalUpToEmpty(u: int)
    ensures CanonicalUpTo([], u) == []
    decreases u
  {
    if u > 0 {
      CanonicalUpToEmpty(u - 1);
    }
  }

  /** Adding a symbol at the end adds one code exactly when its length is
      in 1..u. */
  lemma {:induction false} CanonicalUpToSnoc(lens: seq<int>, u: int)
    requires lens != []
    ensures |CanonicalUpTo(lens, u)|
      == |CanonicalUpTo(lens[..|lens| - 1], u)| + (if 1 <= lens[|lens| - 1] <= u then 1 else 0)
    decreases u
  {
    if u > 0 {
      CanonicalUpToSnoc(lens, u - 1);
    }
  }

  /** Each symbol gets at most one code. */
  lemma {:induction false} CanonicalUpToSize(lens: seq<int>, u: int)
    ensures |CanonicalUpTo(lens, u)| <= |lens|
    decreases |lens|
  {
    if lens == [] {
      CanonicalUpToEmpty(u);
    } else {
      CanonicalUpToSnoc(lens, u);
      CanonicalUpToSize(lens[..|lens| - 1], u);
    }
  }

  /** The k-th symbol of length l follows the codes of lengths 1..l-1 in
      the canonical order. */
  lemma {:induction false} CanonicalUpToAt(lens: seq<int>, u: int, l: int, k: nat, p: int, at: int)
    requires 1 <= l <= u && k < |SymbolsOfLength(lens, l)|
    requires p == l - 1 && at == |CanonicalUpTo(lens, p)| + k
    ensures 0 <= at < |CanonicalUpTo(lens, u)|
    ensures CanonicalUpTo(lens, u)[at] == SymbolsOfLength(lens, l)[k]
    decreases u
  {
    var u1 := u - 1;
    var prev, last := CanonicalUpTo(lens, u1), SymbolsOfLength(lens, u);
    assert CanonicalUpTo(lens, u) == prev + last;
    if u > l {
      CanonicalUpToAt(lens, u1, l, k, p, at);
      assert (prev + last)[at] == prev[at];
    } else {
      assert prev == CanonicalUpTo(lens, p);
      assert (prev + last)[at] == last[k];
    }
  }

  /** Symbol s is the Count(lens[..s], l)-th symbol of its length l. */
  lemma SymbolIndex(lens: seq<int>, s: nat)
    requires s < |lens|
    ensures Count(lens[..s], lens[s]) < Count(lens, lens[s])
    ensures SymbolsOfLength(lens, lens[s])[Count(lens[..s], lens[s])] == s
  {
    SymbolsOfLengthSnoc(lens, s, lens[s]);
    SymbolsOfLengthPrefix(lens, s + 1, lens[s]);
  }

  /** Every index below Start(u + 1) lies in the block of one length. */
  lemma {:induction false} StartRange(cnt: seq<nat>, u: nat, i: nat) returns (l: nat)
    requires 1 <= u < |cnt| && i < Start(cnt, u + 1)
    ensures 1 <= l <= u && Start(cnt, l) <= i < Start(cnt, l + 1)
    decreases u
  {
    if Start(cnt, u) <= i {
      l := u;
    } else {
      l := StartRange(cnt, u - 1, i);
    }
  }

  // ---------------------------------------------------------------------
  // Positions in the code space

  /** The code lengths in canonical order for the counts cnt: cnt[1] ones,
      then cnt[2] twos, and so on up to upTo. */
  function LengthsUpTo(cnt: seq<nat>, upTo: int): seq<int>
    requires upTo < |cnt|
    decreases upTo
  {
    if upTo <= 0 then [] else LengthsUpTo(cnt, upTo - 1) + seq(cnt[upTo], _ => upTo)
  }

  /** The code lengths of the symbols of lens in canonical order. */
  function Lengths(lens: seq<int>): seq<int>
  {
    LengthsUpTo(BlCount(lens), MaxLength)
  }

  /** The share of the code space [0, 2^15) taken by a code of length l. */
  function Width(l: int): nat
  {
    if 1 <= l <= MaxLength then Pow2(MaxLength - l) else 0
  }

  /** Where the i-th code of a sequence of code lengths starts in the code
      space: the sum of the widths of the codes before it. */
  function Pos(ls: seq<int>, i: nat): nat
    requires i <= |ls|
  {
    if i == 0 then 0 else Pos(ls, i - 1) + Width(ls[i - 1])
  }

  lemma {:induction false} LengthsUpToSize(cnt: seq<nat>, u: int)
    requires 0 <= u < |cnt|
    ensures |LengthsUpTo(cnt, u)| == Start(cnt, u + 1)
    decreases u
  {
    if u > 0 {
      LengthsUpToSize(cnt, u - 1);
    }
  }

  /** The lengths in canonical order are l at indices Start(l) up to
      Start(l + 1). */
  lemma {:induction false} LengthsUpToShape(cnt: seq<nat>, u: int, l: int, i: int)
    requires 1 <= l <= u < |cnt|
    requires Start(cnt, l) <= i < Start(cnt, l + 1)
    ensures |LengthsUpTo(cnt, u)| == Start(cnt, u + 1)
    ensures i < |LengthsUpTo(cnt, u)| && LengthsUpTo(cnt, u)[i] == l
    decreases u
  {
    LengthsUpToSize(cnt, u);
    if u > l {
      LengthsUpToShape(cnt, u - 1, l, i);
    } else {
      LengthsUpToSize(cnt, u - 1);
    }
  }

  lemma {:induction false} StartGrows(cnt: seq<nat>, a: nat, b: nat)
    requires a <= b <= |cnt|
    ensures Start(cnt, a) <= Start(cnt, b)
    decreases b
  {
    if a < b {
      StartGrows(cnt, a, b - 1);
    }
  }

  /** Where the code value c of length l starts in the code space:
      c * 2^(15 - l), written as l doublings so that it stays linear. */
  function Scaled(c: nat, l: int): nat
    decreases MaxLength - l
  {
    if l >= MaxLength then c else 2 * Scaled(c, l + 1)
  }

  /** Inside a run of codes of length l that starts at index s and code
      value c, the k-th code starts at (c + k) * 2^(15 - l). */
  lemma {:induction false} PosRun(ls: seq<int>, s: nat, c: nat, l: int, k: nat)
    requires 1 <= l <= MaxLength && s + k <= |ls|
    requires forall i :: s <= i < s + k ==> ls[i] == l
    requires Pos(ls, s) == Scaled(c, l)
    ensures Pos(ls, s + k) == Scaled(c + k, l)
    decreases k
  {
    if k > 0 {
      var k1 := k - 1;
      var i, d := s + k1, c + k1;
      PosRun(ls, s, c, l, k1);
      assert ls[i] == l;
      assert Pos(ls, i + 1) == Pos(ls, i) + Width(l);
      ScaledSucc(d, l);
      assert i + 1 == s + k && d + 1 == c + k;
    }
  }

  /** The first code of length l starts at next_code[l] * 2^(15 - l).  The
      lemma is stated for the lengths up to any top, so that no literal
      bound is unfolded. */
  lemma {:induction false} PosBlockStart(cnt: seq<nat>, top: int, l: int)
    requires 1 <= l <= top <= MaxLength && top < |cnt|
    ensures Start(cnt, l) <= |LengthsUpTo(cnt, top)|
    ensures Pos(LengthsUpTo(cnt, top), Start(cnt, l)) == Scaled(NextCode(cnt, l), l)
    decreases l, 0
  {
    assert Start(cnt, l) <= |LengthsUpTo(cnt, top)| by {
      LengthsUpToSize(cnt, top);
      StartGrows(cnt, l, top + 1);
    }
    if l > 1 {
      var prev := NextCode(cnt, l - 1) + cnt[l - 1];
      assert Start(cnt, l) == Start(cnt, l - 1) + cnt[l - 1];
      assert NextCode(cnt, l) == 2 * prev;
      PosBlock(cnt, top, l - 1, cnt[l - 1]);
      ScaledDouble(prev, l);
    } else {
      assert Start(cnt, l) == 0 && NextCode(cnt, l) == 0;
      ScaledTwice(0, l);
    }
  }

  /** The k-th code of length l starts at (next_code[l] + k) * 2^(15 - l). */
  lemma PosBlock(cnt: seq<nat>, top: int, l: int, k: nat)
    requires 1 <= l <= top <= MaxLength && top < |cnt| && k <= cnt[l]
    ensures Start(cnt, l) + k <= |LengthsUpTo(cnt, top)|
    ensures Pos(LengthsUpTo(cnt, top), Start(cnt, l) + k) == Scaled(NextCode(cnt, l) + k, l)
    decreases l, 1
  {
    assert Start(cnt, l) + k <= |LengthsUpTo(cnt, top)| by {
      LengthsUpToSize(cnt, top);
      StartGrows(cnt, l + 1, top + 1);
    }
    assert Pos(LengthsUpTo(cnt, top), Start(cnt, l) + k) == Scaled(NextCode(cnt, l) + k, l) by {
      PosBlockStart(cnt, top, l);
      BlockLengths(cnt, top, l, k);
      PosRun(LengthsUpTo(cnt, top), Start(cnt, l), NextCode(cnt, l), l, k);
    }
  }

  /** PosBlock for the index i == Start(cnt, l) + k and code value
      c == next_code[l] + k. */
  lemma PosAt(cnt: seq<nat>, top: int, i: nat, l: int, k: nat, c: nat)
    requires 1 <= l <= top <= MaxLength && top < |cnt| && k <= cnt[l]
    requires i == Start(cnt, l) + k && c == NextCode(cnt, l) + k
    ensures i <= |LengthsUpTo(cnt, top)|
    ensures Pos(LengthsUpTo(cnt, top), i) == Scaled(c, l)
  {
    PosBlock(cnt, top, l, k);
  }

  lemma BlockLengths(cnt: seq<nat>, top: int, l: int, k: nat)
    requires 1 <= l <= top < |cnt| && k <= cnt[l]
    ensures Start(cnt, l) + k <= |LengthsUpTo(cnt, top)|
    ensures forall i :: Start(cnt, l) <= i < Start(cnt, l) + k ==> LengthsUpTo(cnt, top)[i] == l
  {
    LengthsUpToSize(cnt, top);
    StartGrows(cnt, l + 1, top + 1);
    forall i | Start(cnt, l) <= i < Start(cnt, l) + k
      ensures LengthsUpTo(cnt, top)[i] == l
    {
      LengthsUpToShape(cnt, top, l, i);
    }
  }

  lemma {:induction false} ScaledSucc(c: nat, l: int)
    requires 1 <= l <= MaxLength
    ensures Scaled(c + 1, l) == Scaled(c, l) + Width(l)
    decreases MaxLength - l
  {
    if l < MaxLength {
      ScaledSucc(c, l + 1);
    }
  }

  lemma {:induction false} ScaledTwice(c: nat, l: int)
    ensures Scaled(2 * c, l) == 2 * Scaled(c, l)
    decreases MaxLength - l
  {
    if l < MaxLength {
      ScaledTwice(c, l + 1);
    }
  }

  lemma ScaledDouble(c: nat, l: int)
    requires 1 < l <= MaxLength
    ensures Scaled(c, l - 1) == Scaled(2 * c, l)
  {
    ScaledTwice(c, l);
  }

  /** Scaled preserves the order of code values of one length. */
  lemma {:induction false} ScaledLess(a: nat, b: nat, l: int)
    ensures a < b <==> Scaled(a, l) < Scaled(b, l)
    ensures a <= b <==> Scaled(a, l) <= Scaled(b, l)
    decreases MaxLength - l
  {
    if l < MaxLength {
      ScaledLess(a, b, l + 1);
    }
  }

  /** A code of length l starts where its extension by R - l zero bits
      starts. */
  lemma {:induction false} ScaledShift(c: nat, l: int, R: int)
    requires l <= R <= MaxLength
    ensures Scaled(c, l) == Scaled(c * Pow2(R - l), R)
    decreases R - l
  {
    if l < R {
      ScaledShift(2 * c, l + 1, R);
      ScaledTwice(c, l + 1);
      assert Pow2(R - l) == 2 * Pow2(R - (l + 1));
      MulDouble(c, Pow2(R - (l + 1)));
    }
  }

  /** Scaled is multiplication by 2^(15 - l). */
  lemma {:induction false} ScaledIsProduct(c: nat, l: int)
    requires l <= MaxLength
    ensures Scaled(c, l) == c * Pow2(MaxLength - l)
    decreases MaxLength - l
  {
    if l < MaxLength {
      ScaledIsProduct(c, l + 1);
      assert Pow2(MaxLength - l) == 2 * Pow2(MaxLength - (l + 1));
      MulDouble(c, Pow2(MaxLength - (l + 1)));
    }
  }

  /** Positions grow with the index. */
  lemma {:induction false} PosMonotone(ls: seq<int>, i: nat, j: nat)
    requires i <= j <= |ls|
    ensures Pos(ls, i) <= Pos(ls, j)
    decreases j
  {
    if i < j {
      PosMonotone(ls, i, j - 1);
    }
  }

  /** The whole code occupies Pos(n) of the code space, which is the Kraft
      sum of its lengths. */
  lemma PosEnd(cnt: seq<nat>)
    requires |cnt| == MaxLength + 1
    ensures Pos(LengthsUpTo(cnt, MaxLength), |LengthsUpTo(cnt, MaxLength)|) == KraftSum(cnt)
  {
    var ls := LengthsUpTo(cnt, MaxLength);
    assert |ls| == Start(cnt, MaxLength) + cnt[MaxLength] by {
      LengthsUpToSize(cnt, MaxLength);
    }
    PosBlock(cnt, MaxLength, MaxLength, cnt[MaxLength]);
  }
}
