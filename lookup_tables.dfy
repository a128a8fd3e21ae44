/** The two static tables the decoder derives at start-up: the unpacked
    insert-and-copy command table (section 5 of RFC 7932, with the distance
    context of section 7.2) and the context lookup table of the context
    modes (section 7.1 of RFC 7932). */
module LookupTables {
  import opened Binary

  // ---------------------------------------------------------------------
  // Constants of section 5 of RFC 7932

  /** A count of extra bits: at most 24. */
  type ExtraBits = b: nat | b <= 24

  /** A smallest insert length: it fits a signed 16-bit array element. */
  type InsertLength = v: nat | v < 0x8000

  /** A smallest copy length: at least 2, and it fits a signed 16-bit array
      element. */
  type CopyLength = v: int | 2 <= v < 0x8000 witness 2

  /** Extra bits of the insert length codes 0..23. */
  const InsertLengthNBits: seq<ExtraBits> :=
    [0, 0, 0, 0, 0, 0, 1, 1, 2, 2, 3, 3, 4, 4, 5, 5, 6, 7, 8, 9, 10, 12, 14, 24]

  /** Extra bits of the copy length codes 0..23. */
  const CopyLengthNBits: seq<ExtraBits> :=
    [0, 0, 0, 0, 0, 0, 0, 0, 1, 1, 2, 2, 3, 3, 4, 4, 5, 5, 6, 7, 8, 9, 10, 24]

  /** The smallest insert length of each insert length code, as RFC 7932
      lists it. */
  const InsertLengthOffsets: seq<InsertLength> :=
    [0, 1, 2, 3, 4, 5, 6, 8, 10, 14, 18, 26, 34, 50, 66, 98, 130, 194, 322, 578,
     1090, 2114, 6210, 22594]

  /** The smallest copy length of each copy length code, as RFC 7932 lists
      it. */
  const CopyLengthOffsets: seq<CopyLength> :=
    [2, 3, 4, 5, 6, 7, 8, 9, 10, 12, 14, 18, 22, 30, 38, 54, 70, 102, 134, 198,
     326, 582, 1094, 2118]

  /** The insert-and-copy code table of RFC 7932, section 5: command codes
      come in eleven blocks of 64; each block fixes the range (0..7, 8..15 or
      16..23) of its insert code and of its copy code.  The first two blocks
      also use the last distance implicitly. */
  function InsertRangeStart(block: nat): nat
  {
    match block
    case 4 | 5 | 8 => 8
    case 7 | 9 | 10 => 16
    case _ => 0
  }

  function CopyRangeStart(block: nat): nat
  {
    match block
    case 1 | 3 | 5 | 9 => 8
    case 6 | 8 | 10 => 16
    case _ => 0
  }

  const CommandCount := 704

  /** The insert length code of a command code, read from the RFC table. */
  function InsertCode(cmd: nat): (r: nat)
    requires cmd < CommandCount
    ensures r < 24
  {
    InsertRangeStart(cmd / 64) + (cmd / 8) % 8
  }

  /** The copy length code of a command code, read from the RFC table. */
  function CopyCode(cmd: nat): (r: nat)
    requires cmd < CommandCount
    ensures r < 24
  {
    CopyRangeStart(cmd / 64) + cmd % 8
  }

  /** The distance context of section 7.2 of RFC 7932 for a copy length:
      0, 1 and 2 for 2, 3 and 4, and 3 for anything longer. */
  function CopyLengthContext(len: int): int
  {
    if len > 4 then 3 else len - 2
  }

  /** The four entries the decoder keeps per command code, given the tables
      of extra bits and of smallest lengths of the insert and copy length
      codes: the extra bits of the insert and of the copy length (the latter
      shifted by 8), the smallest insert length, the smallest copy length,
      and the distance context. */
  function Entry(insertBits: seq<ExtraBits>, copyBits: seq<ExtraBits>,
                 insertOffsets: seq<int>, copyOffsets: seq<int>, cmd: nat, k: nat): int
    requires |insertBits| == |copyBits| == |insertOffsets| == |copyOffsets| == 24
    requires cmd < CommandCount && k < 4
  {
    var ic, cc := InsertCode(cmd), CopyCode(cmd);
    if k == 0 then insertBits[ic] as int + 256 * copyBits[cc] as int
    else if k == 1 then insertOffsets[ic]
    else if k == 2 then copyOffsets[cc]
    else (if cmd < 128 then -4 else 0) + CopyLengthContext(copyOffsets[cc])
  }

  /** The entries of RFC 7932's tables. */
  function CommandEntry(cmd: nat, k: nat): int
    requires cmd < CommandCount && k < 4
  {
    Entry(InsertLengthNBits, CopyLengthNBits, InsertLengthOffsets, CopyLengthOffsets, cmd, k)
  }

  /** The value stored into a signed 16-bit array element: v modulo 2^16,
      read back as a two's complement number. */
  function ToInt16(v: int): (r: int)
    ensures -0x8000 <= r < 0x8000
    ensures -0x8000 <= v < 0x8000 ==> r == v
  {
    var m := v % 0x1_0000;
    if m >= 0x8000 then m - 0x1_0000 else m
  }

  // ---------------------------------------------------------------------
  // unpackCommandLookupTable

  /** Each smallest length is the previous one plus 2^(extra bits of the
      previous code). */
  lemma OffsetsArePrefixSums(i: nat)
    requires i < 23
    ensures InsertLengthOffsets[i + 1] == InsertLengthOffsets[i] + Pow2(InsertLengthNBits[i])
    ensures CopyLengthOffsets[i + 1] == CopyLengthOffsets[i] + Pow2(CopyLengthNBits[i])
  {
    SmallPowers();
    if i < 12 {
      InsertPrefixLow(i);
      CopyPrefixLow(i);
    } else {
      InsertPrefixHigh(i);
      CopyPrefixHigh(i);
    }
  }

  lemma SmallPowers()
    ensures Pow2(0) == 1 && Pow2(1) == 2 && Pow2(2) == 4 && Pow2(3) == 8 && Pow2(4) == 16
    ensures Pow2(5) == 32 && Pow2(6) == 64 && Pow2(7) == 128 && Pow2(8) == 256
    ensures Pow2(9) == 512 && Pow2(10) == 1024 && Pow2(12) == 4096 && Pow2(14) == 16384
    ensures Pow2(16) == 65536
  {
    assert Pow2(8) == 256;
    assert Pow2(14) == 16384;
    assert Pow2(16) == 65536;
  }

  lemma InsertPrefixLow(i: nat)
    requires i < 12
    requires Pow2(0) == 1 && Pow2(1) == 2 && Pow2(2) == 4 && Pow2(3) == 8
    ensures InsertLengthOffsets[i + 1] == InsertLengthOffsets[i] + Pow2(InsertLengthNBits[i])
  {
  }

  lemma InsertPrefixHigh(i: nat)
    requires 12 <= i < 23
    requires Pow2(4) == 16 && Pow2(5) == 32 && Pow2(6) == 64 && Pow2(7) == 128 && Pow2(8) == 256
    requires Pow2(9) == 512 && Pow2(10) == 1024 && Pow2(12) == 4096 && Pow2(14) == 16384
    ensures InsertLengthOffsets[i + 1] == InsertLengthOffsets[i] + Pow2(InsertLengthNBits[i])
  {
  }

  lemma CopyPrefixLow(i: nat)
    requires i < 12
    requires Pow2(0) == 1 && Pow2(1) == 2 && Pow2(2) == 4
    ensures CopyLengthOffsets[i + 1] == CopyLengthOffsets[i] + Pow2(CopyLengthNBits[i])
  {
  }

  lemma CopyPrefixHigh(i: nat)
    requires 12 <= i < 23
    requires Pow2(3) == 8 && Pow2(4) == 16 && Pow2(5) == 32 && Pow2(6) == 64 && Pow2(7) == 128
    requires Pow2(8) == 256 && Pow2(9) == 512 && Pow2(10) == 1024
    ensures CopyLengthOffsets[i + 1] == CopyLengthOffsets[i] + Pow2(CopyLengthNBits[i])
  {
  }

  /** The packed two-bit fields 0x29850 and 0x26244 hold, for the blocks
      of the RFC table, the insert and copy code range divided by 8.  The
      block index b is folded onto 0..8 by subtracting 2 from b >= 2. */
  lemma RangeMagic(block: nat)
    requires block < 11
    ensures var r := if block >= 2 then block - 2 else block;
      (0x29850 / Pow2(r * 2)) % 4 * 8 == InsertRangeStart(block) &&
      (0x26244 / Pow2(r * 2)) % 4 * 8 == CopyRangeStart(block)
  {
    SmallPowers();
  }

  /** The four slots of command cmd are 4 * cmd + k for k < 4. */
  lemma CommandSlots(cmd: nat)
    ensures forall j :: 4 * cmd <= j < 4 * cmd + 4 ==> j / 4 == cmd && j % 4 == j - 4 * cmd
  {
    forall j | 4 * cmd <= j < 4 * cmd + 4
      ensures j / 4 == cmd && j % 4 == j - 4 * cmd
    {
      DivUnique(j, 4, cmd, j - 4 * cmd);
    }
  }

  /** The prefix sums of 2^bits[j] from base: what the first loop of
      unpackCommandLookupTable computes. */
  function PrefixOffset(bits: seq<ExtraBits>, base: int, i: nat): int
    requires i <= |bits|
  {
    if i == 0 then base else PrefixOffset(bits, base, i - 1) + Pow2(bits[i - 1])
  }

  /** The prefix sums of the extra bits are the smallest lengths that RFC
      7932 lists. */
  lemma {:induction false} PrefixOffsetsAreRfcOffsets(i: nat)
    requires i < 24
    ensures PrefixOffset(InsertLengthNBits, 0, i) == InsertLengthOffsets[i]
    ensures PrefixOffset(CopyLengthNBits, 2, i) == CopyLengthOffsets[i]
  {
    if i > 0 {
      PrefixOffsetsAreRfcOffsets(i - 1);
      OffsetsArePrefixSums(i - 1);
    }
  }

  /** Whatever holds the prefix sums of the insert extra bits from 0 is RFC
      7932's list of smallest insert lengths. */
  lemma InsertOffsetsAreRfc(offsets: seq<int>)
    requires |offsets| == 24
    requires forall j :: 0 <= j < 24 ==> offsets[j] == PrefixOffset(InsertLengthNBits, 0, j)
    ensures offsets == InsertLengthOffsets
  {
    forall j | 0 <= j < 24
      ensures offsets[j] == InsertLengthOffsets[j]
    {
      PrefixOffsetsAreRfcOffsets(j);
    }
  }

  /** The same for the copy extra bits from 2 and the smallest copy lengths. */
  lemma CopyOffsetsAreRfc(offsets: seq<int>)
    requires |offsets| == 24
    requires forall j :: 0 <= j < 24 ==> offsets[j] == PrefixOffset(CopyLengthNBits, 2, j)
    ensures offsets == CopyLengthOffsets
  {
    forall j | 0 <= j < 24
      ensures offsets[j] == CopyLengthOffsets[j]
    {
      PrefixOffsetsAreRfcOffsets(j);
    }
  }

  /** The smallest lengths of the 24 length codes: each is the previous
      one plus 2^(extra bits of the previous code), starting from base. */
  method LengthOffsets(bits: seq<ExtraBits>, base: int) returns (offsets: array<int>)
    requires |bits| == 24
    ensures fresh(offsets) && offsets.Length == 24
    ensures forall j :: 0 <= j < 24 ==> offsets[j] == PrefixOffset(bits, base, j)
  {
    offsets := new int[24];
    offsets[0] := base;
    for i := 0 to 23
      invariant forall j :: 0 <= j <= i ==> offsets[j] == PrefixOffset(bits, base, j)
    {
      offsets[i + 1] := offsets[i] + Pow2(bits[i]);  // offset + (1 << nbits)
    }
  }

  /** Fills the four entries of every command code from the given tables:
      the second loop of unpackCommandLookupTable. */
  method FillCommands(cmdLookup: array<int>, insertBits: seq<ExtraBits>, copyBits: seq<ExtraBits>,
                      insertOffsets: array<int>, copyOffsets: array<int>)
    requires cmdLookup.Length == 4 * CommandCount
    requires |insertBits| == |copyBits| == insertOffsets.Length == copyOffsets.Length == 24
    requires forall j :: 0 <= j < 24 ==> 0 <= insertOffsets[j] < 0x8000 && 2 <= copyOffsets[j] < 0x8000
    requires cmdLookup != insertOffsets && cmdLookup != copyOffsets
    modifies cmdLookup
    ensures forall j :: 0 <= j < cmdLookup.Length ==>
      cmdLookup[j] == Entry(insertBits, copyBits, insertOffsets[..], copyOffsets[..], j / 4, j % 4)
  {
    ghost var io, co := insertOffsets[..], copyOffsets[..];
    for cmdCode := 0 to CommandCount
      invariant forall j :: 0 <= j < 4 * cmdCode ==> cmdLookup[j] == Entry(insertBits, copyBits, io, co, j / 4, j % 4)
    {
      FillCommand(cmdLookup, cmdCode, insertBits, copyBits, insertOffsets, copyOffsets);
      CommandSlots(cmdCode);
    }
  }

  /** The body of that loop: the four entries of command code cmdCode. */
  method FillCommand(cmdLookup: array<int>, cmdCode: nat, insertBits: seq<ExtraBits>, copyBits: seq<ExtraBits>,
                     insertOffsets: array<int>, copyOffsets: array<int>)
    requires cmdLookup.Length == 4 * CommandCount && cmdCode < CommandCount
    requires |insertBits| == |copyBits| == insertOffsets.Length == copyOffsets.Length == 24
    requires forall j :: 0 <= j < 24 ==> 0 <= insertOffsets[j] < 0x8000 && 2 <= copyOffsets[j] < 0x8000
    requires cmdLookup != insertOffsets && cmdLookup != copyOffsets
    modifies cmdLookup
    ensures forall k :: 0 <= k < 4 ==>
      cmdLookup[4 * cmdCode + k] == Entry(insertBits, copyBits, insertOffsets[..], copyOffsets[..], cmdCode, k)
    ensures forall j :: 0 <= j < cmdLookup.Length && !(4 * cmdCode <= j < 4 * cmdCode + 4) ==>
      cmdLookup[j] == old(cmdLookup[j])
  {
    var rangeIdx := cmdCode / 64;  // cmdCode >>> 6
    var distanceContextOffset := -4;
    if rangeIdx >= 2 {
      rangeIdx := rangeIdx - 2;
      distanceContextOffset := 0;
    }
    RangeMagic(cmdCode / 64);
    // x << 3 | y with y < 8 is x * 8 + y
    var insertCode := (0x29850 / Pow2(rangeIdx * 2)) % 4 * 8 + (cmdCode / 8) % 8;
    var copyCode := (0x26244 / Pow2(rangeIdx * 2)) % 4 * 8 + cmdCode % 8;
    var copyLengthOffset := copyOffsets[copyCode];
    var distanceContext := distanceContextOffset +
      (if copyLengthOffset > 4 then 3 else copyLengthOffset - 2);
    var index := cmdCode * 4;
    // the insert bits are below 256, so | is +
    cmdLookup[index] := ToInt16(insertBits[insertCode] as int + copyBits[copyCode] as int * 256);
    cmdLookup[index + 1] := ToInt16(insertOffsets[insertCode]);
    cmdLookup[index + 2] := ToInt16(copyOffsets[copyCode]);
    cmdLookup[index + 3] := ToInt16(distanceContext);
  }

  /** Fills cmdLookup[4 * cmd .. 4 * cmd + 4] for every command code. */
  method UnpackCommandLookupTable(cmdLookup: array<int>)
    requires cmdLookup.Length == 4 * CommandCount
    modifies cmdLookup
    ensures forall j :: 0 <= j < cmdLookup.Length ==> cmdLookup[j] == CommandEntry(j / 4, j % 4)
  {
    var insertOffsets := LengthOffsets(InsertLengthNBits, 0);
    var copyOffsets := LengthOffsets(CopyLengthNBits, 2);
    InsertOffsetsAreRfc(insertOffsets[..]);
    CopyOffsetsAreRfc(copyOffsets[..]);
    FillCommands(cmdLookup, InsertLengthNBits, CopyLengthNBits, insertOffsets, copyOffsets);
  }

  // ---------------------------------------------------------------------
  // unpackLookupTable

  /** The context classes 0..15 of the bytes 0..127 for the first of the
      two previous bytes in UTF8 mode, one character per byte, each class
      stored as the character 32 + class. */
  const Utf8Map: string :=
    "         !!  !  " +
    "                " +
    "\"#$##%#$&'##(#)#" +
    "++++++++++((&*'#" +
    "#,---,---,-----," +
    "-----,-----&#'##" +
    "#.///.///./////." +
    "/////./////&#'# "

  /** The classes 0..3 of all 256 bytes for the second previous byte in
      UTF8 mode, run-length encoded: run k repeats the value k % 4, and its
      length is the character code minus 32. */
  const Utf8Rle: string := "A/*  ':  & : $  \U{81} @"

  const LookupSize := 2048

  /** The length of run k: the character code minus 32, and no entries at
      all when that is negative. */
  function RleRep(rle: string, k: nat): (r: nat)
    requires k < |rle|
    ensures r == rle[k] as int - 32 || (r == 0 && rle[k] as int < 32)
  {
    var n := rle[k] as int - 32;
    if n < 0 then 0 else n
  }

  /** The expansion of the first k runs of rle. */
  function RleUpTo(rle: string, k: nat): (s: seq<int>)
    requires k <= |rle|
  {
    if k == 0 then [] else RleUpTo(rle, k - 1) + seq(RleRep(rle, k - 1), _ => (k - 1) % 4)
  }

  /** The total length of the first k runs of rle. */
  function RleLength(rle: string, k: nat): nat
    requires k <= |rle|
  {
    if k == 0 then 0 else RleLength(rle, k - 1) + RleRep(rle, k - 1)
  }

  lemma {:induction false} RleUpToLength(rle: string, k: nat)
    requires k <= |rle|
    ensures |RleUpTo(rle, k)| == RleLength(rle, k)
  {
    if k > 0 {
      RleUpToLength(rle, k - 1);
    }
  }

  lemma {:induction false} RleLengthGrows(rle: string, k: nat, m: nat)
    requires k <= m <= |rle|
    ensures RleLength(rle, k) <= RleLength(rle, m)
    decreases m - k
  {
    if k < m {
      RleLengthGrows(rle, k, m - 1);
    }
  }

  /** The runs of the UTF8 string add up to 256 entries: the run-length
      part of the table fills exactly the entries 1280..1535. */
  lemma RleTotal()
    ensures RleLength(Utf8Rle, |Utf8Rle|) == 256
    ensures |RleUpTo(Utf8Rle, |Utf8Rle|)| == 256
  {
    RleLengths();
    RleUpToLength(Utf8Rle, |Utf8Rle|);
  }

  /** The signed-mode class of byte i, as the last writes of
      unpackLookupTable leave it: 0 for 0, 1 for 1..15, 2 + i / 64 for
      16..239, 6 for 240..254 and 7 for 255. */
  function SignedLut(i: nat): int
  {
    if i == 0 then 0
    else if i < 16 then 1
    else if i == 255 then 7
    else if i >= 240 then 6
    else 2 + i / 64
  }

  /** The entries of the lookup array that unpackLookupTable leaves as they
      were: the second halves of the LSB6 and MSB6 modes, whose context
      depends on the previous byte only. */
  predicate Unwritten(j: int)
  {
    256 <= j < 512 || 768 <= j < 1024
  }

  /** The value the runs give to byte b in the second UTF8 table. */
  function RleLookup(b: nat): int
    requires b < 256
  {
    RleTotal();
    RleUpTo(Utf8Rle, |Utf8Rle|)[b]
  }

  /** The entry that unpackLookupTable stores at j.  The array holds four
      context modes of 512 entries each (LSB6, MSB6, UTF8, signed); the
      first 256 entries of a mode are indexed by the previous byte, the
      last 256 by the byte before it. */
  function LookupEntry(j: nat): int
    requires j < LookupSize && !Unwritten(j)
  {
    if j < 256 then j % 64
    else if j < 768 then (j - 512) / 4
    else if j < 1152 then 4 * (Utf8Map[j - 1024] as int - 32)
    else if j < 1216 then (j - 1152) % 2
    else if j < 1280 then 2 + (j - 1216) % 2
    else if j < 1536 then RleLookup(j - 1280)
    else if j < 1792 then 8 * SignedLut(j - 1536)
    else SignedLut(j - 1792)
  }

  // The contents of the array after each loop of unpackLookupTable, as
  // functions of its contents before that loop.

  /** After i rounds of the first loop. */
  function ByteLoop(t: seq<int>, i: nat): (r: seq<int>)
    requires |t| == LookupSize && i <= 256
    ensures |r| == LookupSize
  {
    if i == 0 then t
    else var k := i - 1;
      ByteLoop(t, k)[k := k % 64][512 + k := k / 4][1792 + k := 2 + k / 64]
  }

  /** After i rounds of the loop over the map string. */
  function MapLoop(t: seq<int>, classes: string, i: nat): (r: seq<int>)
    requires |t| == LookupSize && i <= |classes| == 128
    ensures |r| == LookupSize
  {
    if i == 0 then t
    else MapLoop(t, classes, i - 1)[1024 + i - 1 := 4 * (classes[i - 1] as int - 32)]
  }

  /** After i rounds of the loop over the UTF8 continuation and lead bytes. */
  function HighLoop(t: seq<int>, i: nat): (r: seq<int>)
    requires |t| == LookupSize && i <= 64
    ensures |r| == LookupSize
  {
    if i == 0 then t
    else var k := i - 1;
      HighLoop(t, k)[1152 + k := k % 2][1216 + k := 2 + k % 2]
  }

  /** After writing value at offset, offset + 1, ..., offset + n - 1. */
  function Run(t: seq<int>, offset: nat, value: int, n: nat): (r: seq<int>)
    requires offset + n <= |t|
    ensures |r| == |t|
  {
    if n == 0 then t else Run(t, offset, value, n - 1)[offset + n - 1 := value]
  }

  /** After the first k runs of rle. */
  function RunLoop(t: seq<int>, rle: string, k: nat): (r: seq<int>)
    requires |t| == LookupSize && k <= |rle| && RleLength(rle, |rle|) <= 256
    ensures |r| == LookupSize
  {
    if k == 0 then t
    else
      RleLengthGrows(rle, k, |rle|);
      Run(RunLoop(t, rle, k - 1), 1280 + RleLength(rle, k - 1), (k - 1) % 4, RleRep(rle, k - 1))
  }

  /** After i rounds of the loop over the ends of the signed table. */
  function EndsLoop(t: seq<int>, i: nat): (r: seq<int>)
    requires |t| == LookupSize && i <= 16
    ensures |r| == LookupSize
  {
    if i == 0 then t
    else var k := i - 1;
      EndsLoop(t, k)[1792 + k := 1][2032 + k := 6]
  }

  /** After i rounds of the last loop, which scales the signed classes by 8. */
  function ScaleLoop(t: seq<int>, i: nat): (r: seq<int>)
    requires |t| == LookupSize && i <= 256
    ensures |r| == LookupSize
  {
    if i == 0 then t
    else var k := i - 1;
      ScaleLoop(t, k)[1536 + k := t[1792 + k] * 8]
  }

  /** Fills the context lookup tables of the four context modes. */
  method UnpackLookupTable(lookup: array<int>)
    requires lookup.Length == LookupSize
    modifies lookup
    ensures forall j :: 0 <= j < LookupSize ==>
      lookup[j] == if Unwritten(j) then old(lookup[j]) else LookupEntry(j)
  {
    ghost var t0 := lookup[..];
    FillBytes(lookup);
    ghost var t1 := lookup[..];
    FillMap(lookup, Utf8Map);
    ghost var t2 := lookup[..];
    FillHigh(lookup);
    ghost var t3 := lookup[..];
    RleTotal();
    FillRuns(lookup, Utf8Rle);
    ghost var t4 := lookup[..];
    FillSigned(lookup);
    LookupStages(t0, t1, t2, t3, t4, lookup[..]);
  }

  /** The first loop of unpackLookupTable: the LSB6 and MSB6 tables, and
      the signed classes before their ends are set. */
  method FillBytes(lookup: array<int>)
    requires lookup.Length == LookupSize
    modifies lookup
    ensures lookup[..] == ByteLoop(old(lookup[..]), 256)
  {
    ghost var t := lookup[..];
    for i := 0 to 256
      invariant lookup[..] == ByteLoop(t, i)
    {
      lookup[i] := i % 64;  // i & 0x3F
      lookup[512 + i] := i / 4;  // i >> 2
      lookup[1792 + i] := 2 + i / 64;  // 2 + (i >> 6)
    }
  }

  /** The loop over the map string: the UTF8 classes of the previous byte
      when it is below 128. */
  method FillMap(lookup: array<int>, classes: string)
    requires lookup.Length == LookupSize && |classes| == 128
    modifies lookup
    ensures lookup[..] == MapLoop(old(lookup[..]), classes, 128)
  {
    ghost var t := lookup[..];
    for i := 0 to 128
      invariant lookup[..] == MapLoop(t, classes, i)
    {
      lookup[1024 + i] := 4 * (classes[i] as int - 32);
    }
  }

  /** The UTF8 classes of the previous byte when it is 128 or more. */
  method FillHigh(lookup: array<int>)
    requires lookup.Length == LookupSize
    modifies lookup
    ensures lookup[..] == HighLoop(old(lookup[..]), 64)
  {
    ghost var t := lookup[..];
    for i := 0 to 64
      invariant lookup[..] == HighLoop(t, i)
    {
      lookup[1152 + i] := i % 2;  // i & 1
      lookup[1216 + i] := 2 + i % 2;
    }
  }

  /** The run-length loop: the UTF8 classes of the byte before the
      previous one. */
  method FillRuns(lookup: array<int>, rle: string)
    requires lookup.Length == LookupSize && RleLength(rle, |rle|) <= 256
    modifies lookup
    ensures lookup[..] == RunLoop(old(lookup[..]), rle, |rle|)
  {
    ghost var t := lookup[..];
    var offset := 1280;
    for k := 0 to |rle|
      invariant offset == 1280 + RleLength(rle, k)
      invariant lookup[..] == RunLoop(t, rle, k)
    {
      var value := k % 4;  // k & 3
      var rep := rle[k] as int - 32;
      ghost var before := lookup[..];
      RleLengthGrows(rle, k + 1, |rle|);
      var i := 0;
      while i < rep
        invariant 0 <= i <= RleRep(rle, k)
        invariant offset == 1280 + RleLength(rle, k) + i
        invariant lookup[..] == Run(before, 1280 + RleLength(rle, k), value, i)
      {
        lookup[offset] := value;
        offset := offset + 1;
        i := i + 1;
      }
    }
  }

  /** The last loops of unpackLookupTable: the ends of the signed classes,
      then the signed classes of the previous byte scaled by 8. */
  method FillSigned(lookup: array<int>)
    requires lookup.Length == LookupSize
    modifies lookup
    ensures lookup[..] == ScaleLoop(EndsLoop(old(lookup[..]), 16)[1792 := 0][2047 := 7], 256)
  {
    ghost var t := lookup[..];
    for i := 0 to 16
      invariant lookup[..] == EndsLoop(t, i)
    {
      lookup[1792 + i], lookup[2032 + i] := 1, 6;
    }
    lookup[1792], lookup[2047] := 0, 7;
    ghost var t5 := lookup[..];
    for i := 0 to 256
      invariant lookup[..] == ScaleLoop(t5, i)
    {
      ScaleLoopAt(t5, i, 1792 + i);
      lookup[1536 + i] := lookup[1792 + i] * 8;  // << 3
    }
  }

  // What each loop leaves at each index.

  lemma {:induction false} ByteLoopAt(t: seq<int>, i: nat, j: nat)
    requires |t| == LookupSize && i <= 256 && j < LookupSize
    ensures ByteLoop(t, i)[j] ==
      if j < i then j % 64
      else if 512 <= j < 512 + i then (j - 512) / 4
      else if 1792 <= j < 1792 + i then 2 + (j - 1792) / 64
      else t[j]
  {
    if i > 0 {
      ByteLoopAt(t, i - 1, j);
    }
  }

  lemma {:induction false} MapLoopAt(t: seq<int>, classes: string, i: nat, j: nat)
    requires |t| == LookupSize && i <= |classes| == 128 && j < LookupSize
    ensures MapLoop(t, classes, i)[j] == if 1024 <= j < 1024 + i then 4 * (classes[j - 1024] as int - 32) else t[j]
  {
    if i > 0 {
      MapLoopAt(t, classes, i - 1, j);
    }
  }

  lemma {:induction false} HighLoopAt(t: seq<int>, i: nat, j: nat)
    requires |t| == LookupSize && i <= 64 && j < LookupSize
    ensures HighLoop(t, i)[j] ==
      if 1152 <= j < 1152 + i then (j - 1152) % 2
      else if 1216 <= j < 1216 + i then 2 + (j - 1216) % 2
      else t[j]
  {
    if i > 0 {
      HighLoopAt(t, i - 1, j);
    }
  }

  lemma {:induction false} RunAt(t: seq<int>, offset: nat, value: int, n: nat, j: nat)
    requires offset + n <= |t| && j < |t|
    ensures Run(t, offset, value, n)[j] == if offset <= j < offset + n then value else t[j]
  {
    if n > 0 {
      RunAt(t, offset, value, n - 1, j);
    }
  }

  lemma {:induction false} RunLoopAt(t: seq<int>, rle: string, k: nat, j: nat)
    requires |t| == LookupSize && k <= |rle| && RleLength(rle, |rle|) <= 256 && j < LookupSize
    ensures RleLength(rle, k) <= 256 && |RleUpTo(rle, k)| == RleLength(rle, k)
    ensures RunLoop(t, rle, k)[j] ==
      if 1280 <= j < 1280 + RleLength(rle, k) then RleUpTo(rle, k)[j - 1280] else t[j]
  {
    RleLengthGrows(rle, k, |rle|);
    RleUpToLength(rle, k);
    if k > 0 {
      RleLengthGrows(rle, k, |rle|);
      RunLoopAt(t, rle, k - 1, j);
      RleUpToLength(rle, k - 1);
      RunAt(RunLoop(t, rle, k - 1), 1280 + RleLength(rle, k - 1), (k - 1) % 4, RleRep(rle, k - 1), j);
    }
  }

  lemma {:induction false} EndsLoopAt(t: seq<int>, i: nat, j: nat)
    requires |t| == LookupSize && i <= 16 && j < LookupSize
    ensures EndsLoop(t, i)[j] ==
      if 1792 <= j < 1792 + i then 1 else if 2032 <= j < 2032 + i then 6 else t[j]
  {
    if i > 0 {
      EndsLoopAt(t, i - 1, j);
    }
  }

  lemma {:induction false} ScaleLoopAt(t: seq<int>, i: nat, j: nat)
    requires |t| == LookupSize && i <= 256 && j < LookupSize
    ensures ScaleLoop(t, i)[j] == if 1536 <= j < 1536 + i then t[j + 256] * 8 else t[j]
  {
    if i > 0 {
      ScaleLoopAt(t, i - 1, j);
    }
  }

  /** The loops together store LookupEntry everywhere except in the two
      unwritten halves. */
  lemma LookupStages(t0: seq<int>, t1: seq<int>, t2: seq<int>, t3: seq<int>, t4: seq<int>, t5: seq<int>)
    requires |t0| == LookupSize && RleLength(Utf8Rle, |Utf8Rle|) == 256
    requires t1 == ByteLoop(t0, 256) && t2 == MapLoop(t1, Utf8Map, 128) && t3 == HighLoop(t2, 64)
    requires t4 == RunLoop(t3, Utf8Rle, |Utf8Rle|)
    requires t5 == ScaleLoop(EndsLoop(t4, 16)[1792 := 0][2047 := 7], 256)
    ensures forall j :: 0 <= j < LookupSize ==> t5[j] == if Unwritten(j) then t0[j] else LookupEntry(j)
  {
    var e := EndsLoop(t4, 16)[1792 := 0][2047 := 7];
    forall j | 0 <= j < LookupSize
      ensures t5[j] == if Unwritten(j) then t0[j] else LookupEntry(j)
    {
      ScaleLoopAt(e, 256, j);
      if j < 1536 {
        EndsLoopAt(t4, 16, j);
        LowerStages(t0, t1, t2, t3, t4, j);
      } else {
        SignedStages(t0, t1, t2, t3, t4, j);
      }
    }
  }

  lemma LowerStages(t0: seq<int>, t1: seq<int>, t2: seq<int>, t3: seq<int>, t4: seq<int>, j: nat)
    requires |t0| == LookupSize && RleLength(Utf8Rle, |Utf8Rle|) == 256 && j < 1536
    requires t1 == ByteLoop(t0, 256) && t2 == MapLoop(t1, Utf8Map, 128) && t3 == HighLoop(t2, 64)
    requires t4 == RunLoop(t3, Utf8Rle, |Utf8Rle|)
    ensures t4[j] == if Unwritten(j) then t0[j] else LookupEntry(j)
  {
    RunLoopAt(t3, Utf8Rle, |Utf8Rle|, j);
    HighLoopAt(t2, 64, j);
    MapLoopAt(t1, Utf8Map, 128, j);
    ByteLoopAt(t0, 256, j);
  }

  lemma SignedStages(t0: seq<int>, t1: seq<int>, t2: seq<int>, t3: seq<int>, t4: seq<int>, j: nat)
    requires |t0| == LookupSize && RleLength(Utf8Rle, |Utf8Rle|) == 256 && 1536 <= j < LookupSize
    requires t1 == ByteLoop(t0, 256) && t2 == MapLoop(t1, Utf8Map, 128) && t3 == HighLoop(t2, 64)
    requires t4 == RunLoop(t3, Utf8Rle, |Utf8Rle|)
    ensures var e := EndsLoop(t4, 16)[1792 := 0][2047 := 7];
      (j < 1792 ==> e[j + 256] == SignedLut(j - 1536)) && (j >= 1792 ==> e[j] == SignedLut(j - 1792))
  {
    var i := if j < 1792 then j + 256 else j;
    EndsLoopAt(t4, 16, i);
    RunLoopAt(t3, Utf8Rle, |Utf8Rle|, i);
    HighLoopAt(t2, 64, i);
    MapLoopAt(t1, Utf8Map, 128, i);
    ByteLoopAt(t0, 256, i);
  }

  // ---------------------------------------------------------------------
  // What the context lookup tables mean

  /** The number of entries of each run, cumulated. */
  lemma RleLengths()
    ensures RleLength(Utf8Rle, 1) == 33 && RleLength(Utf8Rle, 2) == 48 && RleLength(Utf8Rle, 3) == 58 && RleLength(Utf8Rle, 4) == 58
    ensures RleLength(Utf8Rle, 5) == 58 && RleLength(Utf8Rle, 6) == 65 && RleLength(Utf8Rle, 7) == 91 && RleLength(Utf8Rle, 8) == 91
    ensures RleLength(Utf8Rle, 9) == 91 && RleLength(Utf8Rle, 10) == 97 && RleLength(Utf8Rle, 11) == 97 && RleLength(Utf8Rle, 12) == 123
    ensures RleLength(Utf8Rle, 13) == 123 && RleLength(Utf8Rle, 14) == 127 && RleLength(Utf8Rle, 15) == 127 && RleLength(Utf8Rle, 16) == 127
    ensures RleLength(Utf8Rle, 17) == 224 && RleLength(Utf8Rle, 18) == 224 && RleLength(Utf8Rle, 19) == 256
  {
  }

  /** Entry b of the expansion lies in run m when b lies between the total
      lengths of the first m and the first m + 1 runs. */
  lemma {:induction false} RleUpToAt(rle: string, k: nat, m: nat, b: nat)
    requires m < k <= |rle| && RleLength(rle, m) <= b < RleLength(rle, m + 1)
    ensures b < |RleUpTo(rle, k)| && RleUpTo(rle, k)[b] == m % 4
  {
    RleUpToLength(rle, k - 1);
    RleUpToLength(rle, k);
    if k == m + 1 {
      assert RleUpTo(rle, k)[b] == seq(RleRep(rle, m), _ => m % 4)[b - RleLength(rle, m)];
    } else {
      RleLengthGrows(rle, m + 1, k - 1);
      RleUpToAt(rle, k - 1, m, b);
    }
  }

  /** The class of an ASCII byte as the last byte in UTF8 mode, from the
      kinds of characters RFC 7932 (section 7.1) tells apart: 0 for the
      other control characters and DEL; 1 for tab, line feed and carriage
      return; 2 for the space; 4 for quotes; 5 for the percent sign; 6 for
      opening and 7 for closing brackets; 8 for the comma, colon and
      semicolon; 9 for the full stop; 10 for the equals sign; 11 for
      digits; 12 and 13 for upper-case vowels and consonants; 14 and 15 for
      lower-case vowels and consonants; 3 for every other symbol. */
  function AsciiClass(b: nat): (r: nat)
    requires b < 128
    ensures r < 16
  {
    var c := b as char;
    if c == '\t' || c == '\n' || c == '\r' then 1
    else if b < 32 || b == 127 then 0
    else if c == ' ' then 2
    else if c == '"' || c == '\'' then 4
    else if c == '%' then 5
    else if c == '(' || c == '<' || c == '[' || c == '{' then 6
    else if c == ')' || c == '>' || c == ']' || c == '}' then 7
    else if c == ',' || c == ':' || c == ';' then 8
    else if c == '.' then 9
    else if c == '=' then 10
    else if '0' <= c <= '9' then 11
    else if c == 'A' || c == 'E' || c == 'I' || c == 'O' || c == 'U' then 12
    else if 'A' <= c <= 'Z' then 13
    else if c == 'a' || c == 'e' || c == 'i' || c == 'o' || c == 'u' then 14
    else if 'a' <= c <= 'z' then 15
    else 3
  }

  /** The entry of the last byte in UTF8 mode, as RFC 7932 (section 7.1)
      lists it: four times the class of an ASCII byte, leaving the low two
      bits to the byte before it; 0 and 1 alternating for continuation
      bytes 128..191; 2 and 3 alternating for lead bytes 192..255. */
  function Utf8FirstLut(b: nat): (r: nat)
    requires b < 256
    ensures r < 64
  {
    if b < 128 then 4 * AsciiClass(b)
    else if b < 192 then b % 2
    else 2 + b % 2
  }

  /** The map string and the two alternating runs after it are that
      table. */
  lemma Utf8MapIsFirstLut(b: nat)
    requires b < 256
    ensures LookupEntry(1024 + b) == Utf8FirstLut(b)
  {
    if b < 128 {
      Utf8MapRow(b / 16, b);
    }
  }

  /** Row r of the map string, bytes 16 * r .. 16 * r + 15. */
  lemma Utf8MapRow(r: nat, b: nat)
    requires r < 8 && 16 * r <= b < 16 * r + 16
    ensures Utf8Map[b] as int - 32 == AsciiClass(b)
  {
    match r
    case 0 => Utf8MapRow0(b);
    case 1 => Utf8MapRow1(b);
    case 2 => Utf8MapRow2(b);
    case 3 => Utf8MapRow3(b);
    case 4 => Utf8MapRow4(b);
    case 5 => Utf8MapRow5(b);
    case 6 => Utf8MapRow6(b);
    case 7 => Utf8MapRow7(b);
  }

  lemma Utf8MapRow0(b: nat)
    requires 0 <= b < 16
    ensures Utf8Map[b] as int - 32 == AsciiClass(b)
  {
  }

  lemma Utf8MapRow1(b: nat)
    requires 16 <= b < 32
    ensures Utf8Map[b] as int - 32 == AsciiClass(b)
  {
  }

  lemma Utf8MapRow2(b: nat)
    requires 32 <= b < 48
    ensures Utf8Map[b] as int - 32 == AsciiClass(b)
  {
  }

  lemma Utf8MapRow3(b: nat)
    requires 48 <= b < 64
    ensures Utf8Map[b] as int - 32 == AsciiClass(b)
  {
  }

  lemma Utf8MapRow4(b: nat)
    requires 64 <= b < 80
    ensures Utf8Map[b] as int - 32 == AsciiClass(b)
  {
  }

  lemma Utf8MapRow5(b: nat)
    requires 80 <= b < 96
    ensures Utf8Map[b] as int - 32 == AsciiClass(b)
  {
  }

  lemma Utf8MapRow6(b: nat)
    requires 96 <= b < 112
    ensures Utf8Map[b] as int - 32 == AsciiClass(b)
  {
  }

  lemma Utf8MapRow7(b: nat)
    requires 112 <= b < 128
    ensures Utf8Map[b] as int - 32 == AsciiClass(b)
  {
  }

  /** The class of a byte two positions back in UTF8 mode: 0 for control
      characters, the space and the bytes 127..223; 1 for punctuation; 2
      for digits, upper-case letters and the bytes 224..255; 3 for
      lower-case letters. */
  function Utf8SecondClass(b: nat): int
  {
    if b <= 32 || 127 <= b < 224 then 0
    else if 48 <= b <= 57 || 65 <= b <= 90 || b >= 224 then 2
    else if 97 <= b <= 122 then 3
    else 1
  }

  /** The run-length string expands to those classes. */
  lemma RleIsUtf8SecondClass(b: nat)
    requires b < 256
    ensures RleLookup(b) == Utf8SecondClass(b)
  {
    RleLengths();
    if b < 33 {
      RleUpToAt(Utf8Rle, |Utf8Rle|, 0, b);
    } else if b < 48 {
      RleUpToAt(Utf8Rle, |Utf8Rle|, 1, b);
    } else if b < 58 {
      RleUpToAt(Utf8Rle, |Utf8Rle|, 2, b);
    } else if b < 65 {
      RleUpToAt(Utf8Rle, |Utf8Rle|, 5, b);
    } else if b < 91 {
      RleUpToAt(Utf8Rle, |Utf8Rle|, 6, b);
    } else if b < 97 {
      RleUpToAt(Utf8Rle, |Utf8Rle|, 9, b);
    } else if b < 123 {
      RleUpToAt(Utf8Rle, |Utf8Rle|, 11, b);
    } else if b < 127 {
      RleUpToAt(Utf8Rle, |Utf8Rle|, 13, b);
    } else if b < 224 {
      RleUpToAt(Utf8Rle, |Utf8Rle|, 16, b);
    } else if b < 256 {
      RleUpToAt(Utf8Rle, |Utf8Rle|, 18, b);
    }
  }

  /** The signed-mode class of a byte read as a signed number v: 0 for
      zero, then 1, 2, 3 for v in 1..15, 16..63, 64..127, and 4, 5, 6, 7
      for v in -128..-65, -64..-17, -16..-2 and -1. */
  function SignedClass(b: nat): int
    requires b < 256
  {
    var v := if b < 128 then b else b - 256;
    if v == 0 then 0
    else if 0 < v < 16 then 1
    else if 16 <= v < 64 then 2
    else if 64 <= v then 3
    else if v < -64 then 4
    else if v < -16 then 5
    else if v < -1 then 6
    else 7
  }

  lemma SignedLutIsSignedClass(b: nat)
    requires b < 256
    ensures SignedLut(b) == SignedClass(b)
  {
  }

  /** The table as unpacked into a zero-filled array. */
  function LookupAt(j: nat): int
    requires j < LookupSize
  {
    if Unwritten(j) then 0 else LookupEntry(j)
  }

  /** The context id the decoder forms from the two entries: their
      bitwise or. */
  function ContextId(hi: nat, lo: nat): (r: nat)
    requires hi < 64 && lo < 64
    ensures r < 64
  {
    OrBelow64(hi, lo);
    ((hi as bv8) | (lo as bv8)) as nat
  }

  lemma OrBelow64(a: nat, b: nat)
    requires a < 64 && b < 64
    ensures ((a as bv8) | (b as bv8)) as nat < 64
  {
    assert (a as bv8) < 64 && (b as bv8) < 64;
  }

  /** For every context mode and previous bytes p1 (the last one) and p2
      (the one before it), the mode's entry hi for p1 and its entry lo for
      p2 are below 64, so the context id is below 64; and the entries are
      the classes of the mode: the low six bits of p1 (LSB6), its high six
      bits (MSB6), the UTF8 entry of p1 of section 7.1 of RFC 7932 (its
      class shifted by 2 for ASCII bytes, 0..3 otherwise) and the class 0..3
      of p2 (UTF8), eight times the signed class of p1 and the
      signed class of p2 (signed). */
  lemma ContextIds(mode: nat, p1: nat, p2: nat)
    requires mode < 4 && p1 < 256 && p2 < 256
    ensures var hi, lo := LookupAt(512 * mode + p1), LookupAt(512 * mode + 256 + p2);
      0 <= hi < 64 && 0 <= lo < 64 &&
      (mode == 0 ==> hi == p1 % 64 && lo == 0) &&
      (mode == 1 ==> hi == p1 / 4 && lo == 0) &&
      (mode == 2 ==> hi == Utf8FirstLut(p1) && lo == Utf8SecondClass(p2) &&
                     (if p1 < 128 then hi % 4 == 0 else hi < 4)) &&
      (mode == 3 ==> hi == 8 * SignedClass(p1) && lo == SignedClass(p2))
  {
    if mode == 2 {
      Utf8ContextIds(p1, p2);
    } else if mode == 3 {
      SignedLutIsSignedClass(p1);
      SignedLutIsSignedClass(p2);
    }
  }

  lemma Utf8ContextIds(p1: nat, p2: nat)
    requires p1 < 256 && p2 < 256
    ensures var hi, lo := LookupAt(1024 + p1), LookupAt(1280 + p2);
      hi == Utf8FirstLut(p1) && lo == Utf8SecondClass(p2) && (if p1 < 128 then hi % 4 == 0 else hi < 4)
  {
    Utf8MapIsFirstLut(p1);
    RleIsUtf8SecondClass(p2);
  }

  // ---------------------------------------------------------------------
  // What the command table means

  /** The first entry packs the two extra-bit counts; the decoder takes
      them apart with & 0xFF and >>> 8. */
  lemma CommandBitsUnpack(cmd: nat)
    requires cmd < CommandCount
    ensures CommandEntry(cmd, 0) % 256 == InsertLengthNBits[InsertCode(cmd)]
    ensures CommandEntry(cmd, 0) / 256 == CopyLengthNBits[CopyCode(cmd)]
  {
    var ib, cb := InsertLengthNBits[InsertCode(cmd)], CopyLengthNBits[CopyCode(cmd)];
    DivUnique(CommandEntry(cmd, 0), 256, cb, ib);
  }

  /** Every copy length a command code encodes (its smallest copy length
      plus any value of its extra bits) has the distance context stored in
      the fourth entry, minus 4 for the codes below 128 that reuse the last
      distance. */
  lemma CommandDistanceContext(cmd: nat, extra: nat)
    requires cmd < CommandCount && extra < Pow2(CopyLengthNBits[CopyCode(cmd)])
    ensures CommandEntry(cmd, 3) ==
      (if cmd < 128 then -4 else 0) + CopyLengthContext(CommandEntry(cmd, 2) + extra)
    ensures cmd < 128 ==> -4 <= CommandEntry(cmd, 3) < 0
    ensures cmd >= 128 ==> 0 <= CommandEntry(cmd, 3) <= 3
  {
    var cc := CopyCode(cmd);
    if cc < 3 {
      assert CopyLengthNBits[cc] == 0;
    }
  }

  /** Each code's lengths start where the previous code's end. */
  predicate Tiles(offs: seq<int>, bits: seq<ExtraBits>)
  {
    |offs| == |bits| == 24 && forall i :: 0 <= i < 23 ==> offs[i + 1] == offs[i] + Pow2(bits[i])
  }

  /** Code i encodes the lengths offs[i] .. offs[i] + 2^bits[i] - 1. */
  predicate Covers(offs: seq<int>, bits: seq<ExtraBits>, i: nat, n: int)
    requires |offs| == |bits| == 24 && i < 24
  {
    offs[i] <= n < offs[i] + Pow2(bits[i])
  }

  /** A later code's lengths start after an earlier code's end. */
  lemma {:induction false} TilesOrdered(offs: seq<int>, bits: seq<ExtraBits>, i: nat, j: nat)
    requires Tiles(offs, bits) && i < j < 24
    ensures offs[i] + Pow2(bits[i]) <= offs[j]
    decreases j - i
  {
    if j > i + 1 {
      TilesOrdered(offs, bits, i, j - 1);
    }
  }

  /** A length between the first code's start and code k's end is encoded
      by some code up to k. */
  lemma {:induction false} TilesFind(offs: seq<int>, bits: seq<ExtraBits>, k: nat, n: int) returns (i: nat)
    requires Tiles(offs, bits) && k < 24 && offs[0] <= n < offs[k] + Pow2(bits[k])
    ensures i <= k && Covers(offs, bits, i, n)
    decreases k
  {
    if n >= offs[k] {
      i := k;
    } else {
      i := TilesFind(offs, bits, k - 1, n);
    }
  }

  /** Every length from the first code's start to the last code's end is
      encoded by exactly one code. */
  lemma TilesExactly(offs: seq<int>, bits: seq<ExtraBits>, n: int)
    requires Tiles(offs, bits)
    ensures offs[0] <= n < offs[23] + Pow2(bits[23]) ==> exists i :: 0 <= i < 24 && Covers(offs, bits, i, n)
    ensures forall i, j :: 0 <= i < j < 24 && Covers(offs, bits, i, n) ==> !Covers(offs, bits, j, n)
  {
    if offs[0] <= n < offs[23] + Pow2(bits[23]) {
      var i := TilesFind(offs, bits, 23, n);
    }
    forall i, j | 0 <= i < j < 24
      ensures offs[i] + Pow2(bits[i]) <= offs[j]
    {
      TilesOrdered(offs, bits, i, j);
    }
  }

  lemma InsertCodesTile()
    ensures Tiles(InsertLengthOffsets, InsertLengthNBits)
  {
    forall i | 0 <= i < 23
      ensures InsertLengthOffsets[i + 1] == InsertLengthOffsets[i] + Pow2(InsertLengthNBits[i])
    {
      OffsetsArePrefixSums(i);
    }
  }

  lemma CopyCodesTile()
    ensures Tiles(CopyLengthOffsets, CopyLengthNBits)
  {
    forall i | 0 <= i < 23
      ensures CopyLengthOffsets[i + 1] == CopyLengthOffsets[i] + Pow2(CopyLengthNBits[i])
    {
      OffsetsArePrefixSums(i);
    }
  }

  /** The length codes tile the lengths without gap or overlap: every
      insert length from 0 and every copy length from 2 up to the end of
      code 23 is encoded by exactly one length code. */
  lemma LengthCodesTile(n: int)
    ensures InsertLengthOffsets[0] == 0 && CopyLengthOffsets[0] == 2
    ensures 0 <= n < InsertLengthOffsets[23] + Pow2(InsertLengthNBits[23]) ==>
      exists i :: 0 <= i < 24 && Covers(InsertLengthOffsets, InsertLengthNBits, i, n)
    ensures 2 <= n < CopyLengthOffsets[23] + Pow2(CopyLengthNBits[23]) ==>
      exists i :: 0 <= i < 24 && Covers(CopyLengthOffsets, CopyLengthNBits, i, n)
    ensures forall i, j :: 0 <= i < j < 24 && Covers(InsertLengthOffsets, InsertLengthNBits, i, n) ==>
      !Covers(InsertLengthOffsets, InsertLengthNBits, j, n)
    ensures forall i, j :: 0 <= i < j < 24 && Covers(CopyLengthOffsets, CopyLengthNBits, i, n) ==>
      !Covers(CopyLengthOffsets, CopyLengthNBits, j, n)
  {
    InsertCodesTile();
    CopyCodesTile();
    TilesExactly(InsertLengthOffsets, InsertLengthNBits, n);
    TilesExactly(CopyLengthOffsets, CopyLengthNBits, n);
  }
}
