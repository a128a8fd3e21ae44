# brocha decoder core in Dafny

This project models the table-building and word-transform core of brocha,
a Brotli (RFC 7932) decompressor written in TypeScript, and proves what
that core computes.

- `helpers.dfy` (module `Helpers`) models `log2floor` and `min`.
- `lookup_tables.dfy` (module `LookupTables`) models
  `unpackCommandLookupTable` and `unpackLookupTable`. Each table is
  proved equal, entry by entry, to a reference built from the ranges of
  section 5 and the context modes of section 7.1 of RFC 7932. The UTF-8
  mode's map and run-length strings are proved equal to classes defined
  by character kind (`AsciiClass`, `Utf8FirstLut`, `Utf8SecondClass`).
- `huffman.dfy` (module `Huffman`) models `getNextKey`, `replicateValue`
  and `nextTableBitSize`. It also models the counting, offset and sorting
  loops of `buildHuffmanTable` and its root-table pass.
- `table_builder.dfy` (module `TableBuilder`) models the second-level
  pass and `buildHuffmanTable` as a whole. Its `Built` predicate states
  the whole result: the returned size, every root slot, every slot of
  every second-level table, and that nothing else changes.
- `rev.dfy`, `canonical.dfy`, `table_layout.dfy`, `sub_tables.dfy` and
  `sub_entries.dfy` hold the specification these proofs use:
  - bit reversal;
  - the canonical code of section 3.2 of RFC 7932 (`NextCode`, `Code`,
    `CanonicalOrder`);
  - the code space of 2^15 points, in which each code of length `l`
    owns `2^(15-l)` consecutive points;
  - the entry a slot holds: the code that owns the slot's point.
- `transforms.dfy` (module `WordTransforms`) models the class
  `Transforms`: its constructor, `unpack` and `transformDictionaryWord`.
  - The arrays are `array<int>` fields; the methods modify them in place.
  - `Emitted` specifies the transformed word: the prefix, the kept window
    of the word, the upper-case or shift transform, then the suffix.

Typed arrays are Dafny arrays. The byte arrays (`Int8Array`) hold the
unsigned value of each byte, 0..255, which is what every read `& 0xFF`
in the source sees. Bit operations on non-negative values are written as
`/`, `%` and multiplication by powers of two. A thrown
`BrotliDecoderTransformError` is the result `Error(FormatTransform)`.

## Model

| member | source | states |
|---|---|---|
| Helpers.Log2Floor | src/internal/helpers.ts:1-9 | for 0 <= i < 2^32, the result is -1 exactly when i is 0, and otherwise r with 2^r <= i < 2^(r+1); it uses the source's halving loop over steps 16, 8, 4, 2, 1 |
| Helpers.Log2Round | src/internal/helpers.ts:3-7 | one round of the loop keeps `v == i / 2^(result+1)` and `v < 2^(2*step)`, so the next step's test `v >>> step` is the next bit test |
| Helpers.Log2Exit | src/internal/helpers.ts:8 | after the last round, `result + v` is -1 for i = 0 and otherwise the floor of log2 i |
| Helpers.Min | src/internal/helpers.ts:11-13 | the result is at most both arguments and is one of them |
| Huffman.GetNextKey | src/internal/tables.ts:174-178 | for a key below 2^len, the next key read backwards over len bits is the key read backwards plus one, so it is the bit-reversed next canonical code; the all-ones key is returned unchanged |
| Huffman.NextKeyRev | src/internal/tables.ts:175-177 | clearing the run of low one bits and setting the first zero bit adds one to the reversed key |
| Huffman.ReplicateValue | src/internal/tables.ts:180-192 | item is written at offset+end-step, offset+end-2*step, ..., offset, and every other slot keeps its value |
| Huffman.NextTableBitSize | src/internal/tables.ts:194-207 | the result lies in [len-rootBits, 15-rootBits]; it is the smallest width whose Kraft weight of the remaining counts fills the subtree; every smaller width falls short |
| Huffman.CountLengths | src/internal/tables.ts:220 | count[l] is the number of symbols of length l |
| Huffman.StartOffsets | src/internal/tables.ts:222-225 | offset[l] is the number of codes shorter than l |
| Huffman.SortSymbols | src/internal/tables.ts:226-230 | sorted holds the used symbols ordered by length, then by symbol (the canonical order of section 3.2 of RFC 7932), and offset[l] ends at the start of length l+1 |
| Huffman.PlaceSymbol | src/internal/tables.ts:226-230 | one round of the sorting loop: a symbol with a code is written at offset[its length], which then advances by one; offset and sorted become the placement after one more symbol |
| Huffman.CountAndSort | src/internal/tables.ts:217-230 | the counts are BlCount of the lengths and sorted starts with CanonicalOrder of the lengths |
| Huffman.FillCanonical | src/internal/tables.ts:226-230 | the placement recurrence of the sorting loop, run over all symbols, yields the canonical order |
| Huffman.PlacedCanonical | src/internal/tables.ts:226-230 | any array where each symbol sits at its slot in its length block is exactly the canonical order |
| Huffman.FillRoot | src/internal/tables.ts:239-253 | after the root pass, every root slot whose point lies before the first code longer than rootBits holds `len << 16 OR symbol` of its owning code; the counts 1..rootBits are zero; key is the reversed position of the next code |
| Huffman.FillRootLength | src/internal/tables.ts:242-252 | placing every code of one length keeps the root-slot statement, ends with count[len] = 0, and advances symbol to the start of the next length |
| Huffman.PlaceCode | src/internal/tables.ts:243-250 | one replicateValue plus getNextKey extends the root-slot statement to one more code and yields the reversed position of the following code |
| CanonicalCode.CanonicalUpToSorted | src/internal/tables.ts:226-230 | the canonical order lists symbols by length, then by symbol |
| CanonicalCode.CanonicalUpToMembers | src/internal/tables.ts:226-230 | the canonical order holds exactly the symbols whose length lies in 1..upTo |
| CanonicalCode.PosBlock | src/internal/tables.ts:239-253 | the k-th code of length l starts at point (NextCode(l) + k) * 2^(15-l), as in section 3.2 of RFC 7932 |
| CanonicalCode.PosAt | src/internal/tables.ts:239-253 | the code at index i = Start(l) + k has the value NextCode(l) + k |
| TableLayout.RootStep | src/internal/tables.ts:243-249 | replicating the entry of code i from its reversed key with stride 2^len over the root table fills exactly the root slots whose point code i owns |
| TableLayout.SlotOwned | src/internal/tables.ts:243-249 | root slot j lies on the stride of a code c of length l exactly when its point lies in c's share of the code space |
| TableLayout.KeyAdvance | src/internal/tables.ts:250 | the key getNextKey returns is the reversed position of the next code |
| SubTables.SubtreeSearch | src/internal/tables.ts:194-207 | with the counts left after placing code i, the first width whose weight fills subtree q is the longest length in q, and SubBits(q) is that width minus rootBits |
| SubTables.SubBitsFromWeights | src/internal/tables.ts:265 | the width nextTableBitSize returns is the width of the table of the subtree it opens |
| SubTables.NewSubtree | src/internal/tables.ts:263 | `(key & mask) != low` holds exactly when the code starts a new subtree, and then key & mask is that subtree read backwards |
| SubTables.KeySplit | src/internal/tables.ts:268-275 | the low rootBits bits of a key name the subtree; the high bits are the position inside it, read backwards |
| SubEntries.SubHit | src/internal/tables.ts:273-279 | replicateValue from `key >> rootBits` with stride 2^(len-rootBits) writes exactly the slots of the subtree's table whose point lies in the code's share |
| SubEntries.SubFilledStep | src/internal/tables.ts:273-279 | placing one more long code keeps the statement that every open second-level slot holds its entry or its first-pass value |
| SubEntries.SubFilledOpen | src/internal/tables.ts:263-271 | opening a table writes only the pointer slot and keeps that statement |
| SubEntries.SubFilledDone | src/internal/tables.ts:259-284 | once every code is placed, every slot of every second-level table holds `(len - rootBits) << 16 OR symbol` of the code owning its point |
| TableBuilder.OpenSubTable | src/internal/tables.ts:263-271 | the new table starts after the previous one, has SubBits of the subtree as width, and the root slot `low` gets the pointer entry `(bits + rootBits) << 16 OR (currentOffset - tableOffset - low)` |
| TableBuilder.EnterSubtree | src/internal/tables.ts:263-271 | a table is opened exactly when the code begins a new subtree, and the cursors then describe that subtree |
| TableBuilder.PlaceInSubtree | src/internal/tables.ts:273-279 | writing a long code changes only the slots of its subtree's table, and they then hold its entry |
| TableBuilder.PlaceLongCode | src/internal/tables.ts:262-283 | one round of the inner loop keeps the cursor invariant and the sub-table statement, and moves symbol on by one |
| TableBuilder.FillSubLength | src/internal/tables.ts:262-283 | all codes of one length longer than rootBits are placed and count[len] ends at 0 |
| TableBuilder.FillSubTables | src/internal/tables.ts:255-284 | for a complete code, the total is the root size plus every subtree table's size; the root slots of long-code subtrees hold pointer entries; every second-level slot holds its entry; with no codes, nothing changes |
| TableBuilder.SubTablesDone | src/internal/tables.ts:284-286 | at the end of the loop the cursors give the total size and the filled tables |
| TableBuilder.RootSlots | src/internal/tables.ts:239-284 | after both passes, every root slot holds RootEntry: the entry of a short code or the pointer to a subtree table |
| TableBuilder.FillSingle | src/internal/tables.ts:232-237 | with a single code, every slot of the root table holds that symbol and nothing else changes |
| TableBuilder.SingleBuilt | src/internal/tables.ts:232-237 | the single-code branch meets Built with size 2^rootBits |
| TableBuilder.TwoLevelBuilt | src/internal/tables.ts:239-286 | with no code or a complete code, the two passes meet Built |
| TableBuilder.CompleteBuilt | src/internal/tables.ts:239-286 | with a complete code of at least two symbols, Built's root-slot and second-level statements hold |
| TableBuilder.FillTwoLevel | src/internal/tables.ts:239-286 | the root pass followed by the second-level pass meets Built |
| TableBuilder.FillTables | src/internal/tables.ts:231-286 | the single-code branch or the two passes meet Built |
| TableBuilder.BuildHuffmanTable | src/internal/tables.ts:209-287 | the result is TableSize (2^rootBits plus every second-level table); slots outside [tableOffset, tableOffset + r) keep their values; one code fills the root with its symbol; otherwise every root slot and every second-level slot holds the entry of the code owning its point; with no code nothing changes |
| LookupTables.UnpackCommandLookupTable | src/internal/tables.ts:107-140 | every one of the 2816 entries equals CommandEntry: the extra-bit counts, the insert and copy length offsets, and the distance context of the command code, as 16-bit signed values |
| LookupTables.FillCommand | src/internal/tables.ts:117-137 | one round writes the four entries of its command code and nothing else |
| LookupTables.FillCommands | src/internal/tables.ts:117-137 | after the loop over the 704 command codes, every entry j holds Entry of command j / 4, field j % 4, for the given bit and offset tables |
| LookupTables.LengthOffsets | src/internal/tables.ts:108-116 | each offset is the start value plus the sum of 2^bits of the codes before it |
| LookupTables.PrefixOffsetsAreRfcOffsets | src/internal/tables.ts:108-116 | those sums are the insert and copy length offsets of section 5 of RFC 7932 |
| LookupTables.LengthCodesTile | src/internal/tables.ts:111-116 | every insert length from 0 and every copy length from 2 up to the end of code 23 lies in the range of exactly one length code |
| LookupTables.RangeMagic | src/internal/tables.ts:118-127 | the constants 0x29850 and 0x26244 hold the insert and copy code range starts of the eleven command blocks |
| LookupTables.CommandBitsUnpack | src/internal/tables.ts:132-133 | the low byte of entry 0 is the insert extra-bit count and the high byte the copy extra-bit count |
| LookupTables.CommandDistanceContext | src/internal/tables.ts:119-130 | entry 3 is the distance context of the copy length: -4..-1 for the first 128 codes and 0..3 otherwise |
| LookupTables.UnpackLookupTable | src/internal/tables.ts:142-170 | every written entry equals LookupEntry, the context-mode class of its byte; entries 256..511 and 768..1023 keep their values |
| LookupTables.LookupStages | src/internal/tables.ts:147-167 | the seven loops of unpackLookupTable together produce LookupEntry |
| LookupTables.FillBytes | src/internal/tables.ts:147-151 | the first loop sets i mod 64 at i, i div 4 at 512 + i and 2 + i div 64 at 1792 + i for every byte i, and nothing else |
| LookupTables.FillMap | src/internal/tables.ts:152-154 | entry 1024 + i becomes 4 times (character i of the map string minus 32) for i below 128, and nothing else changes |
| LookupTables.FillHigh | src/internal/tables.ts:155-158 | entries 1152 + i become i mod 2 and 1216 + i become 2 + i mod 2 for i below 64, and nothing else changes |
| LookupTables.FillRuns | src/internal/tables.ts:159-164 | run k of the rle string writes k mod 4 into its character code minus 32 entries, one run after the other from 1280 on, and nothing else changes |
| LookupTables.FillSigned | src/internal/tables.ts:165-167 | entries 1792..1807 become 1 and 2032..2047 become 6, then 1792 becomes 0 and 2047 becomes 7, then 1536 + i becomes 8 times entry 1792 + i for every byte i |
| LookupTables.RleTotal | src/internal/tables.ts:145-164 | the run lengths of the rle string add up to 256 |
| LookupTables.RleIsUtf8SecondClass | src/internal/tables.ts:159-164 | the run-length entries are the UTF-8 class of the second byte (section 7.1 of RFC 7932) |
| LookupTables.SignedLutIsSignedClass | src/internal/tables.ts:165-167 | entries 1792..2047 are the signed context class of section 7.1 of RFC 7932 |
| LookupTables.ContextIds | src/internal/tables.ts:142-170 | for each of the four context modes, the two lookups are the tables of section 7.1 of RFC 7932: p1 mod 64 (LSB6), p1 div 4 (MSB6), Utf8FirstLut of p1 and the class of p2 (UTF-8), 8 times the signed class of p1 and the signed class of p2; both are below 64 |
| LookupTables.Utf8ContextIds | src/internal/tables.ts:153-164 | in the UTF-8 mode the first lookup is Utf8FirstLut of the last byte, which leaves the low two bits free for ASCII bytes and is below 4 otherwise, and the second lookup is the class of the byte before it |
| LookupTables.Utf8MapIsFirstLut | src/internal/tables.ts:152-158 | entries 1024..1279 are the UTF-8 table of the last byte of section 7.1 of RFC 7932: four times the character-kind class of an ASCII byte, 0 and 1 alternating for continuation bytes, 2 and 3 alternating for lead bytes |
| WordTransforms.Transforms.constructor | src/internal/transforms.ts:15-25 | the arrays have 3*numTransforms, numTransforms, prefixSuffixLen and prefixSuffixCount+1 entries, all zero |
| WordTransforms.Transforms.Unpack | src/internal/transforms.ts:27-60 | the result is the format error exactly when either string has the wrong length; the pool is filled before the triplet check; the heads are Heads(src); the triplets are the character codes minus 32; nothing changes on a length mismatch of the pool string |
| WordTransforms.Transforms.UnpackPool | src/internal/transforms.ts:39-47 | the storage holds the pool text without '#' and the heads hold the offset of each piece |
| WordTransforms.StorePool | src/internal/transforms.ts:39-47 | the loop stores exactly PoolText and Heads of the string |
| WordTransforms.PoolPieces | src/internal/transforms.ts:39-47 | head range k of the stored text is the k-th '#'-terminated piece of the pool string |
| WordTransforms.Transforms.TransformDictionaryWord | src/internal/transforms.ts:62-174 | the result is the prefix, kept-word and suffix lengths; the new buffer is Emitted: the prefix, the omit-window of the word, the case or shift transform (the shift carrying its running sum from code point to code point, as written), then the suffix |
| WordTransforms.WindowOfWord | src/internal/transforms.ts:81-95 | transforms 1..9 drop that many last bytes, 12..20 drop transform-11 first bytes, others keep the word; a window longer than the word is empty |
| WordTransforms.EmittedLayout | src/internal/transforms.ts:85-172 | the prefix sits at dstOffset and the suffix right after the word; types other than 10, 11, 21 and 22 keep the word as copied |
| WordTransforms.EmittedFrame | src/internal/transforms.ts:62-174 | bytes before dstOffset are untouched, and so are bytes after the suffix, except up to three bytes after the word for upper-casing |
| WordTransforms.IdentityTransform | src/internal/transforms.ts:62-174 | with empty prefix and suffix and type 0, the word is copied as it is |
| WordTransforms.CopyBytes | src/internal/transforms.ts:85-87 | copying a piece writes it at offset and leaves every other byte |
| WordTransforms.CopyPieces | src/internal/transforms.ts:85-95 | the prefix is written at dstOffset and the kept word right after it; the returned offset is the end of the word |
| WordTransforms.CaseOrShiftInPlace | src/internal/transforms.ts:96-169 | the case or shift part leaves the buffer CaseOrShift gives: upper-casing for types 10 and 11, the carried shift for 21 and 22, no change otherwise |
| WordTransforms.FinishTransformed | src/internal/transforms.ts:96-172 | after the case or shift part and the suffix copy the buffer is Emitted and the returned offset is the end of the suffix |
| WordTransforms.WriteTransformed | src/internal/transforms.ts:85-172 | from the old buffer, the whole write leaves Emitted and returns dstOffset plus the prefix, word and suffix lengths |
| WordTransforms.UpperCaseInPlace | src/internal/transforms.ts:96-116 | the loop leaves the buffer the UpperCase walk gives |
| WordTransforms.UpperCaseAscii | src/internal/transforms.ts:99-106 | on ASCII text the walk upper-cases every letter and changes nothing else |
| WordTransforms.UpperCaseFrame | src/internal/transforms.ts:99-116 | the walk keeps every byte's UTF-8 class and writes at most two bytes past the word |
| WordTransforms.ShiftInPlace | src/internal/transforms.ts:117-169 | the loop leaves the buffer the shift walk gives, each round starting from the sum the round before left, as written (see Findings) |
| WordTransforms.ShiftOne | src/internal/transforms.ts:122-164 | one round of the shift loop picks its branch by the lead byte and leaves the buffer, the step and the sum of one ShiftStep |
| WordTransforms.ShiftAscii | src/internal/transforms.ts:124-126 | an ASCII byte: the scalar grows by the byte and the byte becomes the scalar's low 7 bits; step 1 |
| WordTransforms.ShiftTwo | src/internal/transforms.ts:129-138 | a 2-byte lead: with 2 bytes left the 11-bit code point is added and re-encoded; otherwise step is what is left and nothing changes |
| WordTransforms.ShiftThree | src/internal/transforms.ts:139-150 | a 3-byte lead: with 3 bytes left the 16-bit code point is added and re-encoded; otherwise step is what is left and nothing changes |
| WordTransforms.ShiftFour | src/internal/transforms.ts:151-163 | a 4-byte lead: with 4 bytes left the 21-bit code point is added and re-encoded; otherwise step is what is left and nothing changes |
| WordTransforms.ShiftStepRecodes | src/internal/transforms.ts:122-164 | a complete 1- to 4-byte sequence is re-encoded at its own width: the new code point is the sum modulo the width's range |
| WordTransforms.ShiftFirstBySigned | src/internal/transforms.ts:120-164 | the first code point becomes (code point + signed parameter) modulo its width's range |
| WordTransforms.ShiftCodePointsFrame | src/internal/transforms.ts:121-168 | the shift walk keeps every byte's UTF-8 class and writes only inside the word |
| WordTransforms.InitialScalarIsSigned | src/internal/transforms.ts:120 | the initial scalar is 2^24 plus the parameter read as a signed 16-bit value |
| WordTransforms.ShiftCarriesSum | src/internal/transforms.ts:121-126 | as written, "aa" shifted by 1 under type 22 becomes "bC" |
| WordTransforms.ShiftSumAscii | src/internal/transforms.ts:121-126 | as written, from any starting scalar, each ASCII byte of the word becomes (scalar + the word's bytes up to and including it) mod 128, and nothing else changes |
| WordTransforms.ShiftCarriesAscii | src/internal/transforms.ts:117-169 | as written, transform 22 on an ASCII word turns byte i into (param + the word's bytes up to and including i) mod 128 |
| WordTransforms.ShiftTransformExample | src/internal/transforms.ts:62-174 | the whole transform 22 with parameter 1 writes the word "aa" as "bC" |
| WordTransforms.ShiftEachAscii | src/internal/transforms.ts:117-169 | with every round starting from the parameter, each ASCII byte of the word becomes (byte + param) mod 128, and nothing else changes |

## Left out

- `src/internal/state.ts`, the bit reader and the decoder proper are not part of this model. Nor are the error classes, primordials and encoding helpers.
- Huffman.ReplicateValue: requires that every write lands inside the table. A JavaScript typed array silently drops a write past its end; the model has no such writes.
- TableBuilder.BuildHuffmanTable: requires room for TableSize slots after tableOffset, for the same reason.
- TableBuilder.BuildHuffmanTable: requires every code length in 0..15, because a larger one indexes `count` past its end.
- TableBuilder.BuildHuffmanTable: requires at most one code, or a complete code (KraftSum equal to 2^15). The decoder rejects over- and under-subscribed lengths before it calls the builder; the table of such a code is not modelled.
- TableBuilder.BuildHuffmanTable: requires at most 2^16 symbols. The source packs `bits << 16 | symbol`; the model writes `bits * 0x10000 + symbol`, which is the same only for symbols below 2^16. Every Brotli alphabet has fewer than 2^11 symbols.
- WordTransforms.Transforms.Unpack: requires that a pool string of the right length has exactly prefixSuffixCount '#' characters, so that every head and pool write lands inside its array.
- WordTransforms.Transforms.TransformDictionaryWord: requires the prefix and suffix indices to name pieces of the pool, and the window of the word to lie inside src and the output inside dst. Writes past the end of a typed array are not modelled.
- WordTransforms.CaseOrShiftFits: upper-casing (types 10 and 11) may write up to two bytes past the word. The model requires those bytes to lie inside dst.
- Helpers.Log2Floor: requires 0 <= i < 2^32. The source's `>>>` first converts its operand to an unsigned 32-bit integer; negative and larger numbers, fractions and NaN are not modelled.
- JavaScript number semantics (doubles, ToInt32 on shifts) are not modelled; all values are unbounded integers kept within the ranges the source uses.
- Strings are sequences of Unicode scalar values standing for UTF-16 code units. Strings that contain surrogate code units (any text outside the Basic Multilingual Plane) are not modelled: such text would count as one character where JavaScript counts two, which changes Unpack's length tests and its `charCodeAt` reads. The decoder's pool and triplet strings are ASCII. Storing a character in the `Int8Array` pool keeps its code modulo 256.
- A thrown `BrotliDecoderTransformError` is returned as `Error(FormatTransform)`; the message text is left out.
- Upper-casing XORs bit 0 and bit 2 (`^ 5`) of the third byte for every lead byte from 0xE0 up, including the leads of 4-byte sequences and invalid bytes. The model follows the code; a description that speaks only of 3-byte code points is narrower than the code.
- `params` is never written by `unpack`; the model keeps it as the constructor left it or as the caller sets it, within the signed 16-bit range.

## Findings

| source | as written | input that shows it | evidently intended | confidence | as-written member | corrected member |
|---|---|---|---|---|---|---|
| src/internal/transforms.ts:125 | the shift loop adds each code point to `scalar` and never resets it, so every code point after the first is also shifted by the sum of the code points before it | the word "aa" (bytes 97, 97) with parameter 1 under transform 22 becomes "bC" (98, 67) | each code point is shifted by the signed parameter alone, so "aa" becomes "bb" | not executed | WordTransforms.ShiftCarriesSum | WordTransforms.ShiftEachAscii |

`ShiftCodePoints` takes a `carry` flag. With the flag set it follows the
loop as written: `CaseOrShift`, `ShiftInPlace` and so
`TransformDictionaryWord` use it, and `ShiftCarriesSum` and
`ShiftCarriesAscii` state what it computes. Without the flag every round
starts from the parameter's scalar; `ShiftEachAscii` and
`ShiftEachExample` prove the intended per-code-point shift for that walk.
That proof covers ASCII words only; for words with multi-byte code
points the intended shift is stated for the first code point alone
(`ShiftFirstBySigned`).
