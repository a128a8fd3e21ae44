/** Dictionary word transforms (section 8 of RFC 7932, plus the code point
    shift transforms of the shared-dictionary extension).

    A transform is a triplet (prefix index, type, suffix index).  The
    prefixes and suffixes live in one byte pool: `prefixSuffixStorage` holds
    their bytes back to back and `prefixSuffixHeads[k] .. prefixSuffixHeads[k + 1]`
    is the range of entry k.  Applying a transform writes the prefix, the
    word with some bytes omitted at either end, and the suffix, and then
    upper-cases or shifts the code points of the written word.

    The byte arrays of the decoder are signed 8-bit arrays; here every byte
    is its unsigned value 0..255.  Reading with `& 0xFF`, `& 0x3F` or
    `& 0xC0` gives the same bits either way, and a store keeps the low
    eight bits of the value stored. */
module WordTransforms {
  import opened Binary

  /** The error code FORMAT_TRANSFORM of the decoder. */
  const FormatTransform := -11

  datatype Outcome = Ok | Error(code: int)

  predicate IsByte(v: int)
  {
    0 <= v < 256
  }

  predicate Bytes(s: seq<int>)
  {
    forall i :: 0 <= i < |s| ==> IsByte(s[i])
  }

  /** The three kinds of UTF-8 byte: one-byte code point (0xxxxxxx),
      continuation (10xxxxxx), and lead of a longer sequence or invalid (11xxxxxx). */
  function ByteClass(b: int): int
  {
    if b < 0x80 then 0 else if b < 0xC0 then 1 else 2
  }

  predicate SameClasses(a: seq<int>, b: seq<int>)
  {
    |a| == |b| && forall i :: 0 <= i < |a| ==> ByteClass(a[i]) == ByteClass(b[i])
  }

  // ---------------------------------------------------------------------
  // The prefix/suffix pool

  /** The byte a character code is stored as in a signed 8-bit array. */
  function CharByte(c: char): (b: int)
    ensures IsByte(b)
  {
    (c as int) % 256
  }

  function CharBytes(s: string): (r: seq<int>)
    ensures |r| == |s| && Bytes(r)
    ensures forall i :: 0 <= i < |s| ==> r[i] == CharByte(s[i])
  {
    seq(|s|, i requires 0 <= i < |s| => CharByte(s[i]))
  }

  /** Number of '#' characters in s. */
  function Hashes(s: string): nat
  {
    if s == [] then 0 else Hashes(s[..|s| - 1]) + (if s[|s| - 1] == '#' then 1 else 0)
  }

  /** The bytes the pool stores: the characters of s other than '#', in order. */
  function PoolText(s: string): (r: seq<int>)
    ensures |r| + Hashes(s) == |s|
    ensures Bytes(r)
  {
    if s == [] then []
    else PoolText(s[..|s| - 1]) + if s[|s| - 1] == '#' then [] else [CharByte(s[|s| - 1])]
  }

  /** One head per '#': the number of pool bytes stored before it. */
  function PoolHeads(s: string): (r: seq<int>)
    ensures |r| == Hashes(s)
  {
    if s == [] then []
    else PoolHeads(s[..|s| - 1]) + if s[|s| - 1] == '#' then [|PoolText(s[..|s| - 1])|] else []
  }

  /** The head array after unpacking: entry 0 keeps the start of the pool. */
  function Heads(s: string): (r: seq<int>)
    ensures |r| == Hashes(s) + 1 && r[0] == 0
  {
    [0] + PoolHeads(s)
  }

  /** The text after the last '#' of s (all of s when there is none). */
  function Tail(s: string): string
  {
    if s == [] then []
    else if s[|s| - 1] == '#' then []
    else Tail(s[..|s| - 1]) + [s[|s| - 1]]
  }

  /** The '#'-terminated pieces of s, in order: the prefixes and suffixes
      the pool describes. */
  function Pieces(s: string): seq<string>
  {
    if s == [] then []
    else Pieces(s[..|s| - 1]) + if s[|s| - 1] == '#' then [Tail(s[..|s| - 1])] else []
  }

  /** The text after the last '#' is what the pool stores after the last head. */
  lemma {:induction false} TailIsStoredLast(s: string)
    ensures |Tail(s)| <= |PoolText(s)|
    ensures Heads(s)[|Heads(s)| - 1] == |PoolText(s)| - |Tail(s)|
    ensures PoolText(s)[|PoolText(s)| - |Tail(s)|..] == CharBytes(Tail(s))
  {
    if s != [] {
      var init, c := s[..|s| - 1], s[|s| - 1];
      TailIsStoredLast(init);
      if c != '#' {
        assert PoolText(s) == PoolText(init) + [CharByte(c)];
        assert Heads(s) == Heads(init);
        assert CharBytes(Tail(s)) == CharBytes(Tail(init)) + [CharByte(c)];
      }
    }
  }

  /** heads are offsets into a pool of total bytes: the first is 0, all lie
      within the pool, and they never decrease. */
  predicate OrderedHeads(heads: seq<int>, total: int)
  {
    |heads| >= 1 && heads[0] == 0 &&
    (forall k :: 0 <= k < |heads| ==> 0 <= heads[k] <= total) &&
    (forall k, l :: 0 <= k <= l < |heads| ==> heads[k] <= heads[l])
  }

  /** text and heads hold pieces: head range k of text is piece k. */
  predicate Describes(text: seq<int>, heads: seq<int>, pieces: seq<string>)
  {
    OrderedHeads(heads, |text|) && |heads| == |pieces| + 1 &&
    forall k :: 0 <= k < |pieces| ==> text[heads[k]..heads[k + 1]] == CharBytes(pieces[k])
  }

  /** Unpacking is a round trip: the stored bytes and the heads hold exactly
      the '#'-terminated pieces of the pool string, in order. */
  lemma {:induction false} PoolPieces(s: string)
    ensures Describes(PoolText(s), Heads(s), Pieces(s))
  {
    if s != [] {
      var init, c := s[..|s| - 1], s[|s| - 1];
      PoolPieces(init);
      var h, t, ps := Heads(init), PoolText(init), Pieces(init);
      if c == '#' {
        TailIsStoredLast(init);
        assert Heads(s) == h + [|t|];
        assert PoolText(s) == t;
        assert Pieces(s) == ps + [Tail(init)];
        DescribesAddPiece(t, h, ps, Tail(init));
      } else {
        assert Heads(s) == h;
        assert PoolText(s) == t + [CharByte(c)];
        assert Pieces(s) == ps;
        DescribesAddByte(t, h, ps, CharByte(c));
      }
    }
  }

  /** A '#' closes the piece stored after the last head. */
  lemma DescribesAddPiece(t: seq<int>, h: seq<int>, ps: seq<string>, piece: string)
    requires Describes(t, h, ps) && |piece| <= |t| && h[|h| - 1] == |t| - |piece|
    requires t[|t| - |piece|..] == CharBytes(piece)
    ensures Describes(t, h + [|t|], ps + [piece])
  {
    var h' := h + [|t|];
    assert OrderedHeads(h', |t|) by {
      forall k, l | 0 <= k <= l < |h'|
        ensures h'[k] <= h'[l]
      {
        if l < |h| {
          assert h'[k] == h[k] && h'[l] == h[l];
        } else if k < |h| {
          assert h[k] <= h[|h| - 1];
        }
      }
    }
    forall k | 0 <= k < |ps| + 1
      ensures t[h'[k]..h'[k + 1]] == CharBytes((ps + [piece])[k])
    {
      if k < |ps| {
        assert h'[k] == h[k] && h'[k + 1] == h[k + 1];
      }
    }
  }

  /** Any other character extends the text and leaves the pieces. */
  lemma DescribesAddByte(t: seq<int>, h: seq<int>, ps: seq<string>, b: int)
    requires Describes(t, h, ps)
    ensures Describes(t + [b], h, ps)
  {
    var t' := t + [b];
    forall k | 0 <= k < |ps|
      ensures t'[h[k]..h[k + 1]] == CharBytes(ps[k])
    {
      assert t'[h[k]..h[k + 1]] == t[h[k]..h[k + 1]];
    }
  }

  /** How one more character extends the unpacked pool. */
  lemma PoolStep(s: string, i: nat)
    requires i < |s|
    ensures Hashes(s[..i + 1]) == Hashes(s[..i]) + if s[i] == '#' then 1 else 0
    ensures PoolText(s[..i + 1]) == PoolText(s[..i]) + if s[i] == '#' then [] else [CharByte(s[i])]
    ensures Heads(s[..i + 1]) == Heads(s[..i]) + if s[i] == '#' then [|PoolText(s[..i])|] else []
  {
    assert s[..i + 1][..i] == s[..i];
  }

  /** A prefix of the pool string never stores more than the whole. */
  lemma {:induction false} PoolPrefix(s: string, i: nat)
    requires i <= |s|
    ensures |PoolText(s[..i])| <= |PoolText(s)| && Hashes(s[..i]) <= Hashes(s)
    decreases |s| - i
  {
    if i < |s| {
      PoolPrefix(s, i + 1);
      PoolStep(s, i);
    } else {
      assert s[..i] == s;
    }
  }

  /** text and hds are what the first i characters of s unpack to. */
  ghost predicate Unpacked(s: string, i: nat, text: seq<int>, hds: seq<int>)
  {
    i <= |s| && text == PoolText(s[..i]) && hds == Heads(s[..i]) &&
    |text| <= |PoolText(s)| && |hds| <= Hashes(s) + 1
  }

  /** Unpacking one more character. */
  lemma UnpackedStep(s: string, i: nat, text: seq<int>, hds: seq<int>)
    requires i < |s| && Unpacked(s, i, text, hds)
    ensures s[i] == '#' ==> Unpacked(s, i + 1, text, hds + [|text|])
    ensures s[i] != '#' ==> Unpacked(s, i + 1, text + [CharByte(s[i])], hds)
  {
    PoolPrefix(s, i + 1);
    PoolStep(s, i);
  }

  /** The pool loop of unpack on the two arrays it fills: '#' records the
      count of bytes stored so far as the next head, any other character is
      stored. */
  method StorePool(src: string, storage: array<int>, heads: array<int>)
    requires storage != heads && storage.Length == |PoolText(src)|
    requires heads.Length == Hashes(src) + 1 && heads[0] == 0
    modifies storage, heads
    ensures storage[..] == PoolText(src) && heads[..] == Heads(src)
  {
    var index, j := 1, 0;
    ghost var text: seq<int>, hds := [], [0];
    assert src[..0] == [];
    for i := 0 to |src|
      invariant Unpacked(src, i, text, hds)
      invariant index == |hds| && j == |text|
      invariant storage[..j] == text && heads[..index] == hds
    {
      UnpackedStep(src, i, text, hds);
      var c := src[i];
      if c == '#' {
        heads[index] := j;
        assert heads[..index + 1] == hds + [j];
        hds := hds + [j];
        index := index + 1;
      } else {
        storage[j] := (c as int) % 256;
        assert storage[..j + 1] == text + [CharByte(c)];
        text := text + [CharByte(c)];
        j := j + 1;
      }
    }
    assert src[..|src|] == src;
    assert storage[..] == storage[..j];
    assert heads[..] == heads[..index];
  }

  /** The transform triplets: each character code minus 32. */
  function TripletCodes(s: string): (r: seq<int>)
    ensures |r| == |s|
    ensures forall i :: 0 <= i < |s| ==> r[i] + 32 == s[i] as int
  {
    seq(|s|, i requires 0 <= i < |s| => s[i] as int - 32)
  }

  // ---------------------------------------------------------------------
  // Word layout

  /** The bytes dropped from the front of the word: type - 11 for types 12..20,
      never more than the word. */
  function OmitFirst(transform: int, wordLen: int): int
  {
    var omit := if transform - 11 < 1 || transform - 11 > 9 then 0 else transform - 11;
    if omit > wordLen then wordLen else omit
  }

  /** The bytes dropped from the back of the word: the type itself for types 1..9. */
  function OmitLast(transform: int): int
  {
    if transform < 1 || transform > 9 then 0 else transform
  }

  /** The number of word bytes written: what is left after both omissions. */
  function WindowLen(transform: int, wordLen: int): int
  {
    var len := wordLen - (OmitFirst(transform, wordLen) + OmitLast(transform));
    if len > 0 then len else 0
  }

  /** The word bytes a transform keeps. */
  function Window(src: seq<int>, srcOffset: int, wordLen: int, transform: int): seq<int>
    requires 0 <= srcOffset && 0 <= wordLen
    requires srcOffset + OmitFirst(transform, wordLen) + WindowLen(transform, wordLen) <= |src|
  {
    var start := srcOffset + OmitFirst(transform, wordLen);
    src[start..start + WindowLen(transform, wordLen)]
  }

  /** The kept bytes are the word with omitFirst bytes cut from the front and
      omitLast from the back: types 1..9 drop that many final bytes, types
      12..20 drop type - 11 leading bytes, and every other type keeps the
      whole word. */
  lemma WindowOfWord(src: seq<int>, srcOffset: int, wordLen: int, transform: int)
    requires 0 <= srcOffset && 0 <= wordLen && srcOffset + wordLen <= |src|
    ensures WindowLen(transform, wordLen) + OmitFirst(transform, wordLen) <= wordLen
    ensures 1 <= transform <= 9 ==>
      Window(src, srcOffset, wordLen, transform) ==
        if wordLen >= transform then src[srcOffset..srcOffset + wordLen - transform] else []
    ensures 12 <= transform <= 20 ==>
      Window(src, srcOffset, wordLen, transform) ==
        if wordLen >= transform - 11 then src[srcOffset + transform - 11..srcOffset + wordLen] else []
    ensures !(1 <= transform <= 9) && !(12 <= transform <= 20) ==>
      Window(src, srcOffset, wordLen, transform) == src[srcOffset..srcOffset + wordLen]
  {
  }

  /** buf with piece written from index at on. */
  function Overwrite(buf: seq<int>, at: int, piece: seq<int>): (r: seq<int>)
    requires 0 <= at && at + |piece| <= |buf|
    ensures |r| == |buf|
    ensures Bytes(buf) && Bytes(piece) ==> Bytes(r)
  {
    buf[..at] + piece + buf[at + |piece|..]
  }

  /** Every byte of the overwritten range comes from piece, every other one
      from buf. */
  lemma OverwriteAt(buf: seq<int>, at: int, piece: seq<int>)
    requires 0 <= at && at + |piece| <= |buf|
    ensures forall i :: 0 <= i < |buf| ==>
      Overwrite(buf, at, piece)[i] == if at <= i < at + |piece| then piece[i - at] else buf[i]
  {
  }

  // ---------------------------------------------------------------------
  // Upper-casing

  /** x ^ m for a mask m with a single bit set: that bit flips. */
  function Flip(x: int, m: int): int
    requires m > 0
  {
    if (x / m) % 2 == 1 then x - m else x + m
  }

  /** The upper-case form of an ASCII letter; other bytes stay. */
  function AsciiUpper(b: int): int
  {
    if 'a' as int <= b <= 'z' as int then b - 32 else b
  }

  /** Walks len bytes from pos as UTF-8: a byte below 0xC0 is one code point
      and is upper-cased when it is a lower-case ASCII letter; a lead
      0xC0..0xDF flips bit 5 of the byte after it; any other lead flips bits
      0 and 2 (XOR 5) of the byte two ahead.  Writes may reach two bytes past
      the walked range.  Only the first len bytes' code points are visited:
      with len == 1 that is the first code point only. */
  function UpperCase(buf: seq<int>, pos: int, len: int): (r: seq<int>)
    requires Bytes(buf) && 0 <= pos && (len > 0 ==> pos + len + 2 <= |buf|)
    ensures |r| == |buf| && Bytes(r)
    decreases len
  {
    if len <= 0 then buf
    else
      var c0 := buf[pos];
      if c0 < 0xC0 then
        UpperCase(if 97 <= c0 <= 122 then buf[pos := Flip(c0, 32)] else buf, pos + 1, len - 1)
      else if c0 < 0xE0 then
        UpperCase(buf[pos + 1 := Flip(buf[pos + 1], 32)], pos + 2, len - 2)
      else
        UpperCase(buf[pos + 2 := Flip(Flip(buf[pos + 2], 1), 4)], pos + 3, len - 3)
  }

  /** Flipping bit 5, or bits 0 and 2, keeps the top two bits of a byte. */
  lemma FlipKeepsClass(b: int)
    requires IsByte(b)
    ensures IsByte(Flip(b, 32)) && Flip(b, 32) / 64 == b / 64
    ensures IsByte(Flip(Flip(b, 1), 4)) && Flip(Flip(b, 1), 4) / 64 == b / 64
    ensures ByteClass(Flip(b, 32)) == ByteClass(b) && ByteClass(Flip(Flip(b, 1), 4)) == ByteClass(b)
  {
  }

  /** Upper-casing keeps every byte in its UTF-8 class and writes nothing
      outside the walked range and the two bytes after it. */
  lemma {:induction false} UpperCaseFrame(buf: seq<int>, pos: int, len: int)
    requires Bytes(buf) && 0 <= pos && (len > 0 ==> pos + len + 2 <= |buf|)
    ensures SameClasses(buf, UpperCase(buf, pos, len))
    ensures forall i :: 0 <= i < |buf| && !(pos <= i < pos + len + 2) ==> UpperCase(buf, pos, len)[i] == buf[i]
    decreases len
  {
    if len > 0 {
      var next, p, n := UpperCaseRound(buf, pos, len);
      UpperCaseFrame(next, p, n);
      SameClassesTrans(buf, next, UpperCase(next, p, n));
    }
  }

  /** One round of the upper-casing walk: one byte among the next three
      flips within its class, and the walk goes on past the code point. */
  lemma UpperCaseRound(buf: seq<int>, pos: int, len: int) returns (next: seq<int>, p: int, n: int)
    requires Bytes(buf) && 0 <= pos && 0 < len && pos + len + 2 <= |buf|
    ensures Bytes(next) && SameClasses(buf, next)
    ensures forall i :: 0 <= i < |buf| && !(pos <= i < pos + 3) ==> next[i] == buf[i]
    ensures pos < p && p + n == pos + len && (n > 0 ==> p + n + 2 <= |next|)
    ensures UpperCase(buf, pos, len) == UpperCase(next, p, n)
  {
    var c0 := buf[pos];
    if c0 < 0xC0 {
      p, n := pos + 1, len - 1;
      if 97 <= c0 <= 122 {
        FlipKeepsClass(c0);
        UpdateKeepsClasses(buf, pos, Flip(c0, 32));
        next := buf[pos := Flip(c0, 32)];
      } else {
        next := buf;
      }
    } else if c0 < 0xE0 {
      FlipKeepsClass(buf[pos + 1]);
      UpdateKeepsClasses(buf, pos + 1, Flip(buf[pos + 1], 32));
      next, p, n := buf[pos + 1 := Flip(buf[pos + 1], 32)], pos + 2, len - 2;
    } else {
      FlipKeepsClass(buf[pos + 2]);
      UpdateKeepsClasses(buf, pos + 2, Flip(Flip(buf[pos + 2], 1), 4));
      next, p, n := buf[pos + 2 := Flip(Flip(buf[pos + 2], 1), 4)], pos + 3, len - 3;
    }
  }

  /** On ASCII text the walk upper-cases every letter and changes nothing else. */
  lemma {:induction false} UpperCaseAscii(buf: seq<int>, pos: int, len: int)
    requires Bytes(buf) && 0 <= pos && (len > 0 ==> pos + len + 2 <= |buf|)
    requires forall i :: pos <= i < pos + len ==> buf[i] < 0x80
    ensures forall i :: 0 <= i < |buf| ==>
      UpperCase(buf, pos, len)[i] == if pos <= i < pos + len then AsciiUpper(buf[i]) else buf[i]
    decreases len
  {
    if len > 0 {
      var c0 := buf[pos];
      var next := if 97 <= c0 <= 122 then buf[pos := Flip(c0, 32)] else buf;
      assert next[pos] == AsciiUpper(c0);
      UpperCaseAscii(next, pos + 1, len - 1);
    }
  }

  // ---------------------------------------------------------------------
  // Code point shift

  /** The start value of the shift accumulator: the 16-bit parameter read
      as signed, plus 2^24. */
  function InitialScalar(param: int): (s: int)
    requires -0x8000 <= param < 0x8000
  {
    var u := param % 0x1_0000;  // the 16 bits of param
    (u % 0x8000) + (0x100_0000 - (u / 0x8000) * 0x8000)
  }

  lemma InitialScalarIsSigned(param: int)
    requires -0x8000 <= param < 0x8000
    ensures InitialScalar(param) == 0x100_0000 + param
    ensures InitialScalar(param) > 0
  {
  }

  /** Result of shifting one code point: the new buffer, the number of bytes
      the walk advances and the new accumulator. */
  datatype Step = Step(buf: seq<int>, size: int, scalar: int)

  /** The length of the UTF-8 sequence a lead byte announces (0 for a
      continuation byte or an invalid lead). */
  function SequenceLength(c0: int): int
  {
    if c0 < 0x80 then 1 else if c0 < 0xC0 then 0 else if c0 < 0xE0 then 2
    else if c0 < 0xF0 then 3 else if c0 < 0xF8 then 4 else 0
  }

  /** The payload bits of a sequence of size bytes. */
  function PayloadBits(size: int): nat
  {
    if size == 1 then 7 else if size == 2 then 11 else if size == 3 then 16 else 21
  }

  /** The code point a sequence of size 1..4 at pos carries. */
  function CodePoint(buf: seq<int>, pos: int, size: int): int
    requires 1 <= size <= 4 && 0 <= pos && pos + size <= |buf|
  {
    if size == 1 then buf[pos] % 0x80
    else if size == 2 then (buf[pos] % 0x20) * 0x40 + buf[pos + 1] % 0x40
    else if size == 3 then (buf[pos] % 0x10) * 0x1000 + (buf[pos + 1] % 0x40) * 0x40 + buf[pos + 2] % 0x40
    else (buf[pos] % 0x08) * 0x4_0000 + (buf[pos + 1] % 0x40) * 0x1000 + (buf[pos + 2] % 0x40) * 0x40 + buf[pos + 3] % 0x40
  }

  /** (c & 0xC0) | (v & 0x3F): the two marker bits of c over six payload bits of v. */
  function Recoded(c: int, v: int): (r: int)
    requires IsByte(c) && v >= 0
    ensures IsByte(r) && ByteClass(r) == ByteClass(c) && r % 0x40 == v % 0x40
  {
    (c / 0x40) * 0x40 + v % 0x40
  }

  /** marker | (v & (m - 1)): a lead byte of the kind marker announces,
      carrying the low bits of v. */
  function Marked(marker: int, v: int, m: int): (r: int)
    requires (marker == 0xC0 && m == 0x20) || (marker == 0xE0 && m == 0x10) || (marker == 0xF0 && m == 0x08)
    requires v >= 0
    ensures marker <= r < marker + m && r % m == v % m
  {
    marker + v % m
  }

  /** One round of the shift walk at pos with len bytes left: the code point
      starting there is added to the accumulator and the low bits of the sum
      are written back at the same width; continuation bytes, invalid leads
      and sequences longer than what is left are stepped over unchanged. */
  function ShiftStep(buf: seq<int>, pos: int, len: int, scalar: int): (st: Step)
    requires Bytes(buf) && 0 <= pos && 1 <= len && pos + len <= |buf| && scalar >= 0
    ensures 1 <= st.size <= len && st.scalar >= scalar && |st.buf| == |buf|
  {
    var c0 := buf[pos];
    if c0 < 0x80 then
      var s := scalar + c0;
      Step(buf[pos := s % 0x80], 1, s)
    else if c0 < 0xC0 then
      Step(buf, 1, scalar)
    else if c0 < 0xE0 then
      if len >= 2 then
        var c1 := buf[pos + 1];
        var s := scalar + (c1 % 0x40 + (c0 % 0x20) * 0x40);
        Step(buf[pos := Marked(0xC0, s / 0x40, 0x20)][pos + 1 := Recoded(c1, s)], 2, s)
      else Step(buf, len, scalar)
    else if c0 < 0xF0 then
      if len >= 3 then
        var c1, c2 := buf[pos + 1], buf[pos + 2];
        var s := scalar + (c2 % 0x40 + (c1 % 0x40) * 0x40 + (c0 % 0x10) * 0x1000);
        Step(buf[pos := Marked(0xE0, s / 0x1000, 0x10)]
                [pos + 1 := Recoded(c1, s / 0x40)]
                [pos + 2 := Recoded(c2, s)], 3, s)
      else Step(buf, len, scalar)
    else if c0 < 0xF8 then
      if len >= 4 then
        var c1, c2, c3 := buf[pos + 1], buf[pos + 2], buf[pos + 3];
        var s := scalar + (c3 % 0x40 + (c2 % 0x40) * 0x40 + (c1 % 0x40) * 0x1000 + (c0 % 0x08) * 0x4_0000);
        Step(buf[pos := Marked(0xF0, s / 0x4_0000, 0x08)]
                [pos + 1 := Recoded(c1, s / 0x1000)]
                [pos + 2 := Recoded(c2, s / 0x40)]
                [pos + 3 := Recoded(c3, s)], 4, s)
      else Step(buf, len, scalar)
    else
      Step(buf, 1, scalar)
  }

  /** Writing a byte of the same class keeps the buffer a byte sequence of
      the same classes and changes only that index. */
  lemma UpdateKeepsClasses(buf: seq<int>, p: int, v: int)
    requires Bytes(buf) && 0 <= p < |buf| && IsByte(v) && ByteClass(v) == ByteClass(buf[p])
    ensures Bytes(buf[p := v]) && SameClasses(buf, buf[p := v])
  {
  }

  lemma SameClassesTrans(a: seq<int>, b: seq<int>, c: seq<int>)
    requires SameClasses(a, b) && SameClasses(b, c)
    ensures SameClasses(a, c)
  {
  }

  /** A round of the shift walk writes bytes of the classes it overwrites,
      and only inside the sequence it visits. */
  lemma ShiftStepKeepsClasses(buf: seq<int>, pos: int, len: int, scalar: int)
    requires Bytes(buf) && 0 <= pos && 1 <= len && pos + len <= |buf| && scalar >= 0
    ensures Bytes(ShiftStep(buf, pos, len, scalar).buf)
    ensures SameClasses(buf, ShiftStep(buf, pos, len, scalar).buf)
    ensures forall i :: 0 <= i < |buf| && !(pos <= i < pos + ShiftStep(buf, pos, len, scalar).size) ==>
      ShiftStep(buf, pos, len, scalar).buf[i] == buf[i]
  {
    var st := ShiftStep(buf, pos, len, scalar);
    var c0 := buf[pos];
    var b := buf;
    for k := 0 to st.size
      invariant Bytes(b) && SameClasses(buf, b) && |b| == |buf|
      invariant forall i :: 0 <= i < |buf| && !(pos <= i < pos + k) ==> b[i] == buf[i]
      invariant forall i :: pos <= i < pos + k ==> b[i] == st.buf[i]
    {
      if st.buf[pos + k] != buf[pos + k] {
        ShiftStepByte(buf, pos, len, scalar, k);
        UpdateKeepsClasses(b, pos + k, st.buf[pos + k]);
        SameClassesTrans(buf, b, b[pos + k := st.buf[pos + k]]);
      }
      b := b[pos + k := st.buf[pos + k]];
    }
    assert b == st.buf;
  }

  lemma ShiftStepBytes(buf: seq<int>, pos: int, len: int, scalar: int)
    requires Bytes(buf) && 0 <= pos && 1 <= len && pos + len <= |buf| && scalar >= 0
    ensures Bytes(ShiftStep(buf, pos, len, scalar).buf)
  {
    ShiftStepKeepsClasses(buf, pos, len, scalar);
  }

  /** Byte k of the visited sequence after the round is a byte of the
      class it had. */
  lemma ShiftStepByte(buf: seq<int>, pos: int, len: int, scalar: int, k: int)
    requires Bytes(buf) && 0 <= pos && 1 <= len && pos + len <= |buf| && scalar >= 0
    requires 0 <= k < ShiftStep(buf, pos, len, scalar).size
    ensures IsByte(ShiftStep(buf, pos, len, scalar).buf[pos + k])
    ensures ByteClass(ShiftStep(buf, pos, len, scalar).buf[pos + k]) == ByteClass(buf[pos + k])
  {
  }

  /** What the shift walk needs at every round: a byte buffer, a position
      with len bytes after it and a non-negative accumulator. */
  predicate ShiftArgs(buf: seq<int>, pos: int, len: int, scalar: int)
  {
    Bytes(buf) && 0 <= pos && (len > 0 ==> pos + len <= |buf|) && scalar >= 0
  }

  /** The shift walk over len bytes from pos; with once set it stops after
      the first round.  With carry set every round starts from the sum the
      round before left, as transformDictionaryWord is written; without it
      every round starts from scalar, so that each code point is shifted
      by the parameter alone, as the transform is meant to work. */
  function ShiftCodePoints(buf: seq<int>, pos: int, len: int, scalar: int, once: bool, carry: bool): (r: seq<int>)
    requires ShiftArgs(buf, pos, len, scalar)
    ensures |r| == |buf| && Bytes(r)
    decreases len, 1
  {
    if len <= 0 then buf
    else
      ShiftStepBytes(buf, pos, len, scalar);
      ShiftFrom(ShiftStep(buf, pos, len, scalar), pos, len, once, carry, scalar)
  }

  /** The shift walk after the round st at pos: done when once is set,
      otherwise the walk over the bytes after st's sequence, from st's sum
      with carry set and from scalar without. */
  function ShiftFrom(st: Step, pos: int, len: int, once: bool, carry: bool, scalar: int): (r: seq<int>)
    requires Bytes(st.buf) && 0 <= pos && 1 <= st.size <= len && pos + len <= |st.buf| && st.scalar >= 0
    requires scalar >= 0
    ensures |r| == |st.buf| && Bytes(r)
    decreases len, 0
  {
    if once then st.buf
    else ShiftCodePoints(st.buf, pos + st.size, len - st.size, if carry then st.scalar else scalar, once, carry)
  }

  /** The shift walk keeps every byte in its UTF-8 class and writes nothing
      outside the walked range. */
  lemma {:induction false} ShiftCodePointsFrame(buf: seq<int>, pos: int, len: int, scalar: int, once: bool,
                                                 carry: bool)
    requires ShiftArgs(buf, pos, len, scalar)
    ensures SameClasses(buf, ShiftCodePoints(buf, pos, len, scalar, once, carry))
    ensures forall i :: 0 <= i < |buf| && !(pos <= i < pos + len) ==>
      ShiftCodePoints(buf, pos, len, scalar, once, carry)[i] == buf[i]
    decreases len, 1
  {
    if len > 0 {
      ShiftStepKeepsClasses(buf, pos, len, scalar);
      ShiftCodePointsUnfold(buf, pos, len, scalar, once, carry);
      ShiftFromFrame(buf, ShiftStep(buf, pos, len, scalar), pos, len, once, carry, scalar);
    }
  }

  /** ShiftCodePointsFrame after a round st that kept the classes of buf
      and wrote only its own sequence. */
  lemma {:induction false} ShiftFromFrame(buf: seq<int>, st: Step, pos: int, len: int, once: bool, carry: bool,
                                          scalar: int)
    requires Bytes(st.buf) && 0 <= pos && 1 <= st.size <= len && pos + len <= |st.buf| && st.scalar >= 0
    requires scalar >= 0 && SameClasses(buf, st.buf)
    requires forall i :: 0 <= i < |buf| && !(pos <= i < pos + st.size) ==> st.buf[i] == buf[i]
    ensures SameClasses(buf, ShiftFrom(st, pos, len, once, carry, scalar))
    ensures forall i :: 0 <= i < |buf| && !(pos <= i < pos + len) ==>
      ShiftFrom(st, pos, len, once, carry, scalar)[i] == buf[i]
    decreases len, 0
  {
    if !once {
      var next := if carry then st.scalar else scalar;
      var rest := ShiftCodePoints(st.buf, pos + st.size, len - st.size, next, once, carry);
      assert ShiftFrom(st, pos, len, once, carry, scalar) == rest;
      ShiftCodePointsFrame(st.buf, pos + st.size, len - st.size, next, once, carry);
      SameClassesTrans(buf, st.buf, rest);
    }
  }

  /** A complete sequence is re-encoded at its own width: the code point
      written is the new accumulator modulo the width's range, and the
      accumulator grew by the code point that was there. */
  lemma ShiftStepRecodes(buf: seq<int>, pos: int, len: int, scalar: int)
    requires Bytes(buf) && 0 <= pos && 1 <= len && pos + len <= |buf| && scalar >= 0
    requires 1 <= SequenceLength(buf[pos]) <= len
    ensures ShiftStep(buf, pos, len, scalar).size == SequenceLength(buf[pos])
    ensures ShiftStep(buf, pos, len, scalar).scalar ==
      scalar + CodePoint(buf, pos, SequenceLength(buf[pos]))
    ensures CodePoint(ShiftStep(buf, pos, len, scalar).buf, pos, SequenceLength(buf[pos])) ==
      ShiftStep(buf, pos, len, scalar).scalar % Pow2(PayloadBits(SequenceLength(buf[pos])))
    ensures SequenceLength(ShiftStep(buf, pos, len, scalar).buf[pos]) == SequenceLength(buf[pos])
  {
    var n := SequenceLength(buf[pos]);
    if n == 1 {
      assert Pow2(7) == 0x80;
    } else if n == 2 {
      Recodes2(buf, pos, len, scalar);
    } else if n == 3 {
      Recodes3(buf, pos, len, scalar);
    } else {
      Recodes4(buf, pos, len, scalar);
    }
  }

  lemma Recodes2(buf: seq<int>, pos: int, len: int, scalar: int)
    requires Bytes(buf) && 0 <= pos && 2 <= len && pos + len <= |buf| && scalar >= 0
    requires 0xC0 <= buf[pos] < 0xE0
    ensures var st := ShiftStep(buf, pos, len, scalar);
      st.size == 2 && st.scalar == scalar + CodePoint(buf, pos, 2) &&
      CodePoint(st.buf, pos, 2) == st.scalar % Pow2(11) && 0xC0 <= st.buf[pos] < 0xE0
  {
    var st := ShiftStep(buf, pos, len, scalar);
    Writes2(buf, pos, len, scalar);
    Payload2(st.buf[pos], st.buf[pos + 1], st.scalar);
  }

  /** The bytes a complete two-byte round writes. */
  lemma Writes2(buf: seq<int>, pos: int, len: int, scalar: int)
    requires Bytes(buf) && 0 <= pos && 2 <= len && pos + len <= |buf| && scalar >= 0
    requires 0xC0 <= buf[pos] < 0xE0
    ensures var st := ShiftStep(buf, pos, len, scalar);
      st.size == 2 && st.scalar == scalar + CodePoint(buf, pos, 2) &&
      st.buf[pos] == Marked(0xC0, st.scalar / 0x40, 0x20) && st.buf[pos + 1] == Recoded(buf[pos + 1], st.scalar)
  {
  }

  lemma Recodes3(buf: seq<int>, pos: int, len: int, scalar: int)
    requires Bytes(buf) && 0 <= pos && 3 <= len && pos + len <= |buf| && scalar >= 0
    requires 0xE0 <= buf[pos] < 0xF0
    ensures var st := ShiftStep(buf, pos, len, scalar);
      st.size == 3 && st.scalar == scalar + CodePoint(buf, pos, 3) &&
      CodePoint(st.buf, pos, 3) == st.scalar % Pow2(16) && 0xE0 <= st.buf[pos] < 0xF0
  {
    var st := ShiftStep(buf, pos, len, scalar);
    Writes3(buf, pos, len, scalar);
    Payload3(st.buf[pos], st.buf[pos + 1], st.buf[pos + 2], st.scalar);
  }

  /** The bytes a complete three-byte round writes. */
  lemma Writes3(buf: seq<int>, pos: int, len: int, scalar: int)
    requires Bytes(buf) && 0 <= pos && 3 <= len && pos + len <= |buf| && scalar >= 0
    requires 0xE0 <= buf[pos] < 0xF0
    ensures var st := ShiftStep(buf, pos, len, scalar);
      st.size == 3 && st.scalar == scalar + CodePoint(buf, pos, 3) &&
      st.buf[pos] == Marked(0xE0, st.scalar / 0x1000, 0x10) &&
      st.buf[pos + 1] == Recoded(buf[pos + 1], st.scalar / 0x40) && st.buf[pos + 2] == Recoded(buf[pos + 2], st.scalar)
  {
  }

  lemma Recodes4(buf: seq<int>, pos: int, len: int, scalar: int)
    requires Bytes(buf) && 0 <= pos && 4 <= len && pos + len <= |buf| && scalar >= 0
    requires 0xF0 <= buf[pos] < 0xF8
    ensures var st := ShiftStep(buf, pos, len, scalar);
      st.size == 4 && st.scalar == scalar + CodePoint(buf, pos, 4) &&
      CodePoint(st.buf, pos, 4) == st.scalar % Pow2(21) && 0xF0 <= st.buf[pos] < 0xF8
  {
    var st := ShiftStep(buf, pos, len, scalar);
    Writes4(buf, pos, len, scalar);
    Payload4(st.buf[pos], st.buf[pos + 1], st.buf[pos + 2], st.buf[pos + 3], st.scalar);
  }

  /** The bytes a complete four-byte round writes. */
  lemma Writes4(buf: seq<int>, pos: int, len: int, scalar: int)
    requires Bytes(buf) && 0 <= pos && 4 <= len && pos + len <= |buf| && scalar >= 0
    requires 0xF0 <= buf[pos] < 0xF8
    ensures var st := ShiftStep(buf, pos, len, scalar);
      st.size == 4 && st.scalar == scalar + CodePoint(buf, pos, 4) &&
      st.buf[pos] == Marked(0xF0, st.scalar / 0x4_0000, 0x08) &&
      st.buf[pos + 1] == Recoded(buf[pos + 1], st.scalar / 0x1000) &&
      st.buf[pos + 2] == Recoded(buf[pos + 2], st.scalar / 0x40) && st.buf[pos + 3] == Recoded(buf[pos + 3], st.scalar)
  {
  }

  /** Payload bits that carry the low 11 bits of s, read back, are s modulo 2^11. */
  lemma Payload2(b0: int, b1: int, s: nat)
    requires b0 % 0x20 == (s / 0x40) % 0x20 && b1 % 0x40 == s % 0x40
    ensures (b0 % 0x20) * 0x40 + b1 % 0x40 == s % Pow2(11)
  {
    assert Pow2(11) == 0x800;
    ModSplit(s, 0x40, 0x20);
  }

  /** Payload bits that carry the low 16 bits of s, read back, are s modulo 2^16. */
  lemma Payload3(b0: int, b1: int, b2: int, s: nat)
    requires b0 % 0x10 == (s / 0x1000) % 0x10 && b1 % 0x40 == (s / 0x40) % 0x40 && b2 % 0x40 == s % 0x40
    ensures (b0 % 0x10) * 0x1000 + (b1 % 0x40) * 0x40 + b2 % 0x40 == s % Pow2(16)
  {
    assert Pow2(16) == 0x1_0000 by {
      Pow2Add(8, 8);
      assert Pow2(8) == 256;
    }
    ModSplit(s, 0x40, 0x400);
    ModSplitOuter(s, 0x40, 0x40, 0x10);
  }

  /** Payload bits that carry the low 21 bits of s, read back, are s modulo 2^21. */
  lemma Payload4(b0: int, b1: int, b2: int, b3: int, s: nat)
    requires b0 % 0x08 == (s / 0x4_0000) % 0x08 && b1 % 0x40 == (s / 0x1000) % 0x40
    requires b2 % 0x40 == (s / 0x40) % 0x40 && b3 % 0x40 == s % 0x40
    ensures (b0 % 0x08) * 0x4_0000 + (b1 % 0x40) * 0x1000 + (b2 % 0x40) * 0x40 + b3 % 0x40 == s % Pow2(21)
  {
    assert Pow2(21) == 0x20_0000 by {
      Pow2Add(8, 13);
      Pow2Add(8, 5);
      assert Pow2(8) == 256;
      assert Pow2(5) == 32;
    }
    ModSplit(s, 0x40, 0x8000);
    ModSplitOuter(s, 0x40, 0x40, 0x200);
    ModSplitOuter(s, 0x1000, 0x40, 0x08);
  }

  /** The low bits of s below a * b split into the low bits below a and the next bits. */
  lemma ModSplit(s: nat, a: nat, b: nat)
    requires a > 0 && b > 0
    ensures s % (a * b) == (s / a) % b * a + s % a
  {
    var q, r := s / a, s % a;
    var hq, hr := q / b, q % b;
    assert s == a * q + r;
    assert q == b * hq + hr;
    assert s == (a * b) * hq + (a * hr + r);
    assert a * hr + r < a * b by {
      MulLe(a, hr, b - 1);
    }
    DivUnique(s, a * b, hq, a * hr + r);
  }

  lemma ModSplitOuter(s: nat, a: nat, b: nat, c: nat)
    requires a > 0 && b > 0 && c > 0
    ensures (s / a) % (b * c) == (s / (a * b)) % c * b + (s / a) % b
  {
    ModSplit(s / a, b, c);
    DivDiv(s, a, b);
  }

  /** Continuation bytes, invalid leads and sequences cut off by the end of
      the word are left as they are and do not touch the accumulator. */
  lemma ShiftStepSkips(buf: seq<int>, pos: int, len: int, scalar: int)
    requires Bytes(buf) && 0 <= pos && 1 <= len && pos + len <= |buf| && scalar >= 0
    requires SequenceLength(buf[pos]) == 0 || SequenceLength(buf[pos]) > len
    ensures ShiftStep(buf, pos, len, scalar).buf == buf
    ensures ShiftStep(buf, pos, len, scalar).scalar == scalar
  {
  }

  /** The first code point is shifted by the signed parameter itself: 2^24 is
      a multiple of every code point range. */
  lemma ShiftFirstBySigned(buf: seq<int>, pos: int, len: int, param: int)
    requires Bytes(buf) && 0 <= pos && 1 <= len && pos + len <= |buf|
    requires -0x8000 <= param < 0x8000
    requires 1 <= SequenceLength(buf[pos]) <= len
    ensures CodePoint(ShiftStep(buf, pos, len, InitialScalar(param)).buf, pos, SequenceLength(buf[pos])) ==
      (CodePoint(buf, pos, SequenceLength(buf[pos])) + param) % Pow2(PayloadBits(SequenceLength(buf[pos])))
  {
    var n := SequenceLength(buf[pos]);
    ShiftStepRecodes(buf, pos, len, InitialScalar(param));
    InitialScalarIsSigned(param);
    SignedShiftMod(ShiftStep(buf, pos, len, InitialScalar(param)).scalar, CodePoint(buf, pos, n), param, PayloadBits(n));
  }

  /** As transformDictionaryWord is written, the shift carries the sum of
      one round into the next: with parameter 1 the word "aa" becomes "bC"
      (98, 67) and not "bb". */
  lemma ShiftCarriesSum()
    ensures ShiftCodePoints([97, 97], 0, 2, InitialScalar(1), false, true) == [98, 67]
  {
    var s0 := InitialScalar(1);
    InitialScalarIsSigned(1);
    var st := ShiftStep([97, 97], 0, 2, s0);
    assert st == Step([98, 97], 1, 0x100_0000 + 98);
    var st2 := ShiftStep([98, 97], 1, 1, st.scalar);
    assert st2 == Step([98, 67], 1, 0x100_0000 + 195);
  }

  /** Without the carry every ASCII byte of the walked range is shifted by
      the parameter alone, modulo 2^7, and nothing else changes. */
  lemma {:induction false} ShiftEachAscii(buf: seq<int>, pos: int, len: int, param: int)
    requires Bytes(buf) && 0 <= pos && 0 <= len && pos + len <= |buf| && -0x8000 <= param < 0x8000
    requires forall i :: pos <= i < pos + len ==> buf[i] < 0x80
    ensures forall i :: 0 <= i < |buf| ==>
      ShiftCodePoints(buf, pos, len, InitialScalar(param), false, false)[i] ==
        if pos <= i < pos + len then (buf[i] + param) % 0x80 else buf[i]
    decreases len
  {
    InitialScalarIsSigned(param);
    if len > 0 {
      var s0 := InitialScalar(param);
      var st := ShiftStep(buf, pos, len, s0);
      assert st.buf == buf[pos := (s0 + buf[pos]) % 0x80] && st.size == 1;
      assert (s0 + buf[pos]) % 0x80 == (buf[pos] + param) % 0x80 by {
        SignedShiftMod(s0 + buf[pos], buf[pos], param, 7);
        assert Pow2(7) == 0x80;
      }
      ShiftStepBytes(buf, pos, len, s0);
      ShiftEachAscii(st.buf, pos + 1, len - 1, param);
      ShiftCodePointsUnfold(buf, pos, len, s0, false, false);
    }
  }

  /** The example of ShiftCarriesSum without the carry: "aa" becomes "bb". */
  lemma ShiftEachExample()
    ensures ShiftCodePoints([97, 97], 0, 2, InitialScalar(1), false, false) == [98, 98]
  {
    ShiftEachAscii([97, 97], 0, 2, 1);
  }

  /** The running sum buf[pos] + ... + buf[i]. */
  function RunSum(buf: seq<int>, pos: int, i: int): int
    requires 0 <= pos <= i < |buf|
    decreases i - pos
  {
    if i == pos then buf[pos] else buf[pos] + RunSum(buf, pos + 1, i)
  }

  lemma {:induction false} RunSumFrame(a: seq<int>, b: seq<int>, pos: int, i: int)
    requires 0 <= pos <= i < |a| == |b|
    requires forall k :: pos <= k <= i ==> a[k] == b[k]
    ensures RunSum(a, pos, i) == RunSum(b, pos, i)
    decreases i - pos
  {
    if i > pos {
      RunSumFrame(a, b, pos + 1, i);
    }
  }

  /** As transformDictionaryWord is written, every ASCII byte of the walked
      range becomes the starting scalar plus the sum of the bytes from pos
      up to and including it, modulo 2^7, and nothing else changes. */
  lemma {:induction false} ShiftSumAscii(buf: seq<int>, pos: int, len: int, scalar: int)
    requires ShiftArgs(buf, pos, len, scalar) && 0 <= len && pos + len <= |buf|
    requires forall i :: pos <= i < pos + len ==> buf[i] < 0x80
    ensures forall i :: 0 <= i < |buf| ==>
      ShiftCodePoints(buf, pos, len, scalar, false, true)[i] ==
        if pos <= i < pos + len then (scalar + RunSum(buf, pos, i)) % 0x80 else buf[i]
    decreases len
  {
    if len > 0 {
      var st := ShiftStep(buf, pos, len, scalar);
      assert st.buf == buf[pos := (scalar + buf[pos]) % 0x80] && st.size == 1 && st.scalar == scalar + buf[pos];
      ShiftStepBytes(buf, pos, len, scalar);
      ShiftSumAscii(st.buf, pos + 1, len - 1, st.scalar);
      ShiftCodePointsUnfold(buf, pos, len, scalar, false, true);
      var r := ShiftCodePoints(buf, pos, len, scalar, false, true);
      assert r == ShiftCodePoints(st.buf, pos + 1, len - 1, st.scalar, false, true);
      forall i | pos < i < pos + len
        ensures r[i] == (scalar + RunSum(buf, pos, i)) % 0x80
      {
        RunSumFrame(st.buf, buf, pos + 1, i);
      }
    }
  }

  /** The as-written shift of an ASCII word from the parameter: byte i
      becomes the parameter plus the bytes of the word up to and including
      it, modulo 2^7. */
  lemma ShiftCarriesAscii(buf: seq<int>, pos: int, len: int, param: int)
    requires Bytes(buf) && 0 <= pos && 0 <= len && pos + len <= |buf| && -0x8000 <= param < 0x8000
    requires forall i :: pos <= i < pos + len ==> buf[i] < 0x80
    ensures forall i :: 0 <= i < |buf| ==>
      ShiftCodePoints(buf, pos, len, InitialScalar(param), false, true)[i] ==
        if pos <= i < pos + len then (param + RunSum(buf, pos, i)) % 0x80 else buf[i]
  {
    InitialScalarIsSigned(param);
    var s0 := InitialScalar(param);
    ShiftSumAscii(buf, pos, len, s0);
    forall i | pos <= i < pos + len
      ensures (s0 + RunSum(buf, pos, i)) % 0x80 == (param + RunSum(buf, pos, i)) % 0x80
    {
      SignedShiftMod(s0 + RunSum(buf, pos, i), RunSum(buf, pos, i), param, 7);
      assert Pow2(7) == 0x80;
    }
  }

  /** Adding 2^24 does not change the low b bits for b <= 24. */
  lemma SignedShiftMod(s: int, c: int, param: int, b: nat)
    requires b <= 24 && s == 0x100_0000 + param + c
    ensures s % Pow2(b) == (c + param) % Pow2(b)
  {
    var m, k := Pow2(b), Pow2(24 - b);
    Pow2Add(b, 24 - b);
    Pow2Of24();
    assert s == (c + param) + m * k;
    ModShift(c + param, m, k);
  }

  lemma ModShift(x: int, m: nat, k: nat)
    requires m > 0
    ensures (x + m * k) % m == x % m
  {
    DivUnique(x + m * k, m, x / m + k, x % m);
  }

  // ---------------------------------------------------------------------
  // The whole transform

  /** The transform types that change the word after it is copied. */
  predicate Recases(transform: int)
  {
    transform == 10 || transform == 11 || transform == 21 || transform == 22
  }

  /** Upper-casing may write up to two bytes past the word (three past its
      start for type 10); those bytes must exist. */
  predicate CaseOrShiftFits(bufLen: int, start: int, wordLen: int, transform: int)
  {
    (transform == 10 ==> start + 3 <= bufLen) &&
    (transform == 11 && wordLen > 0 ==> start + wordLen + 2 <= bufLen)
  }

  /** What the case or shift transform on len bytes from start needs. */
  predicate CaseArgs(buf: seq<int>, start: int, len: int, transform: int, param: int)
  {
    Bytes(buf) && 0 <= start && 0 <= len && start + len <= |buf| &&
    CaseOrShiftFits(|buf|, start, len, transform) && -0x8000 <= param < 0x8000
  }

  /** The case or shift transform on the len word bytes written at start:
      type 10 upper-cases the first code point, 11 all of them; 21 shifts
      the first code point, 22 all of them, each by the parameter plus the
      code points before it (the carried sum); other types change
      nothing. */
  function CaseOrShift(buf: seq<int>, start: int, len: int, transform: int, param: int): (r: seq<int>)
    requires CaseArgs(buf, start, len, transform, param)
    ensures |r| == |buf| && Bytes(r)
    ensures !(Recases(transform)) ==> r == buf
  {
    if transform == 10 then UpperCase(buf, start, 1)
    else if transform == 11 then UpperCase(buf, start, len)
    else if transform == 21 || transform == 22 then
      InitialScalarIsSigned(param);
      ShiftCodePoints(buf, start, len, InitialScalar(param), transform == 21, true)
    else buf
  }

  /** Only the word and, for upper-casing, the up to three bytes after it
      can change. */
  lemma CaseOrShiftFrame(buf: seq<int>, start: int, len: int, transform: int, param: int)
    requires CaseArgs(buf, start, len, transform, param)
    ensures forall i :: 0 <= i < start ==> CaseOrShift(buf, start, len, transform, param)[i] == buf[i]
    ensures forall i :: start + len <= i < |buf| && !((transform == 10 || transform == 11) && i < start + len + 3) ==>
      CaseOrShift(buf, start, len, transform, param)[i] == buf[i]
  {
    if transform == 10 {
      UpperCaseFrame(buf, start, 1);
    } else if transform == 11 {
      UpperCaseFrame(buf, start, len);
    } else if transform == 21 || transform == 22 {
      InitialScalarIsSigned(param);
      ShiftCodePointsFrame(buf, start, len, InitialScalar(param), transform == 21, true);
    }
  }

  /** What writing prefix, transformed word and suffix from at on needs. */
  predicate EmitArgs(buf: seq<int>, at: int, prefix: seq<int>, word: seq<int>, suffix: seq<int>,
                     transform: int, param: int)
  {
    Bytes(buf) && Bytes(prefix) && Bytes(word) && Bytes(suffix) &&
    0 <= at && at + |prefix| + |word| + |suffix| <= |buf| &&
    CaseOrShiftFits(|buf|, at + |prefix|, |word|, transform) &&
    -0x8000 <= param < 0x8000
  }

  /** The buffer after a transform wrote prefix, word and suffix from at on:
      the prefix and the kept word bytes are copied, the case or shift
      transform is applied to the word, and then the suffix is copied. */
  function Emitted(buf: seq<int>, at: int, prefix: seq<int>, word: seq<int>, suffix: seq<int>,
                   transform: int, param: int): (r: seq<int>)
    requires EmitArgs(buf, at, prefix, word, suffix, transform, param)
    ensures |r| == |buf| && Bytes(r)
  {
    var start := at + |prefix|;
    var copied := Overwrite(Overwrite(buf, at, prefix), start, word);
    Overwrite(CaseOrShift(copied, start, |word|, transform, param), start + |word|, suffix)
  }

  /** The layout Emitted leaves: the prefix sits at `at` and the suffix right
      after the kept word; types other than 10, 11, 21 and 22 leave the word
      as it was copied. */
  lemma EmittedLayout(buf: seq<int>, at: int, prefix: seq<int>, word: seq<int>, suffix: seq<int>,
                      transform: int, param: int)
    requires EmitArgs(buf, at, prefix, word, suffix, transform, param)
    ensures var r := Emitted(buf, at, prefix, word, suffix, transform, param);
      r[at..at + |prefix|] == prefix &&
      r[at + |prefix| + |word|..at + |prefix| + |word| + |suffix|] == suffix &&
      (!Recases(transform) ==> r[at + |prefix|..at + |prefix| + |word|] == word)
  {
    var copied, cased, r := EmittedStages(buf, at, prefix, word, suffix, transform, param);
    LayoutPieces(buf, at, prefix, word, suffix, copied, cased, r, !Recases(transform));
  }

  /** Emitted changes nothing before `at`, and nothing past the suffix except
      the up to three bytes past the word that upper-casing may flip. */
  lemma EmittedFrame(buf: seq<int>, at: int, prefix: seq<int>, word: seq<int>, suffix: seq<int>,
                     transform: int, param: int)
    requires EmitArgs(buf, at, prefix, word, suffix, transform, param)
    ensures var r := Emitted(buf, at, prefix, word, suffix, transform, param);
      (forall i :: 0 <= i < at ==> r[i] == buf[i]) &&
      (forall i | at + |prefix| + |word| + |suffix| <= i < |buf| ::
        ((transform == 10 || transform == 11) && i < at + |prefix| + |word| + 3) || r[i] == buf[i])
  {
    var copied, cased, r := EmittedStages(buf, at, prefix, word, suffix, transform, param);
    LayoutFrame(buf, at, prefix, word, suffix, copied, cased, r, transform == 10 || transform == 11);
  }

  /** The three stages of Emitted and what the middle one leaves alone. */
  lemma EmittedStages(buf: seq<int>, at: int, prefix: seq<int>, word: seq<int>, suffix: seq<int>,
                      transform: int, param: int) returns (copied: seq<int>, cased: seq<int>, r: seq<int>)
    requires EmitArgs(buf, at, prefix, word, suffix, transform, param)
    ensures r == Emitted(buf, at, prefix, word, suffix, transform, param)
    ensures copied == Overwrite(Overwrite(buf, at, prefix), at + |prefix|, word)
    ensures |cased| == |copied|
    ensures forall i :: 0 <= i < at + |prefix| ==> cased[i] == copied[i]
    ensures forall i :: (at + |prefix| + |word| <= i < |copied| &&
                         !((transform == 10 || transform == 11) && i < at + |prefix| + |word| + 3)) ==>
      cased[i] == copied[i]
    ensures !Recases(transform) ==> cased == copied
    ensures r == Overwrite(cased, at + |prefix| + |word|, suffix)
  {
    var start := at + |prefix|;
    copied := Overwrite(Overwrite(buf, at, prefix), start, word);
    cased := CaseOrShift(copied, start, |word|, transform, param);
    r := Emitted(buf, at, prefix, word, suffix, transform, param);
    CaseOrShiftFrame(copied, start, |word|, transform, param);
  }

  /** Three writes around a middle step that leaves everything before the
      word alone, and the word too when it keeps: the prefix, the suffix and
      a kept word are where they were written. */
  lemma LayoutPieces(buf: seq<int>, at: int, prefix: seq<int>, word: seq<int>, suffix: seq<int>,
                     copied: seq<int>, cased: seq<int>, r: seq<int>, keeps: bool)
    requires 0 <= at && at + |prefix| + |word| + |suffix| <= |buf|
    requires copied == Overwrite(Overwrite(buf, at, prefix), at + |prefix|, word)
    requires |cased| == |copied|
    requires forall i :: 0 <= i < at + |prefix| ==> cased[i] == copied[i]
    requires keeps ==> cased == copied
    requires r == Overwrite(cased, at + |prefix| + |word|, suffix)
    ensures r[at..at + |prefix|] == prefix
    ensures r[at + |prefix| + |word|..at + |prefix| + |word| + |suffix|] == suffix
    ensures keeps ==> r[at + |prefix|..at + |prefix| + |word|] == word
  {
    var start := at + |prefix|;
    var placed := Overwrite(buf, at, prefix);
    OverwriteAt(buf, at, prefix);
    OverwriteAt(placed, start, word);
    OverwriteAt(cased, start + |word|, suffix);
    assert r[at..start] == prefix by {
      forall i | at <= i < start
        ensures r[i] == prefix[i - at]
      {
        assert r[i] == cased[i] == copied[i] == placed[i];
      }
    }
    if keeps {
      assert r[start..start + |word|] == word by {
        forall i | start <= i < start + |word|
          ensures r[i] == word[i - start]
        {
          assert r[i] == cased[i] == copied[i];
        }
      }
    }
  }

  /** Three writes around a middle step that changes only the word and,
      when wide, the three bytes after it: nothing before the prefix
      changes, and past the suffix only those three bytes can. */
  lemma LayoutFrame(buf: seq<int>, at: int, prefix: seq<int>, word: seq<int>, suffix: seq<int>,
                    copied: seq<int>, cased: seq<int>, r: seq<int>, wide: bool)
    requires 0 <= at && at + |prefix| + |word| + |suffix| <= |buf|
    requires copied == Overwrite(Overwrite(buf, at, prefix), at + |prefix|, word)
    requires |cased| == |copied|
    requires forall i :: 0 <= i < at + |prefix| ==> cased[i] == copied[i]
    requires forall i :: at + |prefix| + |word| <= i < |copied| && !(wide && i < at + |prefix| + |word| + 3) ==>
      cased[i] == copied[i]
    requires r == Overwrite(cased, at + |prefix| + |word|, suffix)
    ensures forall i :: 0 <= i < at ==> r[i] == buf[i]
    ensures forall i | at + |prefix| + |word| + |suffix| <= i < |buf| ::
      (wide && i < at + |prefix| + |word| + 3) || r[i] == buf[i]
  {
    var start := at + |prefix|;
    var placed := Overwrite(buf, at, prefix);
    OverwriteAt(buf, at, prefix);
    OverwriteAt(placed, start, word);
    OverwriteAt(cased, start + |word|, suffix);
    forall i | 0 <= i < at
      ensures r[i] == buf[i]
    {
      assert r[i] == cased[i] == copied[i] == placed[i];
    }
  }

  /** The whole transform as written: transform 22 with parameter 1 on the
      word "aa", with empty prefix and suffix, writes "bC". */
  lemma ShiftTransformExample()
    ensures Emitted([0, 0], 0, [], [97, 97], [], 22, 1) == [98, 67]
  {
    ShiftCarriesSum();
    assert Overwrite(Overwrite([0, 0], 0, []), 0, [97, 97]) == [97, 97];
    assert Overwrite([98, 67], 2, []) == [98, 67];
  }

  /** Transform type 0 with an empty prefix and suffix writes the word as it is. */
  lemma IdentityTransform(buf: seq<int>, at: int, word: seq<int>, param: int)
    requires Bytes(buf) && Bytes(word) && 0 <= at && at + |word| <= |buf|
    requires -0x8000 <= param < 0x8000
    ensures Emitted(buf, at, [], word, [], 0, param) == Overwrite(buf, at, word)
  {
    var copied := Overwrite(Overwrite(buf, at, []), at, word);
    OverwriteAt(buf, at, []);
    OverwriteAt(copied, at + |word|, []);
    assert Overwrite(buf, at, []) == buf;
    assert Overwrite(copied, at + |word|, []) == copied;
  }

  // ---------------------------------------------------------------------
  // The loops of transformDictionaryWord

  /** Copies piece, a run of bytes read from one of the source arrays, to
      dst from offset on and returns the offset after the copy. */
  method CopyBytes(dst: array<int>, offset: int, piece: seq<int>, ghost before: seq<int>) returns (next: int)
    requires dst[..] == before
    requires 0 <= offset && offset + |piece| <= dst.Length
    modifies dst
    ensures next == offset + |piece|
    ensures dst[..] == Overwrite(before, offset, piece)
  {
    next := offset;
    var i := 0;
    while i != |piece|
      invariant 0 <= i <= |piece| && next == offset + i
      invariant forall k :: 0 <= k < dst.Length ==>
        dst[k] == if offset <= k < next then piece[k - offset] else old(dst[k])
    {
      dst[next] := piece[i];
      next, i := next + 1, i + 1;
    }
    OverwriteAt(before, offset, piece);
    assert dst[..] == Overwrite(before, offset, piece);
  }

  method UpperCaseInPlace(dst: array<int>, pos: int, len: int)
    requires Bytes(dst[..]) && 0 <= pos && (len > 0 ==> pos + len + 2 <= dst.Length)
    modifies dst
    ensures dst[..] == UpperCase(old(dst[..]), pos, len)
  {
    var upperOffset, n := pos, len;
    while n > 0
      invariant Bytes(dst[..]) && 0 <= upperOffset && (n > 0 ==> upperOffset + n + 2 <= dst.Length)
      invariant UpperCase(dst[..], upperOffset, n) == UpperCase(old(dst[..]), pos, len)
      decreases n
    {
      var c0 := dst[upperOffset];
      ghost var before := dst[..];
      if c0 < 0xC0 {
        if c0 >= 97 && c0 <= 122 {
          dst[upperOffset] := Flip(c0, 32);
          FlipKeepsClass(c0);
        }
        assert dst[..] == if 97 <= c0 <= 122 then before[upperOffset := Flip(c0, 32)] else before;
        upperOffset, n := upperOffset + 1, n - 1;
      } else if c0 < 0xE0 {
        FlipKeepsClass(dst[upperOffset + 1]);
        dst[upperOffset + 1] := Flip(dst[upperOffset + 1], 32);
        assert dst[..] == before[upperOffset + 1 := Flip(before[upperOffset + 1], 32)];
        upperOffset, n := upperOffset + 2, n - 2;
      } else {
        FlipKeepsClass(dst[upperOffset + 2]);
        dst[upperOffset + 2] := Flip(Flip(dst[upperOffset + 2], 1), 4);
        assert dst[..] == before[upperOffset + 2 := Flip(Flip(before[upperOffset + 2], 1), 4)];
        upperOffset, n := upperOffset + 3, n - 3;
      }
    }
  }

  /** The shift loop of transformDictionaryWord: each round adds its code
      point to the running scalar and the next round starts from that sum,
      as the loop is written (see ShiftCarriesSum). */
  method ShiftInPlace(dst: array<int>, pos: int, len: int, scalar: int, once: bool)
    requires ShiftArgs(dst[..], pos, len, scalar)
    modifies dst
    ensures dst[..] == ShiftCodePoints(old(dst[..]), pos, len, scalar, once, true)
  {
    var shift, n, acc := pos, len, scalar;
    while n > 0
      invariant ShiftArgs(dst[..], shift, n, acc)
      invariant ShiftCodePoints(dst[..], shift, n, acc, once, true)
             == ShiftCodePoints(old(dst[..]), pos, len, scalar, once, true)
      decreases n
    {
      ghost var cur, shift0, n0, acc0 := dst[..], shift, n, acc;
      var step, sum := ShiftOne(dst, shift, n, acc, cur);
      shift, n, acc := shift + step, n - step, sum;
      ShiftStepBytes(cur, shift0, n0, acc0);
      if once {
        n := 0;
        ShiftWalkOnce(cur, shift0, n0, acc0, dst[..]);
      } else {
        ShiftWalkRest(cur, shift0, n0, acc0, dst[..], shift, n, acc);
      }
    }
  }

  /** The walk over all code points is one round followed by the walk over
      what is left, from the sum that round leaves. */
  lemma ShiftWalkRest(buf: seq<int>, pos: int, len: int, scalar: int, next: seq<int>, nextPos: int, nextLen: int,
                      nextScalar: int)
    requires ShiftArgs(buf, pos, len, scalar) && 1 <= len && Bytes(next)
    requires next == ShiftStep(buf, pos, len, scalar).buf
    requires nextPos == pos + ShiftStep(buf, pos, len, scalar).size
    requires nextLen == len - ShiftStep(buf, pos, len, scalar).size
    requires nextScalar == ShiftStep(buf, pos, len, scalar).scalar
    ensures ShiftCodePoints(buf, pos, len, scalar, false, true)
         == ShiftCodePoints(next, nextPos, nextLen, nextScalar, false, true)
  {
    ShiftCodePointsUnfold(buf, pos, len, scalar, false, true);
  }

  /** The walk that stops after the first code point is that one round. */
  lemma ShiftWalkOnce(buf: seq<int>, pos: int, len: int, scalar: int, next: seq<int>)
    requires ShiftArgs(buf, pos, len, scalar) && 1 <= len && Bytes(next)
    requires next == ShiftStep(buf, pos, len, scalar).buf
    ensures ShiftCodePoints(buf, pos, len, scalar, true, true) == next
  {
    ShiftCodePointsUnfold(buf, pos, len, scalar, true, true);
  }

  lemma ShiftCodePointsUnfold(buf: seq<int>, pos: int, len: int, scalar: int, once: bool, carry: bool)
    requires ShiftArgs(buf, pos, len, scalar) && 1 <= len && Bytes(ShiftStep(buf, pos, len, scalar).buf)
    ensures ShiftCodePoints(buf, pos, len, scalar, once, carry)
         == ShiftFrom(ShiftStep(buf, pos, len, scalar), pos, len, once, carry, scalar)
  {
  }

  /** One round of the shift loop: the lead byte picks the width. */
  method ShiftOne(dst: array<int>, shift: int, n: int, scalar: int, ghost cur: seq<int>) returns (step: int, s: int)
    requires dst[..] == cur && ShiftArgs(cur, shift, n, scalar) && 1 <= n
    modifies dst
    ensures dst[..] == ShiftStep(cur, shift, n, scalar).buf
    ensures step == ShiftStep(cur, shift, n, scalar).size && s == ShiftStep(cur, shift, n, scalar).scalar
  {
    var c0 := dst[shift];
    assert c0 == cur[shift];
    if c0 < 0x80 {
      step, s := ShiftAscii(dst, shift, n, scalar, cur);
    } else if c0 < 0xC0 || c0 >= 0xF8 {
      // a continuation byte or an invalid lead is left alone
      step, s := 1, scalar;
    } else if c0 < 0xE0 {
      step, s := ShiftTwo(dst, shift, n, scalar, cur);
    } else if c0 < 0xF0 {
      step, s := ShiftThree(dst, shift, n, scalar, cur);
    } else {
      step, s := ShiftFour(dst, shift, n, scalar, cur);
    }
  }

  /** A one-byte code point: scalar & 0x7F is stored. */
  method ShiftAscii(dst: array<int>, shift: int, n: int, scalar: int, ghost cur: seq<int>) returns (step: int, s: int)
    requires dst[..] == cur && ShiftArgs(cur, shift, n, scalar) && 1 <= n && cur[shift] < 0x80
    modifies dst
    ensures dst[..] == ShiftStep(cur, shift, n, scalar).buf
    ensures step == ShiftStep(cur, shift, n, scalar).size && s == ShiftStep(cur, shift, n, scalar).scalar
  {
    s := scalar + dst[shift];
    dst[shift] := s % 0x80;
    step := 1;
  }

  /** A two-byte code point, when both bytes are inside the word. */
  method ShiftTwo(dst: array<int>, shift: int, n: int, scalar: int, ghost cur: seq<int>) returns (step: int, s: int)
    requires dst[..] == cur && ShiftArgs(cur, shift, n, scalar) && 1 <= n && 0xC0 <= cur[shift] < 0xE0
    modifies dst
    ensures dst[..] == ShiftStep(cur, shift, n, scalar).buf
    ensures step == ShiftStep(cur, shift, n, scalar).size && s == ShiftStep(cur, shift, n, scalar).scalar
  {
    step, s := n, scalar;
    if n >= 2 {
      var c0, c1 := dst[shift], dst[shift + 1];
      s := s + (c1 % 0x40 + (c0 % 0x20) * 0x40);
      var x0, x1 := Marked(0xC0, s / 0x40, 0x20), Recoded(c1, s);
      dst[shift] := x0;
      dst[shift + 1] := x1;
      assert dst[..] == cur[shift := x0][shift + 1 := x1];
      step := 2;
    }
  }

  /** A three-byte code point, when all its bytes are inside the word. */
  method ShiftThree(dst: array<int>, shift: int, n: int, scalar: int, ghost cur: seq<int>) returns (step: int, s: int)
    requires dst[..] == cur && ShiftArgs(cur, shift, n, scalar) && 1 <= n && 0xE0 <= cur[shift] < 0xF0
    modifies dst
    ensures dst[..] == ShiftStep(cur, shift, n, scalar).buf
    ensures step == ShiftStep(cur, shift, n, scalar).size && s == ShiftStep(cur, shift, n, scalar).scalar
  {
    step, s := n, scalar;
    if n >= 3 {
      var c0, c1, c2 := dst[shift], dst[shift + 1], dst[shift + 2];
      s := s + (c2 % 0x40 + (c1 % 0x40) * 0x40 + (c0 % 0x10) * 0x1000);
      var x0, x1, x2 := Marked(0xE0, s / 0x1000, 0x10), Recoded(c1, s / 0x40), Recoded(c2, s);
      dst[shift] := x0;
      dst[shift + 1] := x1;
      dst[shift + 2] := x2;
      assert dst[..] == cur[shift := x0][shift + 1 := x1][shift + 2 := x2];
      step := 3;
    }
  }

  /** A four-byte code point, when all its bytes are inside the word. */
  method ShiftFour(dst: array<int>, shift: int, n: int, scalar: int, ghost cur: seq<int>) returns (step: int, s: int)
    requires dst[..] == cur && ShiftArgs(cur, shift, n, scalar) && 1 <= n && 0xF0 <= cur[shift] < 0xF8
    modifies dst
    ensures dst[..] == ShiftStep(cur, shift, n, scalar).buf
    ensures step == ShiftStep(cur, shift, n, scalar).size && s == ShiftStep(cur, shift, n, scalar).scalar
  {
    step, s := n, scalar;
    if n >= 4 {
      var c0, c1, c2, c3 := dst[shift], dst[shift + 1], dst[shift + 2], dst[shift + 3];
      s := s + (c3 % 0x40 + (c2 % 0x40) * 0x40 + (c1 % 0x40) * 0x1000 + (c0 % 0x08) * 0x4_0000);
      var x0, x1 := Marked(0xF0, s / 0x4_0000, 0x08), Recoded(c1, s / 0x1000);
      var x2, x3 := Recoded(c2, s / 0x40), Recoded(c3, s);
      dst[shift] := x0;
      dst[shift + 1] := x1;
      dst[shift + 2] := x2;
      dst[shift + 3] := x3;
      assert dst[..] == cur[shift := x0][shift + 1 := x1][shift + 2 := x2][shift + 3 := x3];
      step := 4;
    }
  }

  // ---------------------------------------------------------------------
  // The class

  class Transforms {
    const numTransforms: nat
    const prefixSuffixLen: nat
    const prefixSuffixCount: nat
    const triplets: array<int>
    const prefixSuffixStorage: array<int>
    const prefixSuffixHeads: array<int>
    const params: array<int>

    /** The arrays have the sizes the constructor gave them, the pool holds
        bytes, the heads are ordered ranges of the pool starting at 0, and
        the parameters are signed 16-bit values. */
    ghost predicate Valid()
      reads this, prefixSuffixStorage, prefixSuffixHeads, params
    {
      triplets.Length == 3 * numTransforms && params.Length == numTransforms &&
      prefixSuffixStorage.Length == prefixSuffixLen &&
      prefixSuffixHeads.Length == prefixSuffixCount + 1 &&
      triplets != prefixSuffixStorage && triplets != prefixSuffixHeads &&
      prefixSuffixStorage != prefixSuffixHeads && params != triplets &&
      params != prefixSuffixStorage && params != prefixSuffixHeads &&
      Bytes(prefixSuffixStorage[..]) &&
      OrderedHeads(prefixSuffixHeads[..], prefixSuffixLen) &&
      (forall i :: 0 <= i < numTransforms ==> -0x8000 <= params[i] < 0x8000)
    }

    constructor(numTransforms: nat, prefixSuffixLen: nat, prefixSuffixCount: nat)
      ensures Valid()
      ensures this.numTransforms == numTransforms && this.prefixSuffixLen == prefixSuffixLen &&
              this.prefixSuffixCount == prefixSuffixCount
      ensures fresh(triplets) && fresh(prefixSuffixStorage) && fresh(prefixSuffixHeads) && fresh(params)
      ensures triplets[..] == seq(3 * numTransforms, _ => 0) && params[..] == seq(numTransforms, _ => 0)
      ensures prefixSuffixStorage[..] == seq(prefixSuffixLen, _ => 0)
      ensures prefixSuffixHeads[..] == seq(prefixSuffixCount + 1, _ => 0)
    {
      this.numTransforms := numTransforms;
      this.prefixSuffixLen := prefixSuffixLen;
      this.prefixSuffixCount := prefixSuffixCount;
      triplets := new int[3 * numTransforms](_ => 0);
      params := new int[numTransforms](_ => 0);
      prefixSuffixStorage := new int[prefixSuffixLen](_ => 0);
      prefixSuffixHeads := new int[prefixSuffixCount + 1](_ => 0);
    }

    /** Fills the pool and the triplets from their string forms.  The pool
        string must hold prefixSuffixLen bytes and prefixSuffixCount '#'
        terminators; the triplet string one character per triplet entry.
        A length mismatch is FORMAT_TRANSFORM; the pool is filled before the
        triplet length is checked. */
    method Unpack(prefixSuffixSrc: string, transformsSrc: string) returns (r: Outcome)
      requires Valid()
      requires |prefixSuffixSrc| == prefixSuffixLen + prefixSuffixCount ==>
        Hashes(prefixSuffixSrc) == prefixSuffixCount
      modifies prefixSuffixStorage, prefixSuffixHeads, triplets
      ensures Valid()
      ensures r == Ok <==>
        |prefixSuffixSrc| == prefixSuffixLen + prefixSuffixCount && |transformsSrc| == triplets.Length
      ensures r != Ok ==> r == Error(FormatTransform)
      ensures |prefixSuffixSrc| != prefixSuffixLen + prefixSuffixCount ==>
        unchanged(prefixSuffixStorage) && unchanged(prefixSuffixHeads) && unchanged(triplets)
      ensures |prefixSuffixSrc| == prefixSuffixLen + prefixSuffixCount ==>
        prefixSuffixStorage[..] == PoolText(prefixSuffixSrc) &&
        prefixSuffixHeads[..] == Heads(prefixSuffixSrc)
      ensures r == Ok ==> triplets[..] == TripletCodes(transformsSrc)
      ensures r != Ok ==> unchanged(triplets)
    {
      var expectedLen := prefixSuffixLen + prefixSuffixCount;
      var n := |prefixSuffixSrc|;
      if n != expectedLen {
        return Error(FormatTransform);
      }
      UnpackPool(prefixSuffixSrc);
      if |transformsSrc| != triplets.Length {
        return Error(FormatTransform);
      }
      for i := 0 to triplets.Length
        modifies triplets
        invariant forall k :: 0 <= k < i ==> triplets[k] == transformsSrc[k] as int - 32
      {
        triplets[i] := transformsSrc[i] as int - 32;
      }
      assert triplets[..] == TripletCodes(transformsSrc);
      r := Ok;
    }

    /** The pool loop of unpack: '#' records the count of bytes stored so far
        as the next head, any other character is stored. */
    method UnpackPool(src: string)
      requires Valid()
      requires |src| == prefixSuffixLen + prefixSuffixCount && Hashes(src) == prefixSuffixCount
      modifies prefixSuffixStorage, prefixSuffixHeads
      ensures Valid()
      ensures prefixSuffixStorage[..] == PoolText(src) && prefixSuffixHeads[..] == Heads(src)
    {
      PoolPrefix(src, |src|);
      assert src[..|src|] == src;
      StorePool(src, prefixSuffixStorage, prefixSuffixHeads);
      PoolPieces(src);
    }

    function PrefixIdx(t: int): int
      reads this, triplets
      requires 0 <= t && 3 * t + 2 < triplets.Length
    {
      triplets[3 * t]
    }

    function Type(t: int): int
      reads this, triplets
      requires 0 <= t && 3 * t + 2 < triplets.Length
    {
      triplets[3 * t + 1]
    }

    function SuffixIdx(t: int): int
      reads this, triplets
      requires 0 <= t && 3 * t + 2 < triplets.Length
    {
      triplets[3 * t + 2]
    }

    /** Entry k of the pool. */
    function Piece(k: int): (p: seq<int>)
      reads this, triplets, prefixSuffixStorage, prefixSuffixHeads, params
      requires Valid() && 0 <= k < prefixSuffixCount
      ensures Bytes(p)
    {
      prefixSuffixStorage[prefixSuffixHeads[k]..prefixSuffixHeads[k + 1]]
    }

    /** Applies transform t to the word of wordLen bytes at src[srcOffset..]
        and writes the result to dst from dstOffset on; returns the number of
        bytes written. */
    method TransformDictionaryWord(dst: array<int>, dstOffset: int, src: array<int>, srcOffset: int,
                                   wordLen: int, t: int) returns (r: int)
      requires Valid()
      requires 0 <= t < numTransforms
      requires 0 <= PrefixIdx(t) < prefixSuffixCount && 0 <= SuffixIdx(t) < prefixSuffixCount
      requires dst != src && dst != prefixSuffixStorage && dst != prefixSuffixHeads &&
               dst != triplets && dst != params
      requires Bytes(dst[..]) && Bytes(src[..])
      requires 0 <= srcOffset && 0 <= wordLen &&
        srcOffset + OmitFirst(Type(t), wordLen) + WindowLen(Type(t), wordLen) <= src.Length
      requires 0 <= dstOffset &&
        dstOffset + |Piece(PrefixIdx(t))| + WindowLen(Type(t), wordLen) + |Piece(SuffixIdx(t))| <= dst.Length
      requires CaseOrShiftFits(dst.Length, dstOffset + |Piece(PrefixIdx(t))|, WindowLen(Type(t), wordLen), Type(t))
      modifies dst
      ensures r == old(|Piece(PrefixIdx(t))| + WindowLen(Type(t), wordLen) + |Piece(SuffixIdx(t))|)
      ensures dst[..] == old(Emitted(dst[..], dstOffset, Piece(PrefixIdx(t)),
                                     Window(src[..], srcOffset, wordLen, Type(t)), Piece(SuffixIdx(t)),
                                     Type(t), params[t]))
    {
      var offset := dstOffset;
      var transformOffset := 3 * t;
      var prefixIdx := triplets[transformOffset];
      var transform := triplets[transformOffset + 1];
      var suffixIdx := triplets[transformOffset + 2];
      var prefixEnd := prefixSuffixHeads[prefixIdx + 1];
      var suffixEnd := prefixSuffixHeads[suffixIdx + 1];
      var prefix := prefixSuffixHeads[prefixIdx];
      var suffix := prefixSuffixHeads[suffixIdx];
      ghost var pre, suf := Piece(prefixIdx), Piece(suffixIdx);
      ghost var word := Window(src[..], srcOffset, wordLen, transform);
      ghost var buf0 := dst[..];
      assert prefixSuffixHeads[..][prefixIdx] == prefix && prefixSuffixHeads[..][prefixIdx + 1] == prefixEnd;
      assert prefixSuffixHeads[..][suffixIdx] == suffix && prefixSuffixHeads[..][suffixIdx + 1] == suffixEnd;

      var omitFirst, omitLast := transform - 11, transform;
      if omitFirst < 1 || omitFirst > 9 {
        omitFirst := 0;
      }
      if omitLast < 1 || omitLast > 9 {
        omitLast := 0;
      }
      assert prefixSuffixStorage[prefix..prefixEnd] == pre && prefixSuffixStorage[suffix..suffixEnd] == suf;
      var len := wordLen;
      if omitFirst > len {
        omitFirst := len;
      }
      var dictOffset := srcOffset + omitFirst;
      len := len - (omitFirst + omitLast);
      assert (if len > 0 then src[dictOffset..dictOffset + len] else []) == word;
      offset := WriteTransformed(dst, offset, prefixSuffixStorage[prefix..prefixEnd],
                                 if len > 0 then src[dictOffset..dictOffset + len] else [],
                                 transform, params[t], prefixSuffixStorage[suffix..suffixEnd]);
      r := offset - dstOffset;
    }
  }

  /** The prefix and word copies of transformDictionaryWord. */
  method CopyPieces(dst: array<int>, at: int, prefix: seq<int>, word: seq<int>) returns (next: int)
    requires Bytes(dst[..]) && Bytes(prefix) && Bytes(word)
    requires 0 <= at && at + |prefix| + |word| <= dst.Length
    modifies dst
    ensures next == at + |prefix| + |word|
    ensures dst[..] == Overwrite(Overwrite(old(dst[..]), at, prefix), at + |prefix|, word)
    ensures Bytes(dst[..])
  {
    next := CopyBytes(dst, at, prefix, old(dst[..]));
    next := CopyBytes(dst, next, word, Overwrite(old(dst[..]), at, prefix));
  }

  /** The case or shift transform on the word copied at at + |prefix|,
      then the suffix copy right after it. */
  method FinishTransformed(dst: array<int>, at: int, prefix: seq<int>, word: seq<int>,
                           transform: int, param: int, suffix: seq<int>, ghost buf0: seq<int>)
      returns (next: int)
    requires EmitArgs(buf0, at, prefix, word, suffix, transform, param) && |buf0| == dst.Length
    requires dst[..] == Overwrite(Overwrite(buf0, at, prefix), at + |prefix|, word)
    modifies dst
    ensures next == at + |prefix| + |word| + |suffix|
    ensures dst[..] == Emitted(buf0, at, prefix, word, suffix, transform, param)
  {
    var start := at + |prefix|;
    ghost var copied := Overwrite(Overwrite(buf0, at, prefix), start, word);
    CopiedCaseArgs(buf0, at, prefix, word, suffix, transform, param, start, copied);
    CaseOrShiftInPlace(dst, start, |word|, transform, param, copied);
    ghost var cased := dst[..];
    next := CopyBytes(dst, start + |word|, suffix, cased);
    EmittedUnfold(buf0, at, prefix, word, suffix, transform, param);
  }

  /** The prefix and word copies leave a buffer the case or shift
      transform accepts. */
  lemma CopiedCaseArgs(buf: seq<int>, at: int, prefix: seq<int>, word: seq<int>, suffix: seq<int>,
                       transform: int, param: int, start: int, copied: seq<int>)
    requires EmitArgs(buf, at, prefix, word, suffix, transform, param)
    requires start == at + |prefix| && copied == Overwrite(Overwrite(buf, at, prefix), start, word)
    ensures CaseArgs(copied, start, |word|, transform, param)
  {
  }

  lemma EmittedUnfold(buf: seq<int>, at: int, prefix: seq<int>, word: seq<int>, suffix: seq<int>,
                      transform: int, param: int)
    requires EmitArgs(buf, at, prefix, word, suffix, transform, param)
    ensures Emitted(buf, at, prefix, word, suffix, transform, param) ==
      Overwrite(CaseOrShift(Overwrite(Overwrite(buf, at, prefix), at + |prefix|, word), at + |prefix|, |word|, transform, param),
                at + |prefix| + |word|, suffix)
  {
  }

  /** The writing part of transformDictionaryWord: the prefix, the kept
      word bytes, the case or shift transform on them, and the suffix. */
  method WriteTransformed(dst: array<int>, dstOffset: int, prefix: seq<int>, word: seq<int>,
                          transform: int, param: int, suffix: seq<int>) returns (offset: int)
    requires Bytes(dst[..]) && Bytes(prefix) && Bytes(word) && Bytes(suffix)
    requires 0 <= dstOffset && dstOffset + |prefix| + |word| + |suffix| <= dst.Length
    requires CaseOrShiftFits(dst.Length, dstOffset + |prefix|, |word|, transform)
    requires -0x8000 <= param < 0x8000
    modifies dst
    ensures offset == dstOffset + |prefix| + |word| + |suffix|
    ensures dst[..] == Emitted(old(dst[..]), dstOffset, prefix, word, suffix, transform, param)
  {
    offset := CopyPieces(dst, dstOffset, prefix, word);
    offset := FinishTransformed(dst, dstOffset, prefix, word, transform, param, suffix, old(dst[..]));
  }

  /** The case or shift part of transformDictionaryWord on the len word
      bytes just written from start on (offset - len in
      transformDictionaryWord). */
  method CaseOrShiftInPlace(dst: array<int>, start: int, len: int, transform: int, param: int,
                            ghost before: seq<int>)
    requires dst[..] == before && CaseArgs(before, start, len, transform, param)
    modifies dst
    ensures dst[..] == CaseOrShift(before, start, len, transform, param)
  {
    if transform == 10 || transform == 11 {
      var n := len;
      if transform == 10 {
        n := 1;
      }
      UpperCaseInPlace(dst, start, n);
    } else if transform == 21 || transform == 22 {
      // the signed 16-bit parameter: (param & 0x7FFF) + (0x1000000 - (param & 0x8000))
      var scalar := (param % 0x1_0000) % 0x8000 + (0x100_0000 - ((param % 0x1_0000) / 0x8000) * 0x8000);
      InitialScalarIsSigned(param);
      ShiftInPlace(dst, start, len, scalar, transform == 21);
    }
  }
}
