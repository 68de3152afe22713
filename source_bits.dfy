/** The library reads multi-byte values with JavaScript's 32-bit bitwise operators rather
    than with arithmetic. This module evaluates those expressions on bit patterns (`bv32`,
    with each cell zero-extended from `bv8`, as a bitwise operator sees it) and proves that
    they compute exactly the readers of module Readers on any buffer holding those cells.

    Each proof has a bit-level half (what the pattern is), an integer half (what the
    pattern denotes), and a final step that meets the reader on the buffer. */
module SourceBits {
  import opened Int32
  import opened Endian
  import opened Readers

  // ---- bit-level facts -------------------------------------------------------------

  /** Four bytes shifted into disjoint positions and ORed together add up. */
  lemma Compose32(b0: bv8, b1: bv8, b2: bv8, b3: bv8)
    ensures ((b0 as bv32) | ((b1 as bv32) << 8) | ((b2 as bv32) << 16) | ((b3 as bv32) << 24)) as int
            == b0 as int + 0x100 * (b1 as int) + 0x1_0000 * (b2 as int) + 0x100_0000 * (b3 as int)
  {
  }

  /** The 32-bit composition, read as a signed number, in terms of the byte values. */
  lemma SignedWord(b0: bv8, b1: bv8, b2: bv8, b3: bv8)
    ensures ToInt32((b0 as bv32) | ((b1 as bv32) << 8) | ((b2 as bv32) << 16) | ((b3 as bv32) << 24))
            == Int32Of(b0 as int + 0x100 * (b1 as int) + 0x1_0000 * (b2 as int) + 0x100_0000 * (b3 as int))
  {
    Compose32(b0, b1, b2, b3);
    ToInt32Of((b0 as bv32) | ((b1 as bv32) << 8) | ((b2 as bv32) << 16) | ((b3 as bv32) << 24),
      b0 as int + 0x100 * (b1 as int) + 0x1_0000 * (b2 as int) + 0x100_0000 * (b3 as int));
  }

  /** The byte that sign extension fills the upper bytes with: all ones exactly when `top`
      has its high bit set. */
  function Fill(top: bv8): (r: bv8)
    ensures r == 0 || r == 0xFF
    ensures r == 0xFF <==> top >= 0x80
  {
    if top < 0x80 then 0 else 0xFF
  }

  /** `b | (b & 0x80) * 0x1fffffe` is the word whose three upper bytes are the fill byte:
      the product is 0xFFFFFF00 when bit 7 is set and 0 otherwise. */
  lemma SignExtend8Bits(b: bv8)
    ensures (b as bv32) | (((b as bv32) & 0x80) * 0x1fffffe)
            == (b as bv32) | ((Fill(b) as bv32) << 8) | ((Fill(b) as bv32) << 16) | ((Fill(b) as bv32) << 24)
  {
  }

  /** `value | (value & 0x8000) * 0x1fffe` on a half-word is the word whose two upper bytes
      are the fill byte: the product is 0xFFFF0000 when bit 15 is set. */
  lemma SignExtend16Bits(lo: bv8, hi: bv8)
    ensures var value := (lo as bv32) | ((hi as bv32) << 8);
            value | ((value & 0x8000) * 0x1fffe)
            == (lo as bv32) | ((hi as bv32) << 8) | ((Fill(hi) as bv32) << 16) | ((Fill(hi) as bv32) << 24)
  {
  }

  /** JavaScript's `*` multiplies doubles, not 32-bit patterns. The products in the sign
      extensions are at most 0xFFFFFF00 and 0xFFFF0000, so the 32-bit product does not
      wrap and equals the exact one. */
  lemma SignProductsExact(w: bv32)
    ensures ((w & 0x80) as int) * 0x1fffffe == ((w & 0x80) * 0x1fffffe) as int
    ensures ((w & 0x8000) as int) * 0x1fffe == ((w & 0x8000) * 0x1fffe) as int
  {
    assert w & 0x80 == 0 || w & 0x80 == 0x80;
    assert w & 0x8000 == 0 || w & 0x8000 == 0x8000;
  }

  /** OR is commutative: the big-endian half-word is the little-endian one of the swapped
      bytes. */
  lemma HalfWordReorder(b0: bv8, b1: bv8)
    ensures ((b0 as bv32) << 8) | (b1 as bv32) == (b1 as bv32) | ((b0 as bv32) << 8)
  {
  }

  /** The big-endian word is the little-endian one of the reversed bytes. */
  lemma WordReorder(b0: bv8, b1: bv8, b2: bv8, b3: bv8)
    ensures ((b0 as bv32) << 24) | ((b1 as bv32) << 16) | ((b2 as bv32) << 8) | (b3 as bv32)
            == (b3 as bv32) | ((b2 as bv32) << 8) | ((b1 as bv32) << 16) | ((b0 as bv32) << 24)
  {
  }

  /** Two bytes shifted into disjoint positions and ORed together. */
  lemma Compose16(lo: bv8, hi: bv8)
    ensures ((lo as bv32) | ((hi as bv32) << 8)) as int == lo as int + 0x100 * (hi as int)
  {
  }

  // ---- what the patterns denote ----------------------------------------------------

  /** A byte followed by three fill bytes, read as a signed word, is the signed byte. */
  lemma FilledByte(c: int, f: int)
    requires 0 <= c < 0x100 && f == if c < 0x80 then 0 else 0xFF
    ensures Int32Of(c + 0x100 * f + 0x1_0000 * f + 0x100_0000 * f) == Int8Of(c)
  {
  }

  /** A half-word followed by two fill bytes, read as a signed word, is the signed half-word. */
  lemma FilledHalfWord(c0: int, c1: int, f: int)
    requires 0 <= c0 < 0x100 && 0 <= c1 < 0x100 && f == if c1 < 0x80 then 0 else 0xFF
    ensures Int32Of(c0 + 0x100 * c1 + 0x1_0000 * f + 0x100_0000 * f) == Int16Of(c0 + 0x100 * c1)
  {
  }

  /** The signed byte expression denotes the two's-complement reading of the byte. */
  lemma SignedByteBits(b: bv8)
    ensures ToInt32((b as bv32) | (((b as bv32) & 0x80) * 0x1fffffe)) == Int8Of(b as int)
  {
    var f := Fill(b);
    SignExtend8Bits(b);
    SignedWord(b, f, f, f);
    FilledByte(b as int, f as int);
  }

  /** The half-word expression denotes the unsigned half-word: it never reaches bit 31. */
  lemma HalfWordBits(lo: bv8, hi: bv8)
    ensures ToInt32((lo as bv32) | ((hi as bv32) << 8)) == lo as int + 0x100 * (hi as int)
  {
    Compose16(lo, hi);
    ToInt32Of((lo as bv32) | ((hi as bv32) << 8), lo as int + 0x100 * (hi as int));
  }

  /** The sign-extended half-word expression denotes the signed half-word. */
  lemma SignedHalfWordBits(lo: bv8, hi: bv8)
    ensures var value := (lo as bv32) | ((hi as bv32) << 8);
            ToInt32(value | ((value & 0x8000) * 0x1fffe)) == Int16Of(lo as int + 0x100 * (hi as int))
  {
    var f := Fill(hi);
    SignExtend16Bits(lo, hi);
    SignedWord(lo, hi, f, f);
    FilledHalfWord(lo as int, hi as int, f as int);
  }

  // ---- the readers on a buffer holding given cells -----------------------------------

  lemma Int8Cells(buffer: seq<Byte>, o: nat, c: int)
    requires o < |buffer| && buffer[o] == c
    ensures GetInt8(buffer, o) == Int8Of(c)
  {
  }

  lemma HalfWordCells(buffer: seq<Byte>, o: nat, c0: int, c1: int)
    requires o + 2 <= |buffer| && buffer[o] == c0 && buffer[o + 1] == c1
    ensures GetUint16LE(buffer, o) == c0 + 0x100 * c1
    ensures GetUint16BE(buffer, o) == c1 + 0x100 * c0
  {
  }

  lemma SignedHalfWordCells(buffer: seq<Byte>, o: nat, c0: int, c1: int)
    requires o + 2 <= |buffer| && buffer[o] == c0 && buffer[o + 1] == c1
    ensures GetInt16LE(buffer, o) == Int16Of(c0 + 0x100 * c1)
    ensures GetInt16BE(buffer, o) == Int16Of(c1 + 0x100 * c0)
  {
  }

  lemma WordCells(buffer: seq<Byte>, o: nat, c0: int, c1: int, c2: int, c3: int)
    requires o + 4 <= |buffer|
    requires buffer[o] == c0 && buffer[o + 1] == c1 && buffer[o + 2] == c2 && buffer[o + 3] == c3
    ensures GetInt32LE(buffer, o) == Int32Of(c0 + 0x100 * c1 + 0x1_0000 * c2 + 0x100_0000 * c3)
    ensures GetInt32BE(buffer, o) == Int32Of(c3 + 0x100 * c2 + 0x1_0000 * c1 + 0x100_0000 * c0)
  {
  }

  // ---- the readers' expressions on a buffer -----------------------------------------

  /** getInt8: `buffer[o] | (buffer[o] & 0x80) * 0x1fffffe` is GetInt8. */
  lemma Int8Expression(buffer: seq<Byte>, o: nat, b: bv8)
    requires o < |buffer| && buffer[o] == b as int
    ensures ToInt32((b as bv32) | (((b as bv32) & 0x80) * 0x1fffffe)) == GetInt8(buffer, o)
  {
    SignedByteBits(b);
    Int8Cells(buffer, o, b as int);
  }

  /** getUint16LE: `buffer[o] | (buffer[o + 1] << 8)` is GetUint16LE. */
  lemma Uint16LEExpression(buffer: seq<Byte>, o: nat, b0: bv8, b1: bv8)
    requires o + 2 <= |buffer| && buffer[o] == b0 as int && buffer[o + 1] == b1 as int
    ensures ToInt32((b0 as bv32) | ((b1 as bv32) << 8)) == GetUint16LE(buffer, o)
  {
    HalfWordBits(b0, b1);
    HalfWordCells(buffer, o, b0 as int, b1 as int);
  }

  /** getUint16BE: `(buffer[o] << 8) | buffer[o + 1]` is GetUint16BE. */
  lemma Uint16BEExpression(buffer: seq<Byte>, o: nat, b0: bv8, b1: bv8)
    requires o + 2 <= |buffer| && buffer[o] == b0 as int && buffer[o + 1] == b1 as int
    ensures ToInt32(((b0 as bv32) << 8) | (b1 as bv32)) == GetUint16BE(buffer, o)
  {
    HalfWordReorder(b0, b1);
    HalfWordBits(b1, b0);
    HalfWordCells(buffer, o, b0 as int, b1 as int);
  }

  /** getInt16LE: the sign extension of the little-endian half-word is GetInt16LE. */
  lemma Int16LEExpression(buffer: seq<Byte>, o: nat, b0: bv8, b1: bv8)
    requires o + 2 <= |buffer| && buffer[o] == b0 as int && buffer[o + 1] == b1 as int
    ensures var value := (b0 as bv32) | ((b1 as bv32) << 8);
            ToInt32(value | ((value & 0x8000) * 0x1fffe)) == GetInt16LE(buffer, o)
  {
    SignedHalfWordBits(b0, b1);
    SignedHalfWordCells(buffer, o, b0 as int, b1 as int);
  }

  /** getInt16BE: the sign extension of the big-endian half-word is GetInt16BE. */
  lemma Int16BEExpression(buffer: seq<Byte>, o: nat, b0: bv8, b1: bv8)
    requires o + 2 <= |buffer| && buffer[o] == b0 as int && buffer[o + 1] == b1 as int
    ensures var value := ((b0 as bv32) << 8) | (b1 as bv32);
            ToInt32(value | ((value & 0x8000) * 0x1fffe)) == GetInt16BE(buffer, o)
  {
    HalfWordReorder(b0, b1);
    SignedHalfWordBits(b1, b0);
    SignedHalfWordCells(buffer, o, b0 as int, b1 as int);
  }

  /** getInt32LE: `b0 | (b1 << 8) | (b2 << 16) | (b3 << 24)`, computed in 32 bits, is
      GetInt32LE: a high byte of 0x80 or more wraps the result negative. */
  lemma Int32LEExpression(buffer: seq<Byte>, o: nat, b0: bv8, b1: bv8, b2: bv8, b3: bv8)
    requires o + 4 <= |buffer|
    requires buffer[o] == b0 as int && buffer[o + 1] == b1 as int
    requires buffer[o + 2] == b2 as int && buffer[o + 3] == b3 as int
    ensures ToInt32((b0 as bv32) | ((b1 as bv32) << 8) | ((b2 as bv32) << 16) | ((b3 as bv32) << 24))
            == GetInt32LE(buffer, o)
  {
    SignedWord(b0, b1, b2, b3);
    WordCells(buffer, o, b0 as int, b1 as int, b2 as int, b3 as int);
  }

  /** getInt32BE: `(b0 << 24) | (b1 << 16) | (b2 << 8) | b3` is GetInt32BE. */
  lemma Int32BEExpression(buffer: seq<Byte>, o: nat, b0: bv8, b1: bv8, b2: bv8, b3: bv8)
    requires o + 4 <= |buffer|
    requires buffer[o] == b0 as int && buffer[o + 1] == b1 as int
    requires buffer[o + 2] == b2 as int && buffer[o + 3] == b3 as int
    ensures ToInt32(((b0 as bv32) << 24) | ((b1 as bv32) << 16) | ((b2 as bv32) << 8) | (b3 as bv32))
            == GetInt32BE(buffer, o)
  {
    WordReorder(b0, b1, b2, b3);
    SignedWord(b3, b2, b1, b0);
    WordCells(buffer, o, b0 as int, b1 as int, b2 as int, b3 as int);
  }

  /** getUint32LE: `getInt32LE(buffer, o) >>> 0` is GetUint32LE, the little-endian value of
      the four cells. */
  lemma Uint32LEExpression(buffer: seq<Byte>, o: nat, b0: bv8, b1: bv8, b2: bv8, b3: bv8)
    requires o + 4 <= |buffer|
    requires buffer[o] == b0 as int && buffer[o + 1] == b1 as int
    requires buffer[o + 2] == b2 as int && buffer[o + 3] == b3 as int
    ensures ToUint32(ToInt32((b0 as bv32) | ((b1 as bv32) << 8) | ((b2 as bv32) << 16) | ((b3 as bv32) << 24)))
            == LittleEndian(buffer[o..o + 4])
  {
    Int32LEExpression(buffer, o, b0, b1, b2, b3);
  }

  /** getUint32BE: `getInt32BE(buffer, o) >>> 0` is the big-endian value of the four cells. */
  lemma Uint32BEExpression(buffer: seq<Byte>, o: nat, b0: bv8, b1: bv8, b2: bv8, b3: bv8)
    requires o + 4 <= |buffer|
    requires buffer[o] == b0 as int && buffer[o + 1] == b1 as int
    requires buffer[o + 2] == b2 as int && buffer[o + 3] == b3 as int
    ensures ToUint32(ToInt32(((b0 as bv32) << 24) | ((b1 as bv32) << 16) | ((b2 as bv32) << 8) | (b3 as bv32)))
            == BigEndian(buffer[o..o + 4])
  {
    Int32BEExpression(buffer, o, b0, b1, b2, b3);
  }
}
