/** The fixed-width readers. Each one is a closed-form function of the cells
    `buffer[byteOffset .. byteOffset + width)` and is proved to equal the little- or
    big-endian value of those bytes, read as two's complement where the reader is signed.
    Module SourceBits shows that the library's bitwise expressions compute these values.

    The buffer is passed as the sequence of its cells; no reader changes it. A reader's
    precondition is that all its bytes lie inside the buffer. */
module Readers {
  import opened Int32
  import opened Endian

  // ------------------------------------------------ byte strings of width 2 and 4

  lemma LittleEndian2(s: seq<Byte>)
    requires |s| == 2
    ensures LittleEndian(s) == s[0] as int + 0x100 * (s[1] as int)
  {
    assert LittleEndian(s[1..][1..]) == 0 by { assert s[1..][1..] == []; }
    assert LittleEndian(s[1..]) == s[1];
  }

  lemma BigEndian2(s: seq<Byte>)
    requires |s| == 2
    ensures BigEndian(s) == 0x100 * (s[0] as int) + s[1]
  {
    assert BigEndian(s[..1][..0]) == 0 by { assert s[..1][..0] == []; }
    assert BigEndian(s[..1]) == s[0];
  }

  lemma LittleEndian4(s: seq<Byte>)
    requires |s| == 4
    ensures LittleEndian(s) == s[0] as int + 0x100 * (s[1] as int) + 0x1_0000 * (s[2] as int) + 0x100_0000 * (s[3] as int)
  {
    assert LittleEndian(s[3..][1..]) == 0 by { assert s[3..][1..] == []; }
    var b1, b2, b3: int := s[1], s[2], s[3];
    assert LittleEndian(s[3..]) == b3;
    assert LittleEndian(s[2..]) == b2 + 0x100 * b3 by { assert s[2..][1..] == s[3..]; }
    assert LittleEndian(s[1..]) == b1 + 0x100 * (b2 + 0x100 * b3) by { assert s[1..][1..] == s[2..]; }
  }

  lemma BigEndian4(s: seq<Byte>)
    requires |s| == 4
    ensures BigEndian(s) == 0x100_0000 * (s[0] as int) + 0x1_0000 * (s[1] as int) + 0x100 * (s[2] as int) + s[3]
  {
    assert BigEndian(s[..1][..0]) == 0 by { assert s[..1][..0] == []; }
    var b0, b1, b2: int := s[0], s[1], s[2];
    assert BigEndian(s[..1]) == b0;
    assert BigEndian(s[..2]) == 0x100 * b0 + b1 by { assert s[..2][..1] == s[..1]; }
    assert BigEndian(s[..3]) == 0x100 * (0x100 * b0 + b1) + b2 by { assert s[..3][..2] == s[..2]; }
  }

  // ------------------------------------------------ 8 bits

  /** The byte at `byteOffset`, as an unsigned number. */
  function GetUint8(buffer: seq<Byte>, byteOffset: nat): (r: int)
    requires byteOffset < |buffer|
    ensures 0 <= r < 0x100
    ensures r == LittleEndian(buffer[byteOffset..byteOffset + 1])
  {
    buffer[byteOffset]
  }

  /** The byte at `byteOffset` as a signed number: the byte's value, less 256 when its top
      bit is set. */
  function GetInt8(buffer: seq<Byte>, byteOffset: nat): (r: int)
    requires byteOffset < |buffer|
    ensures -0x80 <= r < 0x80
    ensures r % 0x100 == GetUint8(buffer, byteOffset)
    ensures r < 0 <==> buffer[byteOffset] >= 0x80
  {
    Int8Of(buffer[byteOffset])
  }

  // ------------------------------------------------ 16 bits

  /** The little-endian half-word: the first byte is the low one (`b0 | (b1 << 8)`). */
  function GetUint16LE(buffer: seq<Byte>, byteOffset: nat): (r: int)
    requires byteOffset + 2 <= |buffer|
    ensures 0 <= r < 0x1_0000
    ensures r == LittleEndian(buffer[byteOffset..byteOffset + 2])
  {
    LittleEndian2(buffer[byteOffset..byteOffset + 2]);
    buffer[byteOffset] as int + 0x100 * (buffer[byteOffset + 1] as int)
  }

  /** The big-endian half-word: the first byte is the high one (`(b0 << 8) | b1`). */
  function GetUint16BE(buffer: seq<Byte>, byteOffset: nat): (r: int)
    requires byteOffset + 2 <= |buffer|
    ensures 0 <= r < 0x1_0000
    ensures r == BigEndian(buffer[byteOffset..byteOffset + 2])
  {
    BigEndian2(buffer[byteOffset..byteOffset + 2]);
    0x100 * (buffer[byteOffset] as int) + buffer[byteOffset + 1]
  }

  /** The little-endian half-word as a signed number: the unsigned value less 65536 when it
      is at least 32768, which is when the second (high) byte has its top bit set. */
  function GetInt16LE(buffer: seq<Byte>, byteOffset: nat): (r: int)
    requires byteOffset + 2 <= |buffer|
    ensures -0x8000 <= r < 0x8000
    ensures r % 0x1_0000 == GetUint16LE(buffer, byteOffset)
    ensures r < 0 <==> buffer[byteOffset + 1] >= 0x80
  {
    Int16Of(GetUint16LE(buffer, byteOffset))
  }

  /** The big-endian half-word as a signed number; negative exactly when the first (high)
      byte has its top bit set. */
  function GetInt16BE(buffer: seq<Byte>, byteOffset: nat): (r: int)
    requires byteOffset + 2 <= |buffer|
    ensures -0x8000 <= r < 0x8000
    ensures r % 0x1_0000 == GetUint16BE(buffer, byteOffset)
    ensures r < 0 <==> buffer[byteOffset] >= 0x80
  {
    Int16Of(GetUint16BE(buffer, byteOffset))
  }

  // ------------------------------------------------ 32 bits

  /** The little-endian word as a signed number: the composition
      `b0 | (b1 << 8) | (b2 << 16) | (b3 << 24)` is computed in 32 bits, so it is the
      unsigned value of the four bytes, less 2^32 when the last (high) byte is 0x80 or more. */
  function GetInt32LE(buffer: seq<Byte>, byteOffset: nat): (r: int)
    requires byteOffset + 4 <= |buffer|
    ensures -0x8000_0000 <= r < 0x8000_0000
    ensures r % 0x1_0000_0000 == LittleEndian(buffer[byteOffset..byteOffset + 4])
    ensures r < 0 <==> buffer[byteOffset + 3] >= 0x80
  {
    LittleEndian4(buffer[byteOffset..byteOffset + 4]);
    Int32Of(buffer[byteOffset] as int + 0x100 * (buffer[byteOffset + 1] as int)
            + 0x1_0000 * (buffer[byteOffset + 2] as int) + 0x100_0000 * (buffer[byteOffset + 3] as int))
  }

  /** The big-endian word as a signed number; negative exactly when the first (high) byte is
      0x80 or more. */
  function GetInt32BE(buffer: seq<Byte>, byteOffset: nat): (r: int)
    requires byteOffset + 4 <= |buffer|
    ensures -0x8000_0000 <= r < 0x8000_0000
    ensures r % 0x1_0000_0000 == BigEndian(buffer[byteOffset..byteOffset + 4])
    ensures r < 0 <==> buffer[byteOffset] >= 0x80
  {
    BigEndian4(buffer[byteOffset..byteOffset + 4]);
    Int32Of(0x100_0000 * (buffer[byteOffset] as int) + 0x1_0000 * (buffer[byteOffset + 1] as int)
            + 0x100 * (buffer[byteOffset + 2] as int) + buffer[byteOffset + 3])
  }

  /** The little-endian word as an unsigned number: the signed word reinterpreted by
      `>>> 0`, which is the plain little-endian value of the four bytes. */
  function GetUint32LE(buffer: seq<Byte>, byteOffset: nat): (r: int)
    requires byteOffset + 4 <= |buffer|
    ensures 0 <= r < 0x1_0000_0000
    ensures r == LittleEndian(buffer[byteOffset..byteOffset + 4])
  {
    LittleEndianBound(buffer[byteOffset..byteOffset + 4]);
    ToUint32(GetInt32LE(buffer, byteOffset))
  }

  /** The big-endian word as an unsigned number. */
  function GetUint32BE(buffer: seq<Byte>, byteOffset: nat): (r: int)
    requires byteOffset + 4 <= |buffer|
    ensures 0 <= r < 0x1_0000_0000
    ensures r == BigEndian(buffer[byteOffset..byteOffset + 4])
  {
    BigEndianBound(buffer[byteOffset..byteOffset + 4]);
    ToUint32(GetInt32BE(buffer, byteOffset))
  }

  /** `>>> 0` only reinterprets the bits: the unsigned word is the signed word modulo 2^32,
      and the signed word is the unsigned one less 2^32 when its top bit is set. */
  lemma SignedUnsignedWords(buffer: seq<Byte>, byteOffset: nat)
    requires byteOffset + 4 <= |buffer|
    ensures GetUint32LE(buffer, byteOffset) == GetInt32LE(buffer, byteOffset) % 0x1_0000_0000
    ensures GetUint32BE(buffer, byteOffset) == GetInt32BE(buffer, byteOffset) % 0x1_0000_0000
    ensures var u := GetUint32LE(buffer, byteOffset);
            GetInt32LE(buffer, byteOffset) == if u < 0x8000_0000 then u else u - 0x1_0000_0000
    ensures var u := GetUint32BE(buffer, byteOffset);
            GetInt32BE(buffer, byteOffset) == if u < 0x8000_0000 then u else u - 0x1_0000_0000
  {
    LittleEndian4(buffer[byteOffset..byteOffset + 4]);
    BigEndian4(buffer[byteOffset..byteOffset + 4]);
  }

  // ------------------------------------------------ 64 bits

  lemma Pow256Words()
    ensures Pow256(4) == 0x1_0000_0000
    ensures Pow256(8) == 0x1_0000_0000_0000_0000
  {
  }

  /** The little-endian 64-bit value as an exact integer: the low word plus the high word
      shifted left by 32 bits, which is the little-endian value of all eight bytes. Distinct
      byte strings give distinct results (see BigUint64LEInjective). */
  function GetBigUint64LE(buffer: seq<Byte>, byteOffset: nat): (r: int)
    requires byteOffset + 8 <= |buffer|
    ensures 0 <= r < 0x1_0000_0000_0000_0000
    ensures r == LittleEndian(buffer[byteOffset..byteOffset + 8])
  {
    var low, high := buffer[byteOffset..byteOffset + 4], buffer[byteOffset + 4..byteOffset + 8];
    assert buffer[byteOffset..byteOffset + 8] == low + high;
    LittleEndianAppend(low, high);
    LittleEndianBound(low + high);
    Pow256Words();
    GetUint32LE(buffer, byteOffset) + GetUint32LE(buffer, byteOffset + 4) * 0x1_0000_0000
  }

  /** The big-endian 64-bit value as an exact integer: the first word shifted left by 32
      bits, plus the second word. */
  function GetBigUint64BE(buffer: seq<Byte>, byteOffset: nat): (r: int)
    requires byteOffset + 8 <= |buffer|
    ensures 0 <= r < 0x1_0000_0000_0000_0000
    ensures r == BigEndian(buffer[byteOffset..byteOffset + 8])
  {
    var high, low := buffer[byteOffset..byteOffset + 4], buffer[byteOffset + 4..byteOffset + 8];
    assert buffer[byteOffset..byteOffset + 8] == high + low;
    BigEndianAppend(high, low);
    BigEndianBound(high + low);
    Pow256Words();
    GetUint32BE(buffer, byteOffset) * 0x1_0000_0000 + GetUint32BE(buffer, byteOffset + 4)
  }

  /** The 64-bit little-endian read into a double-precision number, for values a double holds
      exactly (below 2^53): then it is the exact little-endian value of the eight bytes. */
  function GetUint64LE(buffer: seq<Byte>, byteOffset: nat): (r: int)
    requires byteOffset + 8 <= |buffer|
    requires LittleEndian(buffer[byteOffset..byteOffset + 8]) < 0x20_0000_0000_0000
    ensures 0 <= r < 0x20_0000_0000_0000
    ensures r == GetBigUint64LE(buffer, byteOffset)
  {
    assert GetBigUint64LE(buffer, byteOffset) == LittleEndian(buffer[byteOffset..byteOffset + 8]);
    GetUint32LE(buffer, byteOffset) + GetUint32LE(buffer, byteOffset + 4) * 0x1_0000_0000
  }

  /** The 64-bit big-endian read into a double-precision number, below 2^53. */
  function GetUint64BE(buffer: seq<Byte>, byteOffset: nat): (r: int)
    requires byteOffset + 8 <= |buffer|
    requires BigEndian(buffer[byteOffset..byteOffset + 8]) < 0x20_0000_0000_0000
    ensures 0 <= r < 0x20_0000_0000_0000
    ensures r == GetBigUint64BE(buffer, byteOffset)
  {
    assert GetBigUint64BE(buffer, byteOffset) == BigEndian(buffer[byteOffset..byteOffset + 8]);
    GetUint32BE(buffer, byteOffset) * 0x1_0000_0000 + GetUint32BE(buffer, byteOffset + 4)
  }

  /** The exact 64-bit readers tell every pair of distinct eight-byte windows apart. */
  lemma BigUint64LEInjective(a: seq<Byte>, i: nat, b: seq<Byte>, j: nat)
    requires i + 8 <= |a| && j + 8 <= |b|
    ensures GetBigUint64LE(a, i) == GetBigUint64LE(b, j) <==> a[i..i + 8] == b[j..j + 8]
  {
    LittleEndianInjective(a[i..i + 8], b[j..j + 8]);
  }

  lemma BigUint64BEInjective(a: seq<Byte>, i: nat, b: seq<Byte>, j: nat)
    requires i + 8 <= |a| && j + 8 <= |b|
    ensures GetBigUint64BE(a, i) == GetBigUint64BE(b, j) <==> a[i..i + 8] == b[j..j + 8]
  {
    BigEndianInjective(a[i..i + 8], b[j..j + 8]);
  }
}
