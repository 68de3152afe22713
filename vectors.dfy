/** The library's test cases stated as lemmas about the model: concrete buffers and the
    values the test suite expects of them. */
module Vectors {
  import opened Endian
  import opened Readers
  import opened Writers

  /** getUint8 and getInt8 on [0x01, 0x80, 0xFF]. */
  lemma ByteVectors()
    ensures GetUint8([0x01, 0x80, 0xFF], 0) == 0x01 && GetInt8([0x01, 0x80, 0xFF], 0) == 1
    ensures GetUint8([0x01, 0x80, 0xFF], 1) == 0x80 && GetInt8([0x01, 0x80, 0xFF], 1) == -128
    ensures GetUint8([0x01, 0x80, 0xFF], 2) == 0xFF && GetInt8([0x01, 0x80, 0xFF], 2) == -1
  {
  }

  /** getUint16LE and getUint16BE on [0x01, 0x02, 0xa3, 0xb4] at offsets 0, 1 and 2. */
  lemma HalfWordVectors()
    ensures GetUint16LE([0x01, 0x02, 0xa3, 0xb4], 0) == 0x0201
    ensures GetUint16LE([0x01, 0x02, 0xa3, 0xb4], 1) == 0xa302
    ensures GetUint16LE([0x01, 0x02, 0xa3, 0xb4], 2) == 0xb4a3
    ensures GetUint16BE([0x01, 0x02, 0xa3, 0xb4], 0) == 0x0102
    ensures GetUint16BE([0x01, 0x02, 0xa3, 0xb4], 1) == 0x02a3
    ensures GetUint16BE([0x01, 0x02, 0xa3, 0xb4], 2) == 0xa3b4
  {
  }

  /** getInt16LE and getInt16BE on [0x01, 0x80, 0xFF, 0x7F] at offsets 0, 1 and 2. */
  lemma SignedHalfWordVectors()
    ensures GetInt16LE([0x01, 0x80, 0xFF, 0x7F], 0) == -32767
    ensures GetInt16LE([0x01, 0x80, 0xFF, 0x7F], 1) == -128
    ensures GetInt16LE([0x01, 0x80, 0xFF, 0x7F], 2) == 32767
    ensures GetInt16BE([0x01, 0x80, 0xFF, 0x7F], 0) == 0x0180
    ensures GetInt16BE([0x01, 0x80, 0xFF, 0x7F], 1) == -32513
    ensures GetInt16BE([0x01, 0x80, 0xFF, 0x7F], 2) == -129
  {
  }

  /** getUint32LE and getUint32BE at offsets 0, 1 and 2 of six-byte buffers. */
  lemma WordVectors()
    ensures GetUint32LE([0x01, 0x02, 0xa3, 0xb4, 0x05, 0x06], 0) == 0xb4a30201
    ensures GetUint32LE([0x01, 0x02, 0xa3, 0xb4, 0x05, 0x06], 1) == 0x05b4a302
    ensures GetUint32LE([0x01, 0x02, 0xa3, 0xb4, 0x05, 0x06], 2) == 0x0605b4a3
    ensures GetUint32BE([0x01, 0x02, 0x03, 0x04, 0x05, 0x06], 0) == 0x01020304
    ensures GetUint32BE([0x01, 0x02, 0x03, 0x04, 0x05, 0x06], 1) == 0x02030405
    ensures GetUint32BE([0x01, 0x02, 0x03, 0x04, 0x05, 0x06], 2) == 0x03040506
  {
  }

  /** getBigUint64LE is exact above 2^53. */
  lemma BigWordVectorsLE()
    ensures GetBigUint64LE([0x01, 0x02, 0x03, 0x04, 0x05, 0x06, 0x07, 0x08, 0x09, 0x0A], 0)
            == 0x0807060504030201
    ensures GetBigUint64LE([0x01, 0x02, 0x03, 0x04, 0x05, 0x06, 0x07, 0x08, 0x09, 0x0A], 2)
            == 0x0A09080706050403
  {
    var buffer: seq<Byte> := [0x01, 0x02, 0x03, 0x04, 0x05, 0x06, 0x07, 0x08, 0x09, 0x0A];
    assert GetUint32LE(buffer, 0) == 0x04030201 && GetUint32LE(buffer, 4) == 0x08070605;
    assert GetUint32LE(buffer, 2) == 0x06050403 && GetUint32LE(buffer, 6) == 0x0A090807;
  }

  /** getBigUint64BE is exact above 2^53. */
  lemma BigWordVectorsBE()
    ensures GetBigUint64BE([0x08, 0x01, 0x0F, 0x03, 0x04, 0x05, 0x06, 0x07, 0x08, 0x09], 0)
            == 0x08010F0304050607
    ensures GetBigUint64BE([0x08, 0x01, 0x0F, 0x03, 0x04, 0x05, 0x06, 0x07, 0x08, 0x09], 2)
            == 0x0F03040506070809
  {
    var buffer: seq<Byte> := [0x08, 0x01, 0x0F, 0x03, 0x04, 0x05, 0x06, 0x07, 0x08, 0x09];
    assert GetUint32BE(buffer, 0) == 0x08010F03 && GetUint32BE(buffer, 4) == 0x04050607;
    assert GetUint32BE(buffer, 2) == 0x0F030405 && GetUint32BE(buffer, 6) == 0x06070809;
  }

  /** getUint64LE below 2^53 is exact. */
  lemma SafeIntegerVector()
    ensures LittleEndian([0x01, 0x02, 0x03, 0x04, 0x05, 0x06, 0x17, 0x00, 0x00, 0x01][0..8])
            < 0x20_0000_0000_0000
    ensures GetUint64LE([0x01, 0x02, 0x03, 0x04, 0x05, 0x06, 0x17, 0x00, 0x00, 0x01], 0)
            == 0x0017060504030201
  {
    var buffer: seq<Byte> := [0x01, 0x02, 0x03, 0x04, 0x05, 0x06, 0x17, 0x00, 0x00, 0x01];
    assert GetUint32LE(buffer, 0) == 0x04030201 && GetUint32LE(buffer, 4) == 0x00170605;
    assert GetBigUint64LE(buffer, 0) == 0x0017060504030201;
  }

  /** getUint64BE below 2^53 is exact. */
  lemma SafeIntegerVectorBE()
    ensures BigEndian([0x00, 0x17, 0x01, 0x02, 0x03, 0x04, 0x05, 0x06][0..8]) < 0x20_0000_0000_0000
    ensures GetUint64BE([0x00, 0x17, 0x01, 0x02, 0x03, 0x04, 0x05, 0x06], 0) == 0x0017010203040506
  {
    var buffer: seq<Byte> := [0x00, 0x17, 0x01, 0x02, 0x03, 0x04, 0x05, 0x06];
    assert GetUint32BE(buffer, 0) == 0x00170102 && GetUint32BE(buffer, 4) == 0x03040506;
    assert GetBigUint64BE(buffer, 0) == 0x0017010203040506;
  }

  /** The little-endian value of four bytes. */
  lemma WordValue(b0: Byte, b1: Byte, b2: Byte, b3: Byte)
    ensures LittleEndian([b0, b1, b2, b3]) == b0 + 0x100 * b1 + 0x1_0000 * b2 + 0x100_0000 * b3
  {
    var s := [b0, b1, b2, b3];
    assert LittleEndian(s[3..]) == b3;
    assert LittleEndian(s[2..]) == b2 + 0x100 * b3;
    assert LittleEndian(s[1..]) == b1 + 0x100 * b2 + 0x1_0000 * b3;
  }

  /** Four bytes reversed. */
  lemma ReverseWord(b0: Byte, b1: Byte, b2: Byte, b3: Byte)
    ensures Reverse([b0, b1, b2, b3]) == [b3, b2, b1, b0]
  {
    var r := Reverse([b0, b1, b2, b3]);
    assert r[0] == b3 && r[1] == b2 && r[2] == b1 && r[3] == b0;
  }

  /** The minimal strings of a four-byte value, read off its bytes. */
  lemma WordStrings(b0: Byte, b1: Byte, b2: Byte, b3: Byte)
    requires b3 != 0
    ensures MinimalLE(b0 + 0x100 * b1 + 0x1_0000 * b2 + 0x100_0000 * b3) == [b0, b1, b2, b3]
    ensures MinimalBE(b0 + 0x100 * b1 + 0x1_0000 * b2 + 0x100_0000 * b3) == [b3, b2, b1, b0]
  {
    WordValue(b0, b1, b2, b3);
    MinimalLEUnique([b0, b1, b2, b3]);
    MinimalBEIsReversed(LittleEndian([b0, b1, b2, b3]));
    ReverseWord(b0, b1, b2, b3);
  }

  /** The string the little-endian writer emits for the test suite's values. */
  lemma LEValueStrings()
    ensures MinimalLE(0x04030201) == [0x01, 0x02, 0x03, 0x04] && MinimalLE(0x08) == [0x08]
  {
    WordStrings(0x01, 0x02, 0x03, 0x04);
    assert MinimalLE(0) == [];
  }

  /** The strings the big-endian writer emits for the test suite's values. */
  lemma BEValueStrings()
    ensures MinimalBE(0x01020304) == [0x01, 0x02, 0x03, 0x04]
    ensures MinimalBE(0x05060708) == [0x05, 0x06, 0x07, 0x08]
    ensures MinimalBE(0x090a0b0c) == [0x09, 0x0a, 0x0b, 0x0c]
  {
    WordStrings(0x04, 0x03, 0x02, 0x01);
    WordStrings(0x08, 0x07, 0x06, 0x05);
    WordStrings(0x0c, 0x0b, 0x0a, 0x09);
  }

  /** A four-byte run stored at offset 0 of a four-byte buffer replaces it. */
  lemma StoreWhole(before: seq<Byte>, run: seq<Byte>)
    requires |before| == 4 && |run| == 4
    ensures Store(before, 0, run) == run
  {
    StoreInside(before, 0, run);
  }

  /** setUintLE(buffer, 1, 0x08) on 01 02 03 04 overwrites the second byte only. */
  lemma StoreOneByte()
    ensures Store([0x01, 0x02, 0x03, 0x04], 1, [0x08]) == [0x01, 0x08, 0x03, 0x04]
  {
    var before := [0x01, 0x02, 0x03, 0x04];
    StoreInside(before, 1, [0x08]);
    var after := Store(before, 1, [0x08]);
    assert after == after[..1] + after[1..2] + after[2..];
  }

  /** setUintBE(buffer, 1, 0x05060708) on 01 02 03 04: the last byte, 08, is dropped. */
  lemma StoreDropsOne()
    ensures Store([0x01, 0x02, 0x03, 0x04], 1, [0x05, 0x06, 0x07, 0x08]) == [0x01, 0x05, 0x06, 0x07]
  {
    var before, run := [0x01, 0x02, 0x03, 0x04], [0x05, 0x06, 0x07, 0x08];
    StoreDrops(before, 1, run);
    assert run[..3] == [0x05, 0x06, 0x07];
    StoreInside(before, 1, [0x05, 0x06, 0x07]);
    var after := Store(before, 1, [0x05, 0x06, 0x07]);
    assert after == after[..1] + after[1..4];
  }

  /** setUintBE(buffer, 2, 0x090a0b0c) on 01 05 06 07: the last two bytes are dropped. */
  lemma StoreDropsTwo()
    ensures Store([0x01, 0x05, 0x06, 0x07], 2, [0x09, 0x0a, 0x0b, 0x0c]) == [0x01, 0x05, 0x09, 0x0a]
  {
    var before, run := [0x01, 0x05, 0x06, 0x07], [0x09, 0x0a, 0x0b, 0x0c];
    StoreDrops(before, 2, run);
    assert run[..2] == [0x09, 0x0a];
    StoreInside(before, 2, [0x09, 0x0a]);
    var after := Store(before, 2, [0x09, 0x0a]);
    assert after == after[..2] + after[2..4];
  }

  /** The buffers of the little-endian test scenario, step by step. */
  lemma LEScenario()
    ensures |MinimalLE(0x04030201)| == 4
    ensures Store([0, 0, 0, 0], 0, MinimalLE(0x04030201)) == [0x01, 0x02, 0x03, 0x04]
    ensures |MinimalLE(0x08)| == 1
    ensures Store([0x01, 0x02, 0x03, 0x04], 1, MinimalLE(0x08)) == [0x01, 0x08, 0x03, 0x04]
  {
    LEValueStrings();
    StoreWhole([0, 0, 0, 0], [0x01, 0x02, 0x03, 0x04]);
    StoreOneByte();
  }

  /** The buffers of the big-endian test scenario, step by step. */
  lemma BEScenario()
    ensures |MinimalBE(0x01020304)| == 4
    ensures Store([0, 0, 0, 0], 0, MinimalBE(0x01020304)) == [0x01, 0x02, 0x03, 0x04]
    ensures |MinimalBE(0x05060708)| == 4
    ensures Store([0x01, 0x02, 0x03, 0x04], 1, MinimalBE(0x05060708)) == [0x01, 0x05, 0x06, 0x07]
    ensures |MinimalBE(0x090a0b0c)| == 4
    ensures Store([0x01, 0x05, 0x06, 0x07], 2, MinimalBE(0x090a0b0c)) == [0x01, 0x05, 0x09, 0x0a]
  {
    BEValueStrings();
    StoreWhole([0, 0, 0, 0], [0x01, 0x02, 0x03, 0x04]);
    StoreDropsOne();
    StoreDropsTwo();
  }

  /** The little-endian test scenario through SetUintLE: a zeroed four-byte buffer, then
      0x04030201 at offset 0, then 0x08 at offset 1. Returns each returned offset and the
      buffer after each write. */
  method SetUintLEVectors() returns (first: nat, afterFirst: seq<Byte>, second: nat, afterSecond: seq<Byte>)
    ensures first == 4 && afterFirst == [0x01, 0x02, 0x03, 0x04]
    ensures second == 2 && afterSecond == [0x01, 0x08, 0x03, 0x04]
  {
    LEScenario();
    var buffer := new Byte[4](_ => 0);
    assert buffer[..] == [0, 0, 0, 0];
    first := SetUintLE(buffer, 0, 0x04030201);
    afterFirst := buffer[..];
    second := SetUintLE(buffer, 1, 0x08);
    afterSecond := buffer[..];
  }

  /** The big-endian test scenario through SetUintBE: a zeroed four-byte buffer, then
      0x01020304 at offset 0, 0x05060708 at offset 1 and 0x090a0b0c at offset 2. Returns
      each returned offset and the buffer after each write. */
  method SetUintBEVectors()
    returns (first: nat, afterFirst: seq<Byte>, second: nat, afterSecond: seq<Byte>,
             third: nat, afterThird: seq<Byte>)
    ensures first == 4 && afterFirst == [0x01, 0x02, 0x03, 0x04]
    ensures second == 5 && afterSecond == [0x01, 0x05, 0x06, 0x07]
    ensures third == 6 && afterThird == [0x01, 0x05, 0x09, 0x0a]
  {
    BEScenario();
    var buffer := new Byte[4](_ => 0);
    assert buffer[..] == [0, 0, 0, 0];
    first := SetUintBE(buffer, 0, 0x01020304);
    afterFirst := buffer[..];
    second := SetUintBE(buffer, 1, 0x05060708);
    afterSecond := buffer[..];
    third := SetUintBE(buffer, 2, 0x090a0b0c);
    afterThird := buffer[..];
  }
}
