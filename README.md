# bytes — a verified model of the byte utilities

The library (`mod.ts`) reads and writes fixed-width integers in a `Uint8Array` without a
`DataView`. Its readers cover 8, 16, 32 and 64 bits: signed and unsigned, little- and
big-endian. They are built from JavaScript's 32-bit bitwise operators, which keeps the
bundle small. `getUint64LE`/`getUint64BE` return a double, and `getBigUint64LE`/`getBigUint64BE`
return an exact `bigint`. The two writers, `setUintLE` and `setUintBE`, store the shortest
byte string of a value starting at an offset and return the offset just past it.

The model has six modules:

- `Endian` (endian.dfy) holds the reference definitions. `Byte` is a cell, and
  `LittleEndian`/`BigEndian` give the integer a byte string denotes. Its lemmas cover
  concatenation, bounds, injectivity, zero padding and the reversal between the two orders.
- `Int32` (int32.dfy) holds the two's-complement readings `Int8Of`, `Int16Of` and `Int32Of`.
  It also models what a JavaScript bitwise operator yields for a 32-bit pattern (`ToInt32`)
  and what `>>> 0` does (`ToUint32`).
- `Readers` (readers.dfy) holds every reader as a function of the buffer's cells. Each one
  is proved to equal the little- or big-endian value of its window, read as two's complement
  where the reader is signed.
- `SourceBits` (source_bits.dfy) evaluates the source's own bit expressions on `bv32`
  patterns. Examples are `buffer[o] | (buffer[o] & 0x80) * 0x1fffffe` and
  `(b0 << 24) | (b1 << 16) | …`. Each one is proved to compute the corresponding reader on
  any buffer holding those cells.
- `Writers` (writers.dfy) holds the writers as methods on an `array<Byte>`, with the source's
  loops. They are proved against `MinimalLE`/`MinimalBE` (the shortest byte strings of a
  value) and `Store` (the buffer after storing a run cell by cell, dropping stores past the
  end as a `Uint8Array` does).
- `Vectors` (vectors.dfy) states the test suite's cases as lemmas about the model.

The buffer is passed to the readers as the sequence of its cells, because no reader
modifies it. Offsets and values are mathematical integers. The JavaScript number semantics
the source relies on are written out:

- ToInt32 for `|`, `&` and `<<`.
- Euclidean `% 2^32` for `>>> 0`.
- `value % 256` for a `Uint8Array` store.
- `value / 256` for `value >>>= 8` on values below 2^32.

Writing 0 writes no byte and returns the offset unchanged, which is what the code does: both
loops stop as soon as the value is zero (mod.ts:172, mod.ts:189).

## Model

| member | source | states |
|---|---|---|
| Readers.GetUint8 | mod.ts:20-21 | the result is a byte value in [0, 256): the one-byte little-endian value of the cell at the offset |
| Readers.GetInt8 | mod.ts:29-30 | the result lies in [-128, 128), is congruent to the unsigned byte modulo 256, and is negative exactly when the byte is 0x80 or more |
| Readers.GetUint16LE | mod.ts:38-39 | the result lies in [0, 2^16) and equals the little-endian value of the two-byte window |
| Readers.GetUint16BE | mod.ts:47-48 | the result lies in [0, 2^16) and equals the big-endian value of the two-byte window |
| Readers.GetInt16LE | mod.ts:56-59 | the result lies in [-2^15, 2^15), is congruent to getUint16LE modulo 2^16, and is negative exactly when the second (high) byte has its top bit set |
| Readers.GetInt16BE | mod.ts:67-70 | the result lies in [-2^15, 2^15), is congruent to getUint16BE modulo 2^16, and is negative exactly when the first (high) byte has its top bit set |
| Readers.GetUint32LE | mod.ts:78-80 | the result lies in [0, 2^32) and equals the little-endian value of the four-byte window |
| Readers.GetUint32BE | mod.ts:88-90 | the result lies in [0, 2^32) and equals the big-endian value of the four-byte window |
| Readers.GetInt32LE | mod.ts:98-100 | the result lies in [-2^31, 2^31), is congruent to the little-endian value modulo 2^32, and is negative exactly when the last byte is 0x80 or more |
| Readers.GetInt32BE | mod.ts:108-110 | the result lies in [-2^31, 2^31), is congruent to the big-endian value modulo 2^32, and is negative exactly when the first byte is 0x80 or more |
| Readers.SignedUnsignedWords | mod.ts:78-90 | `>>> 0` only reinterprets: the unsigned word is the signed word modulo 2^32, and the signed word is the unsigned word less 2^32 when it is 2^31 or more |
| Int32.UnsignedOfSigned | mod.ts:78-80 | applying `>>> 0` to the signed reading of any 32-bit pattern gives back the pattern's unsigned value |
| Readers.GetBigUint64LE | mod.ts:140-145 | low word + high word · 2^32 lies in [0, 2^64) and equals the little-endian value of the eight-byte window |
| Readers.GetBigUint64BE | mod.ts:153-158 | high word · 2^32 + low word lies in [0, 2^64) and equals the big-endian value of the eight-byte window |
| Readers.BigUint64LEInjective | mod.ts:140-145 | two eight-byte windows give the same exact little-endian 64-bit value if and only if they hold the same bytes |
| Readers.BigUint64BEInjective | mod.ts:153-158 | two eight-byte windows give the same exact big-endian 64-bit value if and only if they hold the same bytes |
| Readers.GetUint64LE | mod.ts:118-120 | for values below 2^53 the double-valued read lies in [0, 2^53) and equals the exact read getBigUint64LE |
| Readers.GetUint64BE | mod.ts:128-130 | for values below 2^53 the double-valued read lies in [0, 2^53) and equals the exact read getBigUint64BE |
| SourceBits.Int8Expression | mod.ts:29-30 | on 32-bit patterns, b ORed with (b AND 0x80) · 0x1fffffe yields getInt8 of any buffer whose cell is b |
| SourceBits.SignProductsExact | mod.ts:30 | the products `(b & 0x80) * 0x1fffffe` and `(value & 0x8000) * 0x1fffe` never exceed 32 bits, so the model's 32-bit product equals JavaScript's exact product (the same holds at mod.ts:58 and mod.ts:69) |
| SourceBits.Uint16LEExpression | mod.ts:38-39 | b0 ORed with b1 shifted left by 8 yields getUint16LE of any buffer holding b0, b1 |
| SourceBits.Uint16BEExpression | mod.ts:47-48 | b0 shifted left by 8, ORed with b1, yields getUint16BE of any buffer holding b0, b1 |
| SourceBits.Int16LEExpression | mod.ts:56-59 | value ORed with (value AND 0x8000) · 0x1fffe, on the little-endian half-word, yields getInt16LE |
| SourceBits.Int16BEExpression | mod.ts:67-70 | the same sign extension on the big-endian half-word yields getInt16BE |
| SourceBits.Int32LEExpression | mod.ts:98-100 | the OR of b0, b1 << 8, b2 << 16 and b3 << 24, read as a 32-bit result, yields getInt32LE (negative when b3 ≥ 0x80) |
| SourceBits.Int32BEExpression | mod.ts:108-110 | the OR of b0 << 24, b1 << 16, b2 << 8 and b3 yields getInt32BE |
| SourceBits.Uint32LEExpression | mod.ts:78-80 | `getInt32LE(...) >>> 0` on the source's expression is the little-endian value of the four cells |
| SourceBits.Uint32BEExpression | mod.ts:88-90 | `getInt32BE(...) >>> 0` on the source's expression is the big-endian value of the four cells |
| Writers.MinimalLE | mod.ts:172 | the bytes emitted by the little-endian loop denote the value little-endian; they are empty exactly when the value is 0, and the last one is nonzero |
| Writers.MinimalBE | mod.ts:189 | the bytes collected by the big-endian loop denote the value big-endian; they are empty exactly when the value is 0, and the first one is nonzero |
| Writers.MinimalLEByte | mod.ts:172 | byte i of the little-endian string, stored at byteOffset + i, is (v / 256^i) mod 256, the value shifted right by 8i bits |
| Writers.MinimalBEByte | mod.ts:189 | byte i of the big-endian string of length n is (v / 256^(n-1-i)) mod 256 |
| Writers.MinimalBEIsReversed | mod.ts:183-193 | setUintBE emits exactly the bytes of setUintLE in reverse order |
| Writers.MinimalLELength | mod.ts:172 | the emitted string is the shortest one: v < 256^n and, for v > 0, 256^(n-1) ≤ v, where n is its length |
| Writers.WordLength | mod.ts:167-193 | a value below 2^32 takes at most four bytes in either order, and exactly four when it is 2^24 or more |
| Writers.MinimalLEUnique | mod.ts:172 | every byte string without high-order zero bytes is what the writer emits for its value, so the output depends on the value alone |
| Writers.Store | mod.ts:172 | storing into a Uint8Array never changes its length |
| Writers.StoreAt | mod.ts:191 | after a store, each cell holds the run's byte inside the run's window and its old value elsewhere |
| Writers.StoreWindow | mod.ts:191 | reading a window after storing a shorter run into it gives the run followed by the window's old tail |
| Writers.StoreInside | mod.ts:191 | a run that fits lands in its window, and the cells before and after it are unchanged |
| Writers.StoreDrops | mod.ts:191 | bytes past the end of the buffer are dropped: a run starting past the end changes nothing, and a run crossing the end stores only the part that fits |
| Writers.StoreSnoc | mod.ts:172 | one more store sets one more cell when that cell exists, and changes nothing otherwise |
| Writers.SetUintLE | mod.ts:167-174 | returns byteOffset plus the length of the minimal little-endian string, and leaves the buffer equal to that string stored at byteOffset |
| Writers.WriteRun | mod.ts:191 | stores the collected bytes in order from byteOffset, dropping the ones past the end, and returns byteOffset plus their number |
| Writers.SetUintBE | mod.ts:183-193 | returns byteOffset plus the length of the minimal big-endian string, and leaves the buffer equal to that string stored at byteOffset |
| Writers.MinimalWidth | mod.ts:167-193 | a value below 256^w takes at most w bytes, in either byte order |
| Writers.FullWidth | mod.ts:183-193 | a value in [256^(w-1), 256^w) takes exactly w bytes |
| Writers.RoundTripLEWidth | mod.ts:167-174 | for every width w, a value below 256^w written little-endian into a zeroed window of w cells reads back as the window's little-endian value |
| Writers.ShiftedReadBEWidth | mod.ts:183-193 | for every width w, a value below 256^w written big-endian into a zeroed window of w cells is left-aligned: the window's big-endian value is v times 256 per byte the writer omitted |
| Writers.RoundTripBEWidth | mod.ts:183-193 | for every width w, a value that needs all w bytes, written big-endian, reads back as the window's big-endian value, whatever the window held |
| Writers.RoundTripByte | mod.ts:167-193 | a byte written into a zeroed cell reads back with getUint8, in either byte order |
| Writers.RoundTripHalfWord | mod.ts:167-193 | a 16-bit value written into a zeroed two-byte window reads back with getUint16LE; getUint16BE reads it times 256 per byte the big-endian writer omitted |
| Writers.RoundTripBigWord | mod.ts:167-193 | a value below 2^32 written into a zeroed eight-byte window reads back exactly with getBigUint64LE; getBigUint64BE reads it times 256 per byte the big-endian writer omitted |
| Writers.RoundTripLE | mod.ts:167-174 | a value below 2^32 written little-endian into a zeroed four-byte window reads back unchanged with getUint32LE |
| Writers.ShiftedReadBE | mod.ts:183-193 | a value written big-endian into a zeroed four-byte window is left-aligned: getUint32BE reads it times 256 per byte the writer omitted |
| Writers.RoundTripBE | mod.ts:183-193 | a value in [2^24, 2^32) written big-endian reads back unchanged with getUint32BE, whatever the window held |
| Vectors.SignedHalfWordVectors | mod.test.ts:87-129 | getInt16LE and getInt16BE of 01 80 FF 7F at offsets 0 to 2 give the suite's expected values |
| Vectors.ByteVectors | mod.test.ts:19-45 | getUint8 and getInt8 of 01 80 FF give 0x01, 0x80, 0xFF and 1, -128, -1 |
| Vectors.HalfWordVectors | mod.test.ts:63-79 | getUint16LE and getUint16BE of 01 02 A3 B4 at offsets 0 to 2 give the suite's expected half-words |
| Vectors.WordVectors | mod.test.ts:131-142 | getUint32LE and getUint32BE at offsets 0 to 2 give all six of the suite's expected words |
| Vectors.BigWordVectorsLE | mod.test.ts:191-199 | getBigUint64LE at offsets 0 and 2 is exact above 2^53 |
| Vectors.BigWordVectorsBE | mod.test.ts:210-218 | getBigUint64BE at offsets 0 and 2 is exact above 2^53 |
| Vectors.SafeIntegerVector | mod.test.ts:145-149 | getUint64LE of a value below 2^53 is exact |
| Vectors.SafeIntegerVectorBE | mod.test.ts:167-172 | getUint64BE of a value below 2^53 is exact |
| Vectors.LEValueStrings | mod.test.ts:229-235 | the little-endian writer emits 01 02 03 04 for 0x04030201 and the single byte 08 for 0x08 |
| Vectors.BEValueStrings | mod.test.ts:239-248 | the big-endian writer emits the four bytes in order, most significant first, for each test value |
| Vectors.LEScenario | mod.test.ts:229-235 | the little-endian test writes take a zeroed buffer to 01 02 03 04 and then to 01 08 03 04 |
| Vectors.BEScenario | mod.test.ts:239-248 | the big-endian test writes give 01 02 03 04, then 01 05 06 07, then 01 05 09 0A, dropping the bytes past the end |
| Vectors.SetUintLEVectors | mod.test.ts:229-236 | the test's two calls of SetUintLE on a zeroed four-byte buffer return 4 and 2 and leave 01 02 03 04, then 01 08 03 04 |
| Vectors.SetUintBEVectors | mod.test.ts:238-249 | the test's three calls of SetUintBE return 4, 5 and 6 and leave 01 02 03 04, then 01 05 06 07, then 01 05 09 0A, dropping the bytes past the end |
| Vectors.StoreOneByte | mod.test.ts:234-235 | setUintLE(buffer, 1, 0x08) overwrites only the second byte |
| Vectors.StoreDropsOne | mod.test.ts:244-245 | setUintBE(buffer, 1, 0x05060708) on a four-byte buffer drops the last byte |
| Vectors.StoreDropsTwo | mod.test.ts:247-248 | setUintBE(buffer, 2, 0x090a0b0c) on a four-byte buffer drops the last two bytes |

## Left out

- GetUint64LE: modelled only for values below 2^53, where the double-precision result is exact. The rounding to the nearest double above 2^53 is floating point and is not modelled. The exact value is GetBigUint64LE.
- GetUint64BE: modelled only below 2^53, for the same reason.
- SetUintLE: `value` is required to be an integer in [0, 2^32). Other numbers are not modelled:
  - NaN fails the loop test, so nothing is written and the offset comes back unchanged, as for 0.
  - For an integer of 2^32 or more, the first store keeps the low byte, and `>>>=` then keeps only the low 32 bits of the value. For example, `setUintLE(buf, 0, 0x0102030405)` writes 05 04 03 02 and returns 4. A nonzero multiple of 2^32 writes a single 00 byte.
  - Negative and fractional values are coerced by the `Uint8Array` store (ToUint8) and by `>>>=` (ToUint32).
- SetUintBE: `value` is required to be an integer in [0, 2^32), for the same reasons. NaN writes nothing. For an integer of 2^32 or more, `value & 0xff` takes the low byte and `>>>=` keeps the low 32 bits. For example, `setUintBE(buf, 0, 0x0102030405)` writes 02 03 04 05, and a nonzero multiple of 2^32 writes a single 00 byte.
- Readers: offsets must be integers with the whole window inside the buffer. Out of range, a `Uint8Array` read yields `undefined`. The result then depends on JavaScript coercion (`undefined | x`, `undefined >>> 0`) rather than on the library's logic.
- Writers: `byteOffset` is a non-negative integer. In JavaScript a store at a negative or fractional index is a no-op; with a negative integer offset the offset climbs back to index 0 and the bytes from there on are stored. Neither case is modelled.
- The `BigInt` alias `i64` and `bigint` arithmetic are modelled as exact integers. `<< 32n` is written as `* 2^32`.
- The test suite's cross-checks against `DataView` are not modelled, because `DataView` is not part of this model.
- Readers take a snapshot of the buffer (`seq<Byte>`). They do not model aliasing between a reader and a concurrent writer, which cannot happen in single-threaded JavaScript.
