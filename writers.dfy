/** The variable-length writers. `setUintLE` and `setUintBE` write the shortest byte string
    that denotes `value` (no byte at all for zero), little- or big-endian, starting at
    `byteOffset`, and return the offset just past it. Stores beyond the end of the buffer
    are dropped, as a `Uint8Array` drops them, while the returned offset still advances. */
module Writers {
  import opened Endian
  import opened Readers

  // ---- the byte strings the writers produce -------------------------------------------

  /** The shortest little-endian string denoting `v`: it ends in a nonzero byte. */
  function MinimalLE(v: nat): (r: seq<Byte>)
    ensures LittleEndian(r) == v
    ensures r == [] <==> v == 0
    ensures r != [] ==> r[|r| - 1] != 0
    decreases v
  {
    if v == 0 then []
    else
      var rest := MinimalLE(v / 256);
      assert ([v % 256] + rest)[1..] == rest;
      [v % 256] + rest
  }

  /** The shortest big-endian string denoting `v`: it starts with a nonzero byte. */
  function MinimalBE(v: nat): (r: seq<Byte>)
    ensures BigEndian(r) == v
    ensures r == [] <==> v == 0
    ensures r != [] ==> r[0] != 0
    decreases v
  {
    if v == 0 then []
    else
      var init := MinimalBE(v / 256);
      assert (init + [v % 256])[..|init|] == init;
      init + [v % 256]
  }

  /** Big-endian writing emits the little-endian bytes in reverse order. */
  lemma {:induction false} MinimalBEIsReversed(v: nat)
    ensures MinimalBE(v) == Reverse(MinimalLE(v))
    decreases v
  {
    if v != 0 {
      MinimalBEIsReversed(v / 256);
      var rest := MinimalLE(v / 256);
      assert ([v % 256] + rest)[1..] == rest;
    }
  }

  lemma {:induction false} Pow256Monotone(m: nat, n: nat)
    requires m <= n
    ensures Pow256(m) <= Pow256(n)
    decreases n
  {
    if m < n {
      Pow256Monotone(m, n - 1);
    }
  }

  /** The minimal string is as short as possible: `v` needs every one of its bytes. */
  lemma {:induction false} MinimalLELength(v: nat)
    ensures v < Pow256(|MinimalLE(v)|)
    ensures v > 0 ==> Pow256(|MinimalLE(v)| - 1) <= v
    decreases v
  {
    if v != 0 {
      MinimalLELength(v / 256);
    }
  }

  /** Powers of 256 grow with the exponent, stated as an implication so that it can be
      applied where the ordering of the exponents is still open. */
  lemma Pow256Ordered(m: nat, n: nat)
    ensures m <= n ==> Pow256(m) <= Pow256(n)
  {
    if m <= n {
      Pow256Monotone(m, n);
    }
  }

  /** For a value of 32 bits the writers emit at most four bytes, and exactly four when the
      top byte is nonzero. */
  lemma WordLength(v: nat)
    requires v < 0x1_0000_0000
    ensures |MinimalLE(v)| <= 4 && |MinimalBE(v)| == |MinimalLE(v)|
    ensures |MinimalLE(v)| == 4 <==> v >= 0x100_0000
  {
    assert Pow256(3) == 0x100_0000 && Pow256(4) == 0x1_0000_0000;
    MinimalWidth(v, 4);
    MinimalLELength(v);
    Pow256Ordered(|MinimalLE(v)|, 3);
  }

  lemma DivMod256(n: int, low: int, high: int)
    requires 0 <= low < 256 && n == low + 256 * high
    ensures n % 256 == low && n / 256 == high
  {
  }

  /** Every string without high-order zero bytes is the minimal string of its value: the
      writers' output is determined by the value and nothing else. */
  lemma {:induction false} MinimalLEUnique(s: seq<Byte>)
    requires s != [] ==> s[|s| - 1] != 0
    ensures MinimalLE(LittleEndian(s)) == s
  {
    if s != [] {
      MinimalLEUnique(s[1..]);
      var n, rest := LittleEndian(s), LittleEndian(s[1..]);
      assert n == s[0] + 256 * rest;
      DivMod256(n, s[0], rest);
      assert n != 0 by {
        if rest == 0 {
          assert s[1..] == MinimalLE(0) == [];
        }
      }
      assert MinimalLE(n) == [s[0]] + s[1..];
      assert s == [s[0]] + s[1..];
    }
  }

  /** Integer division is determined by a quotient and a remainder in range. */
  lemma DivUnique(n: int, d: int, q: int, r: int)
    requires 0 < d && 0 <= r < d && n == d * q + r
    ensures n / d == q
  {
    var q', r' := n / d, n % d;
    assert n == d * q' + r' && 0 <= r' < d;
    var k := q - q';
    assert d * k == r' - r by {
      assert d * q - d * q' == d * k;
    }
    if k >= 1 {
      MulAtLeast(d, k);
    } else if k <= -1 {
      MulAtLeast(d, -k);
    }
  }

  lemma MulAtLeast(d: int, k: int)
    requires 0 < d && 1 <= k
    ensures d * (-k) == -(d * k) && d * k >= d
  {
    assert d * k == d + d * (k - 1);
  }

  /** Shifting right by one byte and then by `i` bytes is shifting right by `i + 1` bytes. */
  lemma DivPow256(v: nat, i: nat)
    ensures v / 256 / Pow256(i) == v / Pow256(i + 1)
  {
    var p := Pow256(i);
    var q, r := v / 256, v % 256;
    var q2, r2 := q / p, q % p;
    assert v == 256 * q + r;
    assert q == p * q2 + r2;
    assert v == (256 * p) * q2 + (256 * r2 + r);
    assert 256 * r2 + r < 256 * p by {
      assert r2 <= p - 1;
      assert 256 * r2 <= 256 * p - 256;
    }
    DivUnique(v, 256 * p, q2, 256 * r2 + r);
  }

  /** Byte `i` of the little-endian string, written at `byteOffset + i`, is byte `i` of the
      value: `(v >>> 8i) & 0xff`. */
  lemma {:induction false} MinimalLEByte(v: nat, i: nat)
    requires i < |MinimalLE(v)|
    ensures MinimalLE(v)[i] == (v / Pow256(i)) % 256
    decreases i
  {
    if i > 0 {
      var rest := MinimalLE(v / 256);
      assert MinimalLE(v) == [v % 256] + rest;
      MinimalLEByte(v / 256, i - 1);
      DivPow256(v, i - 1);
      assert MinimalLE(v)[i] == rest[i - 1];
    }
  }

  /** Byte `i` of the big-endian string is byte `n - 1 - i` of the value, where `n` is the
      string's length. */
  lemma MinimalBEByte(v: nat, i: nat)
    requires i < |MinimalBE(v)|
    ensures MinimalBE(v)[i] == (v / Pow256(|MinimalBE(v)| - 1 - i)) % 256
  {
    var le, be := MinimalLE(v), MinimalBE(v);
    MinimalBEIsReversed(v);
    assert be == Reverse(le) && |le| == |be|;
    var j := |le| - 1 - i;
    assert be[i] == le[j];
    MinimalLEByte(v, j);
  }

  // ---- storing into a Uint8Array ------------------------------------------------------

  /** The buffer after storing the bytes of `run` at `off`, `off + 1`, ..., one cell at a
      time, as a `Uint8Array` stores them: a store past the end of the buffer is dropped. */
  function Store(before: seq<Byte>, off: nat, run: seq<Byte>): (after: seq<Byte>)
    ensures |after| == |before|
    decreases |run|
  {
    if run == [] then before
    else
      var at, prefix := off + |run| - 1, Store(before, off, run[..|run| - 1]);
      if at < |before| then prefix[at := run[|run| - 1]] else prefix
  }

  /** Storing one more byte sets one more cell, if that cell exists. */
  lemma StoreSnoc(before: seq<Byte>, off: nat, run: seq<Byte>, x: Byte)
    ensures off + |run| < |before| ==>
              Store(before, off, run + [x]) == Store(before, off, run)[off + |run| := x]
    ensures off + |run| >= |before| ==>
              Store(before, off, run + [x]) == Store(before, off, run)
  {
    assert (run + [x])[..|run|] == run;
  }

  /** Each cell of the result: a byte of the run inside its window, the old value elsewhere. */
  lemma {:induction false} StoreAt(before: seq<Byte>, off: nat, run: seq<Byte>, i: nat)
    requires i < |before|
    ensures Store(before, off, run)[i] == if off <= i < off + |run| then run[i - off] else before[i]
    decreases |run|
  {
    if run != [] {
      StoreAt(before, off, run[..|run| - 1], i);
    }
  }

  /** Reading a window of `n` cells after storing a run no longer than `n` in it: the run,
      then what the window held before. */
  lemma StoreWindow(before: seq<Byte>, off: nat, run: seq<Byte>, n: nat)
    requires |run| <= n && off + n <= |before|
    ensures Store(before, off, run)[off..off + n] == run + before[off + |run|..off + n]
  {
    var window, expected := Store(before, off, run)[off..off + n], run + before[off + |run|..off + n];
    forall j | 0 <= j < n
      ensures window[j] == expected[j]
    {
      StoreAt(before, off, run, off + j);
    }
  }

  /** A run that fits lands in its window; the cells before and after it are untouched. */
  lemma StoreInside(before: seq<Byte>, off: nat, run: seq<Byte>)
    requires off + |run| <= |before|
    ensures Store(before, off, run)[off..off + |run|] == run
    ensures Store(before, off, run)[..off] == before[..off]
    ensures Store(before, off, run)[off + |run|..] == before[off + |run|..]
  {
    var after := Store(before, off, run);
    StoreWindow(before, off, run, |run|);
    assert before[off + |run|..off + |run|] == [];
    forall i | 0 <= i < |before| && !(off <= i < off + |run|)
      ensures after[i] == before[i]
    {
      StoreAt(before, off, run, i);
    }
    var head, tail := after[..off], after[off + |run|..];
    assert forall i :: 0 <= i < off ==> head[i] == after[i];
    assert forall i :: 0 <= i < |tail| ==> tail[i] == after[off + |run| + i];
  }

  /** Only the part of the run that fits is stored: the rest is dropped, and a run that
      starts past the end leaves the buffer as it was. */
  lemma StoreDrops(before: seq<Byte>, off: nat, run: seq<Byte>)
    ensures off >= |before| ==> Store(before, off, run) == before
    ensures off < |before| && off + |run| > |before| ==>
              Store(before, off, run) == Store(before, off, run[..|before| - off])
  {
    var after := Store(before, off, run);
    if off >= |before| {
      forall i | 0 <= i < |before| ensures after[i] == before[i] {
        StoreAt(before, off, run, i);
      }
    } else if off + |run| > |before| {
      var fits := run[..|before| - off];
      forall i | 0 <= i < |before| ensures after[i] == Store(before, off, fits)[i] {
        StoreAt(before, off, run, i);
        StoreAt(before, off, fits, i);
      }
    }
  }

  // ---- the writers --------------------------------------------------------------------

  /** One turn of the little-endian loop moves the low byte of `v` to the written part. */
  lemma MinimalLEStep(v: nat, written: seq<Byte>)
    requires v != 0
    ensures written + MinimalLE(v) == (written + [v % 256]) + MinimalLE(v / 256)
  {
  }

  /** setUintLE: writes `value` least significant byte first, stopping as soon as the
      remaining value is zero, and returns the offset past the last byte. */
  method SetUintLE(buffer: array<Byte>, byteOffset: nat, value: int) returns (next: nat)
    requires 0 <= value < 0x1_0000_0000
    modifies buffer
    ensures next == byteOffset + |MinimalLE(value)|
    ensures buffer[..] == Store(old(buffer[..]), byteOffset, MinimalLE(value))
  {
    ghost var before := buffer[..];
    var v: nat := value;
    next := byteOffset;
    ghost var written: seq<Byte> := [];
    while v != 0
      invariant MinimalLE(value) == written + MinimalLE(v)
      invariant next == byteOffset + |written|
      invariant buffer[..] == Store(before, byteOffset, written)
      decreases v
    {
      var low: Byte := v % 256;
      ghost var prev := buffer[..];
      // `buffer[byteOffset] = value` keeps the low byte; a store past the end is dropped
      if next < buffer.Length {
        buffer[next] := low;
        assert buffer[..] == prev[next := low];
      }
      StoreSnoc(before, byteOffset, written, low);
      MinimalLEStep(v, written);
      written := written + [low];
      // `value >>>= 8` on a value below 2^32
      v := v / 256;
      next := next + 1;
    }
    assert written == MinimalLE(value);
  }

  /** One turn of the first big-endian loop moves the low byte of `v` to the front of the
      collected bytes. */
  lemma MinimalBEStep(v: nat, collected: seq<Byte>)
    requires v != 0
    ensures MinimalBE(v) + collected == MinimalBE(v / 256) + ([v % 256] + collected)
  {
  }

  /** Stores each byte of `run` in turn from `byteOffset` on, dropping the stores past the
      end, and returns the offset past the run. */
  method WriteRun(buffer: array<Byte>, byteOffset: nat, run: seq<Byte>) returns (next: nat)
    modifies buffer
    ensures next == byteOffset + |run|
    ensures buffer[..] == Store(old(buffer[..]), byteOffset, run)
  {
    ghost var before := buffer[..];
    next := byteOffset;
    var k := 0;
    while k < |run|
      invariant 0 <= k <= |run|
      invariant next == byteOffset + k
      invariant buffer[..] == Store(before, byteOffset, run[..k])
    {
      ghost var prev := buffer[..];
      if next < buffer.Length {
        buffer[next] := run[k];
        assert buffer[..] == prev[next := run[k]];
      }
      StoreSnoc(before, byteOffset, run[..k], run[k]);
      assert run[..k + 1] == run[..k] + [run[k]];
      next := next + 1;
      k := k + 1;
    }
    assert run[..k] == run;
  }

  /** setUintBE: collects the bytes of `value` with the most significant one first, then
      writes them in that order and returns the offset past the last byte. */
  method SetUintBE(buffer: array<Byte>, byteOffset: nat, value: int) returns (next: nat)
    requires 0 <= value < 0x1_0000_0000
    modifies buffer
    ensures next == byteOffset + |MinimalBE(value)|
    ensures buffer[..] == Store(old(buffer[..]), byteOffset, MinimalBE(value))
  {
    ghost var before := buffer[..];
    var splitted: seq<Byte> := [];
    var v: nat := value;
    while v != 0
      invariant MinimalBE(value) == MinimalBE(v) + splitted
      invariant buffer[..] == before
      decreases v
    {
      // `splitted.unshift(value & 0xff)`
      MinimalBEStep(v, splitted);
      splitted := [v % 256] + splitted;
      v := v / 256;
    }
    assert splitted == MinimalBE(value);
    // `for (const val of splitted) buffer[byteOffset++] = val`
    next := WriteRun(buffer, byteOffset, splitted);
  }

  // ---- round trips --------------------------------------------------------------------

  /** The tail of a zeroed window is zeroed. */
  lemma ZeroTail(before: seq<Byte>, off: nat, w: nat, k: nat)
    requires off + w <= |before| && AllZero(before[off..off + w])
    requires k <= w
    ensures AllZero(before[off + k..off + w])
  {
    var window, tail := before[off..off + w], before[off + k..off + w];
    assert forall i :: 0 <= i < |tail| ==> tail[i] == window[k + i];
  }

  /** A value below 256^w takes at most `w` bytes in either order. */
  lemma MinimalWidth(v: nat, w: nat)
    requires v < Pow256(w)
    ensures |MinimalLE(v)| <= w && |MinimalBE(v)| == |MinimalLE(v)|
  {
    MinimalLELength(v);
    MinimalBEIsReversed(v);
    if v > 0 {
      Pow256Ordered(w, |MinimalLE(v)| - 1);
    }
  }

  /** A value below 256^w written little-endian into a zeroed window of `w` cells reads
      back unchanged as the little-endian value of that window. */
  lemma RoundTripLEWidth(before: seq<Byte>, off: nat, w: nat, v: nat)
    requires off + w <= |before| && AllZero(before[off..off + w])
    requires v < Pow256(w)
    ensures LittleEndian(Store(before, off, MinimalLE(v))[off..off + w]) == v
  {
    var run := MinimalLE(v);
    MinimalWidth(v, w);
    var zeros := before[off + |run|..off + w];
    ZeroTail(before, off, w, |run|);
    StoreWindow(before, off, run, w);
    LittleEndianZeroExtend(run, zeros);
  }

  /** Big-endian writing is left-aligned: into a zeroed window of `w` cells, the
      big-endian value of the window is `v` shifted up by the bytes the writer left out. */
  lemma ShiftedReadBEWidth(before: seq<Byte>, off: nat, w: nat, v: nat)
    requires off + w <= |before| && AllZero(before[off..off + w])
    requires v < Pow256(w)
    ensures |MinimalBE(v)| <= w
    ensures BigEndian(Store(before, off, MinimalBE(v))[off..off + w])
            == v * Pow256(w - |MinimalBE(v)|)
  {
    var run := MinimalBE(v);
    MinimalWidth(v, w);
    var zeros := before[off + |run|..off + w];
    ZeroTail(before, off, w, |run|);
    StoreWindow(before, off, run, w);
    BigEndianZeroPad(run, zeros);
  }

  /** A value that needs all `w` bytes, written big-endian, fills its window and reads back
      unchanged whatever the window held before. */
  lemma RoundTripBEWidth(before: seq<Byte>, off: nat, w: nat, v: nat)
    requires off + w <= |before|
    requires 1 <= w && Pow256(w - 1) <= v < Pow256(w)
    ensures BigEndian(Store(before, off, MinimalBE(v))[off..off + w]) == v
  {
    var run := MinimalBE(v);
    FullWidth(v, w);
    StoreInside(before, off, run);
  }

  /** A value in [256^(w-1), 256^w) takes exactly `w` bytes. */
  lemma FullWidth(v: nat, w: nat)
    requires 1 <= w && Pow256(w - 1) <= v < Pow256(w)
    ensures |MinimalBE(v)| == w
  {
    MinimalWidth(v, w);
    MinimalLELength(v);
    Pow256Ordered(|MinimalLE(v)|, w - 1);
  }

  /** A byte written into a zeroed cell reads back with getUint8, in either byte order. */
  lemma RoundTripByte(before: seq<Byte>, off: nat, v: nat)
    requires off < |before| && AllZero(before[off..off + 1])
    requires v < 0x100
    ensures GetUint8(Store(before, off, MinimalLE(v)), off) == v
    ensures GetUint8(Store(before, off, MinimalBE(v)), off) == v
  {
    assert Pow256(1) == 0x100;
    RoundTripLEWidth(before, off, 1, v);
    ShiftedReadBEWidth(before, off, 1, v);
    MinimalLELength(v);
  }

  /** A value of 16 bits written into a zeroed two-byte window: getUint16LE reads it back,
      and getUint16BE reads it shifted up by the bytes the big-endian writer left out. */
  lemma RoundTripHalfWord(before: seq<Byte>, off: nat, v: nat)
    requires off + 2 <= |before| && AllZero(before[off..off + 2])
    requires v < 0x1_0000
    ensures |MinimalBE(v)| <= 2
    ensures GetUint16LE(Store(before, off, MinimalLE(v)), off) == v
    ensures GetUint16BE(Store(before, off, MinimalBE(v)), off) == v * Pow256(2 - |MinimalBE(v)|)
  {
    assert Pow256(2) == 0x1_0000;
    RoundTripLEWidth(before, off, 2, v);
    ShiftedReadBEWidth(before, off, 2, v);
  }

  /** A value of 32 bits written little-endian into a zeroed four-byte window reads back
      unchanged with getUint32LE. */
  lemma RoundTripLE(before: seq<Byte>, off: nat, v: nat)
    requires off + 4 <= |before| && AllZero(before[off..off + 4])
    requires v < 0x1_0000_0000
    ensures GetUint32LE(Store(before, off, MinimalLE(v)), off) == v
  {
    assert Pow256(4) == 0x1_0000_0000;
    RoundTripLEWidth(before, off, 4, v);
  }

  /** Into a zeroed four-byte window, getUint32BE reads a big-endian write shifted up by the
      bytes the writer left out. */
  lemma ShiftedReadBE(before: seq<Byte>, off: nat, v: nat)
    requires off + 4 <= |before| && AllZero(before[off..off + 4])
    requires v < 0x1_0000_0000
    ensures |MinimalBE(v)| <= 4
    ensures GetUint32BE(Store(before, off, MinimalBE(v)), off) == v * Pow256(4 - |MinimalBE(v)|)
  {
    assert Pow256(4) == 0x1_0000_0000;
    ShiftedReadBEWidth(before, off, 4, v);
  }

  /** A value with a nonzero top byte written big-endian reads back unchanged with
      getUint32BE, whatever the window held before. */
  lemma RoundTripBE(before: seq<Byte>, off: nat, v: nat)
    requires off + 4 <= |before|
    requires 0x100_0000 <= v < 0x1_0000_0000
    ensures GetUint32BE(Store(before, off, MinimalBE(v)), off) == v
  {
    assert Pow256(3) == 0x100_0000 && Pow256(4) == 0x1_0000_0000;
    RoundTripBEWidth(before, off, 4, v);
  }

  /** What the writers store for a value below 2^32 (the most they can write), read back
      from a zeroed eight-byte window: exactly by getBigUint64LE, and shifted up by the
      bytes left out by getBigUint64BE. */
  lemma RoundTripBigWord(before: seq<Byte>, off: nat, v: nat)
    requires off + 8 <= |before| && AllZero(before[off..off + 8])
    requires v < 0x1_0000_0000
    ensures |MinimalBE(v)| <= 4
    ensures GetBigUint64LE(Store(before, off, MinimalLE(v)), off) == v
    ensures GetBigUint64BE(Store(before, off, MinimalBE(v)), off) == v * Pow256(8 - |MinimalBE(v)|)
  {
    assert Pow256(4) == 0x1_0000_0000;
    Pow256Monotone(4, 8);
    MinimalWidth(v, 4);
    RoundTripLEWidth(before, off, 8, v);
    ShiftedReadBEWidth(before, off, 8, v);
  }
}
