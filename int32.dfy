/** Two's-complement readings of fixed-width patterns, and JavaScript's 32-bit integer
    conversions as the library relies on them.

    The bitwise operators `|`, `&` and `<<` work on the 32-bit two's-complement pattern of
    their operands and yield that pattern read back as a SIGNED number (ToInt32); `x >>> 0`
    yields the pattern read as an UNSIGNED number (ToUint32). */
module Int32 {

  /** The signed reading of an 8-bit pattern `u`: the integer of [-2^7, 2^7) congruent to
      `u` modulo 2^8, negative exactly when the top bit is set. */
  function Int8Of(u: int): (r: int)
    requires 0 <= u < 0x100
    ensures -0x80 <= r < 0x80
    ensures r < 0 <==> u >= 0x80
  {
    if u < 0x80 then u else u - 0x100
  }

  /** The signed reading of a 16-bit pattern. */
  function Int16Of(u: int): (r: int)
    requires 0 <= u < 0x1_0000
    ensures -0x8000 <= r < 0x8000
    ensures r < 0 <==> u >= 0x8000
  {
    if u < 0x8000 then u else u - 0x1_0000
  }

  /** The signed reading of a 32-bit pattern: what `|` and `<<` yield. */
  function Int32Of(u: int): (r: int)
    requires 0 <= u < 0x1_0000_0000
    ensures -0x8000_0000 <= r < 0x8000_0000
    ensures r < 0 <==> u >= 0x8000_0000
  {
    if u < 0x8000_0000 then u else u - 0x1_0000_0000
  }

  /** Each signed reading is congruent to its pattern modulo 2^width: it denotes the same
      bits. */
  lemma SignedResidues(u: int)
    requires 0 <= u
    ensures u < 0x100 ==> Int8Of(u) % 0x100 == u
    ensures u < 0x1_0000 ==> Int16Of(u) % 0x1_0000 == u
    ensures u < 0x1_0000_0000 ==> Int32Of(u) % 0x1_0000_0000 == u
  {
  }

  /** `x >>> 0` on an integer `x`: the unsigned 32-bit number congruent to `x` modulo 2^32. */
  function ToUint32(x: int): (r: int)
    ensures 0 <= r < 0x1_0000_0000
    ensures (x - r) % 0x1_0000_0000 == 0
  {
    x % 0x1_0000_0000
  }

  /** Reading a 32-bit pattern as signed and then applying `>>> 0` gives back the pattern
      read as unsigned: the step from the signed to the unsigned 32-bit readers. */
  lemma UnsignedOfSigned(u: int)
    requires 0 <= u < 0x1_0000_0000
    ensures ToUint32(Int32Of(u)) == u
  {
    SignedResidues(u);
  }

  /** The number a 32-bit bitwise operator yields for the pattern `x`: its two's-complement
      reading. */
  function ToInt32(x: bv32): int
  {
    Int32Of(x as int)
  }

  /** Once the unsigned value `u` of a pattern is known, ToInt32 is its signed reading. */
  lemma ToInt32Of(x: bv32, u: int)
    requires x as int == u
    ensures ToInt32(x) == Int32Of(u)
  {
  }
}
