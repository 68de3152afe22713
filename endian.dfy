/** The integer a byte string denotes, read least-significant byte first (little-endian)
    or most-significant byte first (big-endian). These are the reference definitions every
    reader and writer of the library is proved against. */
module Endian {

  /** The value of one cell of a byte buffer. */
  type Byte = x: int | 0 <= x < 0x100

  /** 256^n, the number of values an n-byte string can denote. */
  function Pow256(n: nat): (r: nat)
    ensures r >= 1
  {
    if n == 0 then 1 else 256 * Pow256(n - 1)
  }

  /** The value of `s` with `s[0]` least significant. */
  function LittleEndian(s: seq<Byte>): nat
  {
    if s == [] then 0 else s[0] + 256 * LittleEndian(s[1..])
  }

  /** The value of `s` with `s[0]` most significant (Horner's rule from the front). */
  function BigEndian(s: seq<Byte>): nat
  {
    if s == [] then 0 else 256 * BigEndian(s[..|s| - 1]) + s[|s| - 1]
  }

  /** `s` back to front. */
  function Reverse(s: seq<Byte>): (r: seq<Byte>)
    ensures |r| == |s|
    ensures forall i :: 0 <= i < |s| ==> r[i] == s[|s| - 1 - i]
  {
    if s == [] then [] else Reverse(s[1..]) + [s[0]]
  }

  /** True when every byte of `s` is zero. */
  predicate AllZero(s: seq<Byte>)
  {
    forall i :: 0 <= i < |s| ==> s[i] == 0
  }

  /** An n-byte little-endian string denotes a value below 256^n. */
  lemma {:induction false} LittleEndianBound(s: seq<Byte>)
    ensures LittleEndian(s) < Pow256(|s|)
  {
    if s != [] {
      LittleEndianBound(s[1..]);
    }
  }

  /** Concatenation: the bytes of `t` follow those of `s`, so they weigh 256^|s| more. */
  lemma {:induction false} LittleEndianAppend(s: seq<Byte>, t: seq<Byte>)
    ensures LittleEndian(s + t) == LittleEndian(s) + Pow256(|s|) * LittleEndian(t)
  {
    if s != [] {
      assert (s + t)[1..] == s[1..] + t;
      LittleEndianAppend(s[1..], t);
      var a, b, p := LittleEndian(s[1..]), LittleEndian(t), Pow256(|s| - 1);
      assert LittleEndian(s + t) == s[0] + 256 * (a + p * b);
      assert 256 * (a + p * b) == 256 * a + (256 * p) * b by { Distribute(a, p, b); }
    } else {
      assert s + t == t;
    }
  }

  lemma Distribute(a: int, p: int, b: int)
    ensures 256 * (a + p * b) == 256 * a + (256 * p) * b
    ensures 256 * (b * p + a) == b * (256 * p) + 256 * a
  {
  }

  /** A string of zero bytes denotes zero. */
  lemma {:induction false} LittleEndianAllZero(s: seq<Byte>)
    requires AllZero(s)
    ensures LittleEndian(s) == 0
  {
    if s != [] {
      LittleEndianAllZero(s[1..]);
    }
  }

  /** High-order zero bytes do not change a little-endian value. */
  lemma LittleEndianZeroExtend(s: seq<Byte>, t: seq<Byte>)
    requires AllZero(t)
    ensures LittleEndian(s + t) == LittleEndian(s)
  {
    LittleEndianAppend(s, t);
    LittleEndianAllZero(t);
  }

  /** Reading big-endian is reading the reversed string little-endian. */
  lemma {:induction false} BigEndianIsReversedLittleEndian(s: seq<Byte>)
    ensures BigEndian(s) == LittleEndian(Reverse(s))
  {
    if s != [] {
      var init, last := s[..|s| - 1], s[|s| - 1];
      assert Reverse(s) == [last] + Reverse(init);
      assert ([last] + Reverse(init))[1..] == Reverse(init);
      BigEndianIsReversedLittleEndian(init);
    }
  }

  /** Big-endian concatenation: the bytes of `s` come first, so they weigh 256^|t| more. */
  lemma {:induction false} BigEndianAppend(s: seq<Byte>, t: seq<Byte>)
    ensures BigEndian(s + t) == BigEndian(s) * Pow256(|t|) + BigEndian(t)
  {
    if t == [] {
      assert s + t == s;
    } else {
      var init, last := t[..|t| - 1], t[|t| - 1];
      assert (s + t)[..|s + t| - 1] == s + init;
      BigEndianAppend(s, init);
      var hi, lo, p := BigEndian(s), BigEndian(init), Pow256(|init|);
      assert BigEndian(s + t) == 256 * (hi * p + lo) + last;
      assert 256 * (hi * p + lo) == hi * (256 * p) + 256 * lo by { Distribute(lo, p, hi); }
    }
  }

  /** Low-order zero bytes multiply a big-endian value by 256 per byte. */
  lemma BigEndianZeroPad(s: seq<Byte>, t: seq<Byte>)
    requires AllZero(t)
    ensures BigEndian(s + t) == BigEndian(s) * Pow256(|t|)
  {
    BigEndianAppend(s, t);
    BigEndianIsReversedLittleEndian(t);
    LittleEndianAllZero(Reverse(t));
  }

  /** An n-byte big-endian string denotes a value below 256^n. */
  lemma BigEndianBound(s: seq<Byte>)
    ensures BigEndian(s) < Pow256(|s|)
  {
    BigEndianIsReversedLittleEndian(s);
    LittleEndianBound(Reverse(s));
  }

  /** Two little-endian strings of one length denote the same value exactly when they are
      the same string: no two byte strings of a width collide. */
  lemma {:induction false} LittleEndianInjective(s: seq<Byte>, t: seq<Byte>)
    requires |s| == |t|
    ensures LittleEndian(s) == LittleEndian(t) <==> s == t
  {
    if s != [] && LittleEndian(s) == LittleEndian(t) {
      LittleEndianInjective(s[1..], t[1..]);
      assert s[0] == LittleEndian(s) % 256 == t[0];
      assert s == [s[0]] + s[1..] && t == [t[0]] + t[1..];
    }
  }

  /** The big-endian reading is injective on strings of one length too. */
  lemma BigEndianInjective(s: seq<Byte>, t: seq<Byte>)
    requires |s| == |t|
    ensures BigEndian(s) == BigEndian(t) <==> s == t
  {
    BigEndianIsReversedLittleEndian(s);
    BigEndianIsReversedLittleEndian(t);
    LittleEndianInjective(Reverse(s), Reverse(t));
    if Reverse(s) == Reverse(t) {
      assert forall i :: 0 <= i < |s| ==> s[i] == Reverse(s)[|s| - 1 - i];
    }
  }
}
