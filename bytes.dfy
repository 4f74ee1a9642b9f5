/**
  The byte-level vocabulary of the retained buffer: bytes, the fixed-width
  integers the queue stores, C strings, and the little-endian layout in which
  the fixed-width fields of a record sit in memory.
 */
module Bytes {

  type Byte = b: int | 0 <= b < 0x100
  type U16 = x: int | 0 <= x < 0x1_0000
  type U32 = x: int | 0 <= x < 0x1_0000_0000
  type I32 = x: int | -0x8000_0000 <= x < 0x8000_0000

  /** The characters of a C string: its bytes up to, not including, the NUL terminator. */
  type CString = s: seq<Byte> | forall i :: 0 <= i < |s| ==> s[i] != 0

  /** The least significant byte of u. */
  function Lo(u: nat): Byte
  {
    u % 0x100
  }

  /** u without its least significant byte. */
  function Hi(u: nat): nat
  {
    u / 0x100
  }

  /** The value whose least significant byte is lo and whose remaining bytes make hi. */
  function Join(lo: Byte, hi: nat): nat
  {
    lo as int + 0x100 * hi
  }

  lemma {:induction false} Split(u: nat)
    ensures u == Join(Lo(u), Hi(u))
  {
  }

  /** Joining a byte to a value and splitting the result gives both back. */
  lemma {:induction false} JoinParts(lo: Byte, hi: nat)
    ensures Lo(Join(lo, hi)) == lo && Hi(Join(lo, hi)) == hi
  {
  }

  /** A 16-bit value as two bytes, least significant first. */
  function U16Bytes(x: U16): (s: seq<Byte>)
    ensures |s| == 2
  {
    [Lo(x), Lo(Hi(x))]
  }

  /** The 16-bit value held in s[at], s[at + 1], least significant first. */
  function U16At(s: seq<Byte>, at: nat): U16
    requires at + 2 <= |s|
  {
    Join(s[at], s[at + 1])
  }

  /** The unsigned 32-bit pattern of a signed value in two's complement. */
  function Unsigned(x: I32): nat
  {
    if x < 0 then x + 0x1_0000_0000 else x
  }

  /** The signed 32-bit value whose two's-complement pattern is u. */
  function Signed(u: nat): (x: I32)
    requires u < 0x1_0000_0000
    ensures Unsigned(x) == u
  {
    if u >= 0x8000_0000 then u - 0x1_0000_0000 else u
  }

  /** A signed 32-bit value as the four bytes of its two's-complement form, least significant first. */
  function I32Bytes(x: I32): (s: seq<Byte>)
    ensures |s| == 4
  {
    var u := Unsigned(x);
    [Lo(u), Lo(Hi(u)), Lo(Hi(Hi(u))), Lo(Hi(Hi(Hi(u))))]
  }

  /** The signed 32-bit value held in two's-complement form in s[at..at + 4]. */
  function I32At(s: seq<Byte>, at: nat): I32
    requires at + 4 <= |s|
  {
    Signed(Join(s[at], Join(s[at + 1], Join(s[at + 2], s[at + 3]))))
  }

  /** Two bytes written for x read back as x. */
  lemma {:induction false} U16RoundTrip(s: seq<Byte>, at: nat, x: U16)
    requires at + 2 <= |s| && s[at..at + 2] == U16Bytes(x)
    ensures U16At(s, at) == x
  {
    var h := Hi(x);
    assert s[at] == Lo(x) && s[at + 1] == Lo(h);
    Split(x);
    assert h < 0x100 && Lo(h) == h;
  }

  /** Two bytes read as a 16-bit value are the bytes written for that value. */
  lemma {:induction false} U16AtBytes(s: seq<Byte>, at: nat)
    requires at + 2 <= |s|
    ensures U16Bytes(U16At(s, at)) == s[at..at + 2]
  {
    JoinParts(s[at], s[at + 1]);
  }

  /** Four bytes read as a signed 32-bit value are the bytes written for that value. */
  lemma {:induction false} I32AtBytes(s: seq<Byte>, at: nat)
    requires at + 4 <= |s|
    ensures I32Bytes(I32At(s, at)) == s[at..at + 4]
  {
    var u2 := Join(s[at + 2], s[at + 3]);
    var u1 := Join(s[at + 1], u2);
    var u := Join(s[at], u1);
    JoinParts(s[at + 2], s[at + 3]);
    JoinParts(s[at + 1], u2);
    JoinParts(s[at], u1);
    var b3 := s[at + 3];
    assert Lo(b3) == b3;
    assert I32Bytes(I32At(s, at)) == [Lo(u), Lo(u1), Lo(u2), Lo(b3)];
  }

  /** Four bytes written for x read back as x. */
  lemma {:induction false} I32RoundTrip(s: seq<Byte>, at: nat, x: I32)
    requires at + 4 <= |s| && s[at..at + 4] == I32Bytes(x)
    ensures I32At(s, at) == x
  {
    var u := Unsigned(x);
    var h1 := Hi(u);
    var h2 := Hi(h1);
    var h3 := Hi(h2);
    assert s[at] == Lo(u) && s[at + 1] == Lo(h1) && s[at + 2] == Lo(h2) && s[at + 3] == Lo(h3);
    Split(u);
    Split(h1);
    Split(h2);
    assert h3 < 0x100 && Lo(h3) == h3;
  }
}
