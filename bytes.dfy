/** Bytes of a font file and the big-endian integer fields of the SFNT layout. */
module Bytes {

  /** One octet of the font file. */
  type byte = x: int | 0 <= x < 256

  const Two16: nat := 0x1_0000
  const Two32: nat := 0x1_0000_0000

  /** The unsigned 16-bit big-endian value stored at `s[i..i+2]` (Node's readUInt16BE). */
  function U16At(s: seq<byte>, i: nat): (v: nat)
    requires i + 2 <= |s|
    ensures v < Two16
  {
    (s[i] as int) * 0x100 + s[i + 1]
  }

  /** The unsigned 32-bit big-endian value stored at `s[i..i+4]` (Node's readUInt32BE). */
  function U32At(s: seq<byte>, i: nat): (v: nat)
    requires i + 4 <= |s|
    ensures v < Two32
  {
    U16At(s, i) * Two16 + U16At(s, i + 2)
  }

  /** The two bytes that store `x` big-endian. */
  function EncodeU16(x: nat): (b: seq<byte>)
    requires x < Two16
    ensures |b| == 2
  {
    [x / 0x100, x % 0x100]
  }

  /** The four bytes that store `x` big-endian. */
  function EncodeU32(x: nat): (b: seq<byte>)
    requires x < Two32
    ensures |b| == 4
  {
    EncodeU16(x / Two16) + EncodeU16(x % Two16)
  }

  lemma U16RoundTrip(x: nat)
    requires x < Two16
    ensures U16At(EncodeU16(x), 0) == x
  {
  }

  lemma U16Fields(s: seq<byte>, i: nat)
    requires i + 2 <= |s|
    ensures EncodeU16(U16At(s, i)) == s[i..i + 2]
  {
    var v := U16At(s, i);
    assert v / 0x100 == s[i];
    assert v % 0x100 == s[i + 1];
  }

  lemma U32RoundTrip(x: nat)
    requires x < Two32
    ensures U32At(EncodeU32(x), 0) == x
  {
    var b := EncodeU32(x);
    U16RoundTrip(x / Two16);
    U16RoundTrip(x % Two16);
    assert U16At(b, 0) == U16At(EncodeU16(x / Two16), 0);
    assert U16At(b, 2) == U16At(EncodeU16(x % Two16), 0);
  }

  lemma U32Fields(s: seq<byte>, i: nat)
    requires i + 4 <= |s|
    ensures EncodeU32(U32At(s, i)) == s[i..i + 4]
  {
    var v := U32At(s, i);
    var hi, lo := U16At(s, i), U16At(s, i + 2);
    assert v / Two16 == hi && v % Two16 == lo;
    U16Fields(s, i);
    U16Fields(s, i + 2);
    assert s[i..i + 4] == s[i..i + 2] + s[i + 2..i + 4];
  }

  /** A 32-bit field reads the same wherever its four bytes stand. */
  lemma U32AtField(s: seq<byte>, i: nat, f: seq<byte>)
    requires i + 4 <= |s| && s[i..i + 4] == f
    ensures U32At(s, i) == U32At(f, 0)
  {
    assert s[i] == f[0] && s[i + 1] == f[1] && s[i + 2] == f[2] && s[i + 3] == f[3];
  }

  /** A big-endian field depends on its own bytes only. */
  lemma U32AtSlice(s: seq<byte>, j: nat, i: nat)
    requires j + i + 4 <= |s|
    ensures U32At(s[j..], i) == U32At(s, j + i)
  {
  }
}
