/** Bytes, the US-ASCII decoding the header scanner applies to them, and
    fixed-width unsigned integers in either byte order. */
module Bytes {

  newtype byte = x: int | 0 <= x < 256

  /** US-ASCII decoding of one byte: bytes above 0x7F become U+FFFD. */
  function AsciiChar(b: byte): char
  {
    if b < 128 then (b as int) as char else '\U{FFFD}'
  }

  /** US-ASCII decoding of a byte string: one character per byte, the
      character with the byte's code for a 7-bit byte and U+FFFD for any
      other. */
  function DecodeAscii(bs: seq<byte>): (s: string)
    ensures |s| == |bs|
    ensures forall i :: 0 <= i < |bs| && bs[i] < 128 ==> s[i] as int == bs[i] as int
    ensures forall i :: 0 <= i < |bs| && bs[i] >= 128 ==> s[i] == '\U{FFFD}'
  {
    seq(|bs|, i requires 0 <= i < |bs| => AsciiChar(bs[i]))
  }

  /** Bytes of an ASCII string. */
  function AsciiBytes(s: string): (bs: seq<byte>)
    requires forall i :: 0 <= i < |s| ==> s[i] as int < 128
    ensures |bs| == |s|
  {
    seq(|s|, i requires 0 <= i < |s| => (s[i] as int) as byte)
  }

  lemma DecodeAsciiBytes(s: string)
    requires forall i :: 0 <= i < |s| ==> s[i] as int < 128
    ensures DecodeAscii(AsciiBytes(s)) == s
  {
  }

  datatype ByteOrder = LittleEndian | BigEndian

  function Pow256(n: nat): (p: nat)
    ensures p > 0
  {
    if n == 0 then 1 else 256 * Pow256(n - 1)
  }

  /** Unsigned value of bytes stored least significant first. */
  function UnsignedLE(bs: seq<byte>): (u: nat)
    ensures u < Pow256(|bs|)
  {
    if |bs| == 0 then 0 else bs[0] as nat + 256 * UnsignedLE(bs[1..])
  }

  /** The `w` bytes, least significant first, of an unsigned value. */
  function EncodeLE(u: nat, w: nat): (bs: seq<byte>)
    requires u < Pow256(w)
    ensures |bs| == w
  {
    if w == 0 then [] else [(u % 256) as byte] + EncodeLE(u / 256, w - 1)
  }

  lemma {:induction false} UnsignedEncodeLE(u: nat, w: nat)
    requires u < Pow256(w)
    ensures UnsignedLE(EncodeLE(u, w)) == u
    decreases w
  {
    if w > 0 {
      var bs := EncodeLE(u, w);
      assert bs[1..] == EncodeLE(u / 256, w - 1);
      UnsignedEncodeLE(u / 256, w - 1);
    }
  }

  function Reverse<T>(s: seq<T>): (r: seq<T>)
    ensures |r| == |s|
    ensures forall i :: 0 <= i < |s| ==> r[i] == s[|s| - 1 - i]
  {
    if |s| == 0 then [] else Reverse(s[1..]) + [s[0]]
  }

  lemma ReverseReverse<T>(s: seq<T>)
    ensures Reverse(Reverse(s)) == s
  {
  }

  /** The bytes in least-significant-first order, whatever the file's order. */
  function InLittleEndian(bs: seq<byte>, order: ByteOrder): (le: seq<byte>)
    ensures |le| == |bs|
  {
    if order == LittleEndian then bs else Reverse(bs)
  }

  /** A big-endian file holds the same values as the little-endian file
      whose every field has its bytes reversed. */
  lemma InLittleEndianSwap(bs: seq<byte>)
    ensures InLittleEndian(Reverse(bs), BigEndian) == InLittleEndian(bs, LittleEndian)
  {
    ReverseReverse(bs);
  }
}
