/** Bytes, fixed-width little-endian integers and the latin-1 text codec. */
module Bytes {

  type byte = b: int | 0 <= b < 256

  function Pow256(n: nat): (p: nat)
    ensures p >= 1
  {
    if n == 0 then 1 else 256 * Pow256(n - 1)
  }

  /** The unsigned integer whose little-endian bytes are `bs` (struct's packed `I`/`Q`). */
  function LittleEndian(bs: seq<byte>): (v: nat)
    ensures v < Pow256(|bs|)
  {
    if bs == [] then 0 else bs[0] + 256 * LittleEndian(bs[1..])
  }

  /** The `n` little-endian bytes of `v`, as `struct.pack` writes them. */
  function ToLittleEndian(v: nat, n: nat): (bs: seq<byte>)
    requires v < Pow256(n)
    ensures |bs| == n
  {
    if n == 0 then [] else [v % 256] + ToLittleEndian(v / 256, n - 1)
  }

  /** Packing a decoded field reproduces its bytes. */
  lemma {:induction false} EncodeDecode(bs: seq<byte>)
    ensures ToLittleEndian(LittleEndian(bs), |bs|) == bs
  {
    if bs != [] {
      var v := LittleEndian(bs);
      var rest := LittleEndian(bs[1..]);
      assert v == bs[0] + 256 * rest;
      assert v % 256 == bs[0] && v / 256 == rest;
      EncodeDecode(bs[1..]);
    }
  }

  /** Unpacking a packed value gives the value back. */
  lemma {:induction false} DecodeEncode(v: nat, n: nat)
    requires v < Pow256(n)
    ensures LittleEndian(ToLittleEndian(v, n)) == v
  {
    if n > 0 {
      var bs := ToLittleEndian(v, n);
      assert bs[1..] == ToLittleEndian(v / 256, n - 1);
      DecodeEncode(v / 256, n - 1);
    }
  }

  /** A field is zero exactly when all of its bytes are. */
  lemma {:induction false} LittleEndianZero(bs: seq<byte>)
    ensures LittleEndian(bs) == 0 <==> forall i :: 0 <= i < |bs| ==> bs[i] == 0
  {
    if bs != [] {
      LittleEndianZero(bs[1..]);
      assert forall i :: 1 <= i < |bs| ==> bs[i] == bs[1..][i - 1];
    }
  }

  const U32Size: nat := 4
  const U64Size: nat := 8

  /** The widths of the `I` and `Q` fields: 2^32 and 2^64. */
  lemma Pow256Widths()
    ensures Pow256(U32Size) == 0x1_0000_0000
    ensures Pow256(U64Size) == 0x1_0000_0000_0000_0000
  {
    assert Pow256(2) == 0x1_0000;
    assert Pow256(4) == 0x1_0000_0000;
    assert Pow256(6) == 0x1_0000_0000_0000;
  }

  /** The native unsigned 32-bit field at `p` (packed, little-endian). */
  function U32At(b: seq<byte>, p: nat): (v: nat)
    requires p + U32Size <= |b|
    ensures v < Pow256(U32Size)
  {
    LittleEndian(b[p..p + U32Size])
  }

  /** The native unsigned 64-bit field at `p` (packed, little-endian). */
  function U64At(b: seq<byte>, p: nat): (v: nat)
    requires p + U64Size <= |b|
    ensures v < Pow256(U64Size)
  {
    LittleEndian(b[p..p + U64Size])
  }

  /** Latin-1 decoding: byte `b` is the character with code `b`. */
  function Latin1Decode(bs: seq<byte>): (s: string)
    ensures |s| == |bs|
    ensures forall i :: 0 <= i < |bs| ==> s[i] as int == bs[i]
  {
    seq(|bs|, i requires 0 <= i < |bs| => bs[i] as char)
  }

  predicate IsLatin1(s: string) {
    forall i :: 0 <= i < |s| ==> s[i] as int < 256
  }

  /** Latin-1 encoding: one byte per character, defined for codes below 256. */
  function Latin1Encode(s: string): (bs: seq<byte>)
    requires IsLatin1(s)
    ensures |bs| == |s|
    ensures forall i :: 0 <= i < |s| ==> bs[i] == s[i] as int
  {
    seq(|s|, i requires 0 <= i < |s| => s[i] as int)
  }

  /** Decoding then encoding is the identity on bytes. */
  lemma Latin1RoundTrip(bs: seq<byte>)
    ensures IsLatin1(Latin1Decode(bs))
    ensures Latin1Encode(Latin1Decode(bs)) == bs
  {
  }
}
