/** Bytes, fixed-width integers and their little-endian byte images, as the
    `Data.append` helpers of fix_wave_header.swift emit them on a
    little-endian host, and the ASCII encoding used for chunk tags. */
module Bytes {

  /** One octet of a file. */
  type Byte = b: int | 0 <= b < 0x100

  /** Swift's `Int16` and `Int32`: signed two's-complement integers. */
  type Int16 = x: int | -0x8000 <= x < 0x8000
  type Int32 = x: int | -0x8000_0000 <= x < 0x8000_0000

  const Int32Max: int := 0x7fff_ffff

  datatype Option<T> = None | Some(value: T)

  /** 256 to the power n: the number of distinct values an n-byte field holds. */
  function Pow256(n: nat): (p: nat)
    ensures p >= 1
  {
    if n == 0 then 1 else 0x100 * Pow256(n - 1)
  }

  /** The unsigned number a byte sequence denotes when read least significant byte first. */
  function LEValue(b: seq<Byte>): (u: nat)
    ensures u < Pow256(|b|)
  {
    if b == [] then 0 else b[0] + 0x100 * LEValue(b[1..])
  }

  /** The `width`-byte little-endian image of an unsigned value that fits in `width` bytes. */
  function UnsignedLE(u: nat, width: nat): (r: seq<Byte>)
    requires u < Pow256(width)
    ensures |r| == width
    ensures LEValue(r) == u
  {
    if width == 0 then []
    else
      var rest := UnsignedLE(u / 0x100, width - 1);
      assert ([u % 0x100] + rest)[1..] == rest;
      [u % 0x100] + rest
  }

  /** Reading bytes as a number and writing that number back with the same width gives the same bytes. */
  lemma {:induction false} UnsignedLEOfValue(b: seq<Byte>)
    ensures UnsignedLE(LEValue(b), |b|) == b
  {
    if b != [] {
      UnsignedLEOfValue(b[1..]);
      assert LEValue(b) / 0x100 == LEValue(b[1..]);
      assert LEValue(b) % 0x100 == b[0];
    }
  }

  /** `Data.append(_: Int16)`: the two bytes of the value's two's-complement image, low byte first. */
  function LE16(v: Int16): (r: seq<Byte>)
    ensures |r| == 2
    ensures LEValue(r) == v % 0x1_0000
  {
    UnsignedLE(v % 0x1_0000, 2)
  }

  /** `Data.append(_: Int32)`: the four bytes of the value's two's-complement image, low byte first. */
  function LE32(v: Int32): (r: seq<Byte>)
    ensures |r| == 4
    ensures LEValue(r) == v % 0x1_0000_0000
  {
    UnsignedLE(v % 0x1_0000_0000, 4)
  }

  /** Reads two little-endian bytes back as a signed 16-bit value. */
  function DecodeLE16(b: seq<Byte>): Int16
    requires |b| == 2
  {
    var u := LEValue(b);
    if u < 0x8000 then u else u - 0x1_0000
  }

  /** Reads four little-endian bytes back as a signed 32-bit value. */
  function DecodeLE32(b: seq<Byte>): Int32
    requires |b| == 4
  {
    var u := LEValue(b);
    if u < 0x8000_0000 then u else u - 0x1_0000_0000
  }

  lemma LE16RoundTrip(v: Int16)
    ensures DecodeLE16(LE16(v)) == v
  {
  }

  lemma LE32RoundTrip(v: Int32)
    ensures DecodeLE32(LE32(v)) == v
  {
  }

  /** Every two-byte field is the image of exactly one `Int16`. */
  lemma LE16OfDecode(b: seq<Byte>)
    requires |b| == 2
    ensures LE16(DecodeLE16(b)) == b
  {
    assert Pow256(2) == 0x1_0000;
    assert DecodeLE16(b) % 0x1_0000 == LEValue(b);
    UnsignedLEOfValue(b);
  }

  /** Every four-byte field is the image of exactly one `Int32`. */
  lemma LE32OfDecode(b: seq<Byte>)
    requires |b| == 4
    ensures LE32(DecodeLE32(b)) == b
  {
    assert Pow256(4) == 0x1_0000_0000;
    assert DecodeLE32(b) % 0x1_0000_0000 == LEValue(b);
    UnsignedLEOfValue(b);
  }

  /** `String.data(using: .ascii)`: one byte per character when every character
      is ASCII, and no data at all otherwise. */
  function Ascii(s: string): (r: Option<seq<Byte>>)
    ensures r.Some? <==> forall i :: 0 <= i < |s| ==> s[i] as int < 0x80
    ensures r.Some? ==> |r.value| == |s| && forall i :: 0 <= i < |s| ==> r.value[i] == s[i] as int
  {
    if s == [] then Some([])
    else if s[0] as int >= 0x80 then None
    else
      match Ascii(s[1..])
      case None => None
      case Some(rest) => Some([s[0] as int] + rest)
  }

  /** `Data(count: n)`: n zero bytes. */
  function Zeros(n: nat): (r: seq<Byte>)
    ensures |r| == n && forall i :: 0 <= i < n ==> r[i] == 0
  {
    seq(n, _ => 0)
  }
}
