/**
 * The terrain renderer's two pixel types (the `Pixel` impls for `RGB`
 * and `u8` in terrain/src/main.rs): how many bytes each occupies, how it
 * is written into a byte slice and how it is read back.
 */
module Pixels {
  import opened Layout

  /** Which `Pixel` type an access is made at: three-byte colour or one byte. */
  datatype Format = RGB | U8

  /** A pixel value: an `RGB` struct or a bare `u8`. */
  datatype Pixel = Color(r: byte, g: byte, b: byte) | Scalar(v: byte)

  function FormatOf(p: Pixel): Format
  {
    match p
    case Color(_, _, _) => RGB
    case Scalar(_) => U8
  }

  /** `Pixel::bytes()`. */
  function Bytes(f: Format): (n: nat)
    ensures 1 <= n <= 3
  {
    match f
    case RGB => 3
    case U8 => 1
  }

  /** i pixels' worth of bytes: `i * P::bytes()`. */
  function Scale(f: Format, i: nat): nat
  {
    match f
    case RGB => 3 * i
    case U8 => i
  }

  /**
   * Byte offset of pixel (x, y): the source's `width * y * P::bytes() +
   * x * P::bytes()`, computed through Index so that proofs about it stay
   * linear.
   */
  function Offset(width: nat, f: Format, x: nat, y: nat): (o: nat)
    ensures o == width * y * Bytes(f) + x * Bytes(f)
  {
    MulIsProduct(width, y);
    Scale(f, Index(width, x, y))
  }

  /** Bytes in a width × height buffer of format f: the source's `width * height * P::bytes()`. */
  function Size(width: nat, height: nat, f: Format): (s: nat)
    ensures s == width * height * Bytes(f)
  {
    MulIsProduct(width, height);
    Scale(f, Mul(width, height))
  }

  /**
   * A pixel inside a width × height grid lies wholly inside a buffer of
   * Size(width, height, f) bytes, so every access to it is in bounds.
   */
  lemma OffsetFits(width: nat, height: nat, f: Format, x: nat, y: nat)
    requires x < width && y < height
    ensures Offset(width, f, x, y) + Bytes(f) <= Size(width, height, f)
  {
    IndexFits(width, height, x, y);
  }

  /**
   * Two distinct pixels of the same grid occupy disjoint byte ranges:
   * writing one never touches the other.
   */
  lemma OffsetsApart(width: nat, f: Format, x1: nat, y1: nat, x2: nat, y2: nat)
    requires x1 < width && x2 < width && (x1, y1) != (x2, y2)
    ensures Offset(width, f, x1, y1) + Bytes(f) <= Offset(width, f, x2, y2)
         || Offset(width, f, x2, y2) + Bytes(f) <= Offset(width, f, x1, y1)
  {
    IndexInjective(width, x1, y1, x2, y2);
  }

  /** In a grid at least one pixel wide, the height is at most the byte count. */
  lemma HeightWithinSize(width: nat, height: nat, f: Format)
    requires width >= 1
    ensures height <= Size(width, height, f)
  {
    HeightWithinArea(width, height);
  }

  /** The all-zero pixel of a format, what a freshly allocated image holds. */
  function Zero(f: Format): (p: Pixel)
    ensures FormatOf(p) == f
    ensures forall i :: 0 <= i < |Encode(p)| ==> Encode(p)[i] == 0
  {
    match f
    case RGB => Color(0, 0, 0)
    case U8 => Scalar(0)
  }

  /** The bytes `write_bytes` stores for p, in slice order. */
  function Encode(p: Pixel): (s: seq<byte>)
    ensures |s| == Bytes(FormatOf(p))
  {
    match p
    case Color(r, g, b) => [r, g, b]
    case Scalar(v) => [v]
  }

  /**
   * `from_bytes`: reads a pixel of format f from the head of a slice,
   * one channel per byte.
   */
  function FromBytes(f: Format, bytes: seq<byte>): (p: Pixel)
    requires |bytes| >= Bytes(f)
    ensures FormatOf(p) == f
  {
    match f
    case RGB => Color(bytes[0], bytes[1], bytes[2])
    case U8 => Scalar(bytes[0])
  }

  /** The pixel `from_bytes` returns is the one encoded by the first Bytes(f) bytes. */
  lemma FromBytesReads(f: Format, bytes: seq<byte>)
    requires |bytes| >= Bytes(f)
    ensures Encode(FromBytes(f, bytes)) == bytes[..Bytes(f)]
  {
    var p := FromBytes(f, bytes);
    match f
    case RGB =>
      assert Encode(p) == [bytes[0], bytes[1], bytes[2]];
    case U8 =>
      assert Encode(p) == [bytes[0]];
  }

  /** Reading back an encoding returns the pixel, whatever follows it. */
  lemma FromBytesEncode(p: Pixel, rest: seq<byte>)
    ensures FromBytes(FormatOf(p), Encode(p) + rest) == p
  {
  }

  /** Two pixels of one format with the same bytes are the same pixel. */
  lemma EncodeInjective(p: Pixel, q: Pixel)
    requires FormatOf(p) == FormatOf(q) && Encode(p) == Encode(q)
    ensures p == q
  {
    FromBytesEncode(p, []);
    FromBytesEncode(q, []);
    assert Encode(p) + [] == Encode(q) + [];
  }

  /**
   * The slice `bytes[at..]` after `write_bytes`: p's channels stored at
   * at, at + 1, ..., one byte each.
   */
  function Write(p: Pixel, bytes: seq<byte>, at: nat): (s: seq<byte>)
    requires at + Bytes(FormatOf(p)) <= |bytes|
    ensures |s| == |bytes|
  {
    match p
    case Color(r, g, b) => bytes[at := r][at + 1 := g][at + 2 := b]
    case Scalar(v) => bytes[at := v]
  }

  /** `write_bytes` then `from_bytes` on the same slice returns the pixel written. */
  lemma WriteThenRead(p: Pixel, bytes: seq<byte>, at: nat)
    requires at + Bytes(FormatOf(p)) <= |bytes|
    ensures FromBytes(FormatOf(p), Write(p, bytes, at)[at..]) == p
  {
  }

  /** The bytes `write_bytes` stores are exactly p's encoding. */
  lemma WriteEncodes(p: Pixel, bytes: seq<byte>, at: nat)
    requires at + Bytes(FormatOf(p)) <= |bytes|
    ensures Write(p, bytes, at)[at..at + Bytes(FormatOf(p))] == Encode(p)
  {
    var s := Write(p, bytes, at);
    match p
    case Color(r, g, b) =>
      assert s[at..at + 3] == [s[at], s[at + 1], s[at + 2]];
    case Scalar(v) =>
      assert s[at..at + 1] == [s[at]];
  }

  /** `write_bytes` leaves every byte outside its Bytes(f) positions alone. */
  lemma WriteElsewhere(p: Pixel, bytes: seq<byte>, at: nat, i: nat)
    requires at + Bytes(FormatOf(p)) <= |bytes|
    requires i < |bytes| && (i < at || at + Bytes(FormatOf(p)) <= i)
    ensures Write(p, bytes, at)[i] == bytes[i]
  {
  }

  /** `write_bytes` on the slice `dest[at..]`. */
  method WriteBytes(p: Pixel, dest: array<byte>, at: nat)
    requires at + Bytes(FormatOf(p)) <= dest.Length
    modifies dest
    ensures dest[..] == Write(p, old(dest[..]), at)
  {
    match p
    case Color(r, g, b) =>
      dest[at] := r;
      dest[at + 1] := g;
      dest[at + 2] := b;
    case Scalar(v) =>
      dest[at] := v;
  }
}
