/**
 * `Image` from terrain/src/main.rs: a width × height grid stored as one
 * row-major, channel-interleaved byte vector. The vector is allocated once
 * and never resized, so it is a fixed array here; width, height and the
 * array itself are never reassigned, so they are constants and every
 * operation changes only the array's contents.
 *
 * An Image carries no pixel type of its own: each access names the Format
 * it is made at, as each Rust call names its `P: Pixel`.
 */
module Images {
  import opened Layout
  import opened Pixels

  /** Largest allocation a Rust `Vec` may hold on the 32-bit target (`isize::MAX`). */
  const ISIZE_MAX := 0x7FFF_FFFF

  class Image {
    const width: nat
    const height: nat
    const data: array<byte>

    /** The vector holds exactly width × height pixels of format f. */
    predicate Shaped(f: Format)
    {
      data.Length == Size(width, height, f) && data.Length <= ISIZE_MAX
    }

    /** `Image::new::<P>`: a zero-filled image of w × h pixels of format f. */
    constructor (f: Format, w: nat, h: nat)
      requires Size(w, h, f) <= ISIZE_MAX
      ensures width == w && height == h && Shaped(f) && fresh(data)
      ensures forall i :: 0 <= i < data.Length ==> data[i] == 0
      ensures forall x: nat, y: nat :: x < w && y < h ==> GetPixel(f, x, y) == Zero(f)
    {
      width, height := w, h;
      data := new byte[Size(w, h, f)](_ => 0);
      new;
      forall x: nat, y: nat | x < w && y < h
        ensures GetPixel(f, x, y) == Zero(f)
      {
        PixelBytes(data[..], width, height, f, x, y);
        EncodeInjective(GetPixel(f, x, y), Zero(f));
      }
    }

    /** `get_pixel::<P>`: the pixel whose bytes sit at (x, y)'s offset. */
    function GetPixel(f: Format, x: nat, y: nat): (p: Pixel)
      requires Shaped(f) && x < width && y < height
      reads data
      ensures FormatOf(p) == f
    {
      PixelAt(data[..], width, height, f, x, y)
    }

    /**
     * `set_pixel::<P>`: writes c's bytes at (x, y)'s offset, so (x, y) now
     * reads back as c and every other pixel reads back as before.
     */
    method SetPixel(f: Format, x: nat, y: nat, c: Pixel)
      requires Shaped(f) && x < width && y < height && FormatOf(c) == f
      modifies data
      ensures Offset(width, f, x, y) + Bytes(f) <= data.Length
      ensures data[..] == Write(c, old(data[..]), Offset(width, f, x, y))
      ensures GetPixel(f, x, y) == c
      ensures forall x': nat, y': nat :: x' < width && y' < height && (x', y') != (x, y) ==>
                GetPixel(f, x', y') == PixelAt(old(data[..]), width, height, f, x', y')
    {
      var offset := Offset(width, f, x, y);
      OffsetFits(width, height, f, x, y);
      ghost var before := data[..];
      WriteBytes(c, data, offset);
      WriteSame(before, width, height, f, x, y, c);
      forall x': nat, y': nat | x' < width && y' < height && (x', y') != (x, y)
        ensures PixelAt(data[..], width, height, f, x', y') == PixelAt(before, width, height, f, x', y')
      {
        WriteOther(before, width, height, f, x, y, c, x', y');
      }
    }

    /**
     * `draw::<P>`: copies the w × h rectangle at (sx, sy) of src to (dx, dy)
     * of this image, row by row, so that each pixel of the destination
     * rectangle reads back as the matching source pixel and every other
     * pixel as before. src is a different image (the Rust borrow rules
     * forbid `img` to alias `self`) and is left as it was.
     */
    method Draw(f: Format, src: Image, sx: nat, sy: nat, w: nat, h: nat, dx: nat, dy: nat)
      requires Shaped(f) && src.Shaped(f) && src.data != data
      requires sx + w <= src.width && sy + h <= src.height
      requires dx + w <= width && dy + h <= height
      modifies data
      ensures forall x: nat, y: nat :: dx <= x < dx + w && dy <= y < dy + h ==>
                GetPixel(f, x, y) == src.GetPixel(f, sx + (x - dx), sy + (y - dy))
      ensures forall x: nat, y: nat :: x < width && y < height && !(dx <= x < dx + w && dy <= y < dy + h) ==>
                GetPixel(f, x, y) == PixelAt(old(data[..]), width, height, f, x, y)
      ensures unchanged(src.data)
    {
      ghost var before, from := data[..], src.data[..];
      var r := Rect(sx, sy, w, h, dx, dy);
      for y := 0 to h
        invariant forall x': nat, y': nat :: x' < width && y' < height ==>
                    PixelAt(data[..], width, height, f, x', y')
                    == Drawn(before, from, f, width, height, src.width, src.height, r, y, 0, x', y')
      {
        for x := 0 to w
          invariant forall x': nat, y': nat :: x' < width && y' < height ==>
                      PixelAt(data[..], width, height, f, x', y')
                      == Drawn(before, from, f, width, height, src.width, src.height, r, y, x, x', y')
        {
          ghost var pre := data[..];
          var c := src.GetPixel(f, r.sx + x, r.sy + y);
          SetPixel(f, r.dx + x, r.dy + y, c);
          DrawnAdvance(before, from, f, width, height, src.width, src.height, r, y, x, pre, data[..]);
        }
        DrawnNextRow(before, from, f, width, height, src.width, src.height, r, y, data[..]);
      }
    }
  }

  /** The pixel of format f at (x, y) of a width × height byte vector. */
  function PixelAt(bytes: seq<byte>, width: nat, height: nat, f: Format, x: nat, y: nat): (p: Pixel)
    requires |bytes| == Size(width, height, f) && x < width && y < height
    ensures FormatOf(p) == f
  {
    OffsetFits(width, height, f, x, y);
    FromBytes(f, bytes[Offset(width, f, x, y)..])
  }

  /** The pixel at (x, y) is the one encoded by the Bytes(f) bytes at its offset. */
  lemma PixelBytes(bytes: seq<byte>, width: nat, height: nat, f: Format, x: nat, y: nat)
    requires |bytes| == Size(width, height, f) && x < width && y < height
    ensures Offset(width, f, x, y) + Bytes(f) <= |bytes|
    ensures Encode(PixelAt(bytes, width, height, f, x, y))
         == bytes[Offset(width, f, x, y)..Offset(width, f, x, y) + Bytes(f)]
  {
    var o := Offset(width, f, x, y);
    OffsetFits(width, height, f, x, y);
    FromBytesReads(f, bytes[o..]);
    assert bytes[o..][..Bytes(f)] == bytes[o..o + Bytes(f)];
  }

  /** Writing c over pixel (x, y) makes (x, y) read back as c. */
  lemma WriteSame(bytes: seq<byte>, width: nat, height: nat, f: Format, x: nat, y: nat, c: Pixel)
    requires |bytes| == Size(width, height, f) && x < width && y < height && FormatOf(c) == f
    ensures Offset(width, f, x, y) + Bytes(f) <= |bytes|
    ensures PixelAt(Write(c, bytes, Offset(width, f, x, y)), width, height, f, x, y) == c
  {
    OffsetFits(width, height, f, x, y);
    WriteThenRead(c, bytes, Offset(width, f, x, y));
  }

  /** Writing c over pixel (x, y) leaves any other pixel (x', y') reading back as before. */
  lemma WriteOther(bytes: seq<byte>, width: nat, height: nat, f: Format, x: nat, y: nat, c: Pixel,
                   x': nat, y': nat)
    requires |bytes| == Size(width, height, f) && x < width && y < height && FormatOf(c) == f
    requires x' < width && y' < height && (x', y') != (x, y)
    ensures Offset(width, f, x, y) + Bytes(f) <= |bytes|
    ensures PixelAt(Write(c, bytes, Offset(width, f, x, y)), width, height, f, x', y')
         == PixelAt(bytes, width, height, f, x', y')
  {
    var n := Bytes(f);
    var o, o' := Offset(width, f, x, y), Offset(width, f, x', y');
    OffsetFits(width, height, f, x, y);
    OffsetFits(width, height, f, x', y');
    OffsetsApart(width, f, x, y, x', y');
    var after := Write(c, bytes, o);
    forall i | o' <= i < o' + n
      ensures after[i] == bytes[i]
    {
      WriteElsewhere(c, bytes, o, i);
    }
  }

  /** Where a `draw` call copies from and to: a w × h rectangle from (sx, sy) to (dx, dy). */
  datatype Rect = Rect(sx: nat, sy: nat, w: nat, h: nat, dx: nat, dy: nat)

  /** Both ends of the rectangle lie inside their images. */
  predicate Fits(r: Rect, width: nat, height: nat, srcWidth: nat, srcHeight: nat)
  {
    r.sx + r.w <= srcWidth && r.sy + r.h <= srcHeight && r.dx + r.w <= width && r.dy + r.h <= height
  }

  /**
   * Whether (x, y) of the destination has been written once `draw` has
   * copied `rows` full rows of the rectangle and `cols` pixels of the next.
   */
  predicate Visited(r: Rect, rows: nat, cols: nat, x: nat, y: nat)
  {
    r.dx <= x < r.dx + r.w && r.dy <= y < r.dy + r.h
    && (y < r.dy + rows || (y == r.dy + rows && x < r.dx + cols))
  }

  /**
   * What pixel (x, y) of the destination reads once `draw` has copied
   * `rows` full rows and `cols` pixels of the next: the source pixel it was
   * copied from if it has been visited, its old value otherwise.
   */
  function Drawn(before: seq<byte>, from: seq<byte>, f: Format,
                 width: nat, height: nat, srcWidth: nat, srcHeight: nat,
                 r: Rect, rows: nat, cols: nat, x: nat, y: nat): Pixel
    requires |before| == Size(width, height, f)
    requires |from| == Size(srcWidth, srcHeight, f)
    requires Fits(r, width, height, srcWidth, srcHeight)
    requires x < width && y < height
  {
    if Visited(r, rows, cols, x, y)
    then PixelAt(from, srcWidth, srcHeight, f, r.sx + (x - r.dx), r.sy + (y - r.dy))
    else PixelAt(before, width, height, f, x, y)
  }

  /**
   * Copying step (rows, k) moves one pixel of the destination from its old
   * value to its source pixel and leaves what every other pixel reads alone.
   */
  lemma DrawnStep(before: seq<byte>, from: seq<byte>, f: Format,
                  width: nat, height: nat, srcWidth: nat, srcHeight: nat,
                  r: Rect, rows: nat, k: nat, x: nat, y: nat, prev: seq<byte>)
    requires |before| == Size(width, height, f) && |prev| == |before|
    requires |from| == Size(srcWidth, srcHeight, f)
    requires Fits(r, width, height, srcWidth, srcHeight)
    requires rows < r.h && k < r.w && x < width && y < height
    requires PixelAt(prev, width, height, f, x, y)
          == Drawn(before, from, f, width, height, srcWidth, srcHeight, r, rows, k, x, y)
    requires Offset(width, f, r.dx + k, r.dy + rows) + Bytes(f) <= |prev|
    ensures PixelAt(Write(PixelAt(from, srcWidth, srcHeight, f, r.sx + k, r.sy + rows), prev,
                          Offset(width, f, r.dx + k, r.dy + rows)), width, height, f, x, y)
         == Drawn(before, from, f, width, height, srcWidth, srcHeight, r, rows, k + 1, x, y)
  {
    var c := PixelAt(from, srcWidth, srcHeight, f, r.sx + k, r.sy + rows);
    if (x, y) == (r.dx + k, r.dy + rows) {
      WriteSame(prev, width, height, f, x, y, c);
      assert Visited(r, rows, k + 1, x, y);
    } else {
      WriteOther(prev, width, height, f, r.dx + k, r.dy + rows, c, x, y);
      assert Visited(r, rows, k + 1, x, y) == Visited(r, rows, k, x, y);
    }
  }

  /** Copying step (rows, k) of a blit advances what every destination pixel reads to step (rows, k + 1). */
  lemma DrawnAdvance(before: seq<byte>, from: seq<byte>, f: Format,
                     width: nat, height: nat, srcWidth: nat, srcHeight: nat,
                     r: Rect, rows: nat, k: nat, prev: seq<byte>, next: seq<byte>)
    requires |before| == Size(width, height, f) && |prev| == |before|
    requires |from| == Size(srcWidth, srcHeight, f)
    requires Fits(r, width, height, srcWidth, srcHeight) && rows < r.h && k < r.w
    requires forall x: nat, y: nat :: x < width && y < height ==>
               PixelAt(prev, width, height, f, x, y)
               == Drawn(before, from, f, width, height, srcWidth, srcHeight, r, rows, k, x, y)
    requires Offset(width, f, r.dx + k, r.dy + rows) + Bytes(f) <= |prev|
    requires next == Write(PixelAt(from, srcWidth, srcHeight, f, r.sx + k, r.sy + rows), prev,
                           Offset(width, f, r.dx + k, r.dy + rows))
    ensures forall x: nat, y: nat :: x < width && y < height ==>
              PixelAt(next, width, height, f, x, y)
              == Drawn(before, from, f, width, height, srcWidth, srcHeight, r, rows, k + 1, x, y)
  {
    forall x: nat, y: nat | x < width && y < height
      ensures PixelAt(next, width, height, f, x, y)
           == Drawn(before, from, f, width, height, srcWidth, srcHeight, r, rows, k + 1, x, y)
    {
      DrawnStep(before, from, f, width, height, srcWidth, srcHeight, r, rows, k, x, y, prev);
    }
  }

  /** A finished row of a blit is the start of the next one. */
  lemma DrawnNextRow(before: seq<byte>, from: seq<byte>, f: Format,
                     width: nat, height: nat, srcWidth: nat, srcHeight: nat,
                     r: Rect, rows: nat, cur: seq<byte>)
    requires |before| == Size(width, height, f) && |cur| == |before|
    requires |from| == Size(srcWidth, srcHeight, f)
    requires Fits(r, width, height, srcWidth, srcHeight) && rows < r.h
    requires forall x: nat, y: nat :: x < width && y < height ==>
               PixelAt(cur, width, height, f, x, y)
               == Drawn(before, from, f, width, height, srcWidth, srcHeight, r, rows, r.w, x, y)
    ensures forall x: nat, y: nat :: x < width && y < height ==>
              PixelAt(cur, width, height, f, x, y)
              == Drawn(before, from, f, width, height, srcWidth, srcHeight, r, rows + 1, 0, x, y)
  {
    forall x: nat, y: nat | x < width && y < height
      ensures PixelAt(cur, width, height, f, x, y)
           == Drawn(before, from, f, width, height, srcWidth, srcHeight, r, rows + 1, 0, x, y)
    {
      assert Visited(r, rows, r.w, x, y) == Visited(r, rows + 1, 0, x, y);
    }
  }
}
