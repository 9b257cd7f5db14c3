/**
 * `draw_vertical_line` from terrain/src/main.rs: paints one column of an
 * RGB image from a given row down to the bottom edge. The terrain renderer
 * calls it once per screen column with the row its floating-point
 * projection lands on, truncated to an `i32`.
 *
 * The row arrives as an `i32` and is cast to `usize` before it bounds the
 * loop. The renderer targets a 32-bit machine, so the cast keeps the value
 * modulo 2^32: a negative row becomes a start row of at least 2^31, past
 * the bottom of any image whose data fits in memory, and nothing is drawn.
 */
module Terrain {
  import opened Layout
  import opened Pixels
  import opened Images

  const I32_MIN := -0x8000_0000
  const I32_MAX := 0x7FFF_FFFF
  const USIZE_MODULUS := 0x1_0000_0000

  /** `v as usize` for an `i32` v on a 32-bit target: v taken modulo 2^32. */
  function AsUsize(v: int): (u: nat)
    requires I32_MIN <= v <= I32_MAX
    ensures u < USIZE_MODULUS && (u - v) % USIZE_MODULUS == 0
    ensures v >= 0 ==> u == v
    ensures v < 0 ==> u > I32_MAX
  {
    if v < 0 then v + USIZE_MODULUS else v
  }

  /**
   * A negative row, once cast, starts below the last row of an image that
   * is at least one pixel wide, so the range it opens is empty.
   */
  lemma NegativeRowDrawsNothing(dest: Image, height: int)
    requires dest.Shaped(RGB) && dest.width >= 1
    requires I32_MIN <= height < 0
    ensures AsUsize(height) >= dest.height
  {
    HeightWithinSize(dest.width, dest.height, RGB);
  }

  /**
   * `draw_vertical_line(dest, x, height, c)`: column x of dest reads c on
   * every row from `height as usize` down, and every other pixel reads as
   * before. When that start row is at or past the bottom edge, which a
   * negative height always is, not one byte changes.
   */
  method DrawVerticalLine(dest: Image, x: int, height: int, c: Pixel)
    requires dest.Shaped(RGB) && FormatOf(c) == RGB
    requires 0 <= x < dest.width && I32_MIN <= height <= I32_MAX
    modifies dest.data
    ensures forall x': nat, y': nat :: x' < dest.width && y' < dest.height ==>
              dest.GetPixel(RGB, x', y')
              == if x' == x && AsUsize(height) <= y' then c
                 else PixelAt(old(dest.data[..]), dest.width, dest.height, RGB, x', y')
    ensures AsUsize(height) >= dest.height ==> dest.data[..] == old(dest.data[..])
  {
    ghost var before := dest.data[..];
    var start := AsUsize(height);
    var y := start;
    while y < dest.height
      invariant start <= y && (start < dest.height ==> y <= dest.height)
      invariant start >= dest.height ==> dest.data[..] == before
      invariant forall x': nat, y': nat :: x' < dest.width && y' < dest.height ==>
                  PixelAt(dest.data[..], dest.width, dest.height, RGB, x', y')
                  == if x' == x && start <= y' < y then c
                     else PixelAt(before, dest.width, dest.height, RGB, x', y')
      decreases dest.height - y
    {
      dest.SetPixel(RGB, x, y, c);
      y := y + 1;
    }
  }
}
