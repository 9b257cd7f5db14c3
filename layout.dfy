/**
 * Row-major grid geometry shared by the terrain renderer's Image: pixel
 * (x, y) of a grid `width` pixels wide is the `width * y + x`-th pixel, and
 * a width × height grid has `width * height` pixels.
 *
 * Products of two variables are written with Mul, which is defined by
 * repeated addition. The solver then treats them as plain terms, and the
 * arithmetic facts about them are proved once, in the lemmas below.
 */
module Layout {

  /** An unsigned 8-bit value (`u8` / `unsigned char`). */
  type byte = b: int | 0 <= b < 256

  /** a * b. */
  function Mul(a: nat, b: nat): nat
  {
    if b == 0 then 0 else Mul(a, b - 1) + a
  }

  lemma {:induction false} MulIsProduct(a: nat, b: nat)
    ensures Mul(a, b) == a * b
  {
    if b > 0 {
      MulIsProduct(a, b - 1);
      assert a * b == a * (b - 1) + a;
    }
  }

  lemma {:induction false} MulMonoLeft(a: nat, b: nat, c: nat)
    requires a <= b
    ensures Mul(a, c) <= Mul(b, c)
  {
    if c > 0 {
      MulMonoLeft(a, b, c - 1);
    }
  }

  lemma {:induction false} MulMonoRight(a: nat, b: nat, c: nat)
    requires b <= c
    ensures Mul(a, b) <= Mul(a, c)
    decreases c - b
  {
    if b < c {
      MulMonoRight(a, b, c - 1);
    }
  }

  lemma {:induction false} MulOneLeft(b: nat)
    ensures Mul(1, b) == b
  {
    if b > 0 {
      MulOneLeft(b - 1);
    }
  }

  /** Row-major index of pixel (x, y): `width * y + x`. */
  function Index(width: nat, x: nat, y: nat): nat
  {
    Mul(width, y) + x
  }

  /** Every pixel of a width × height grid has an index below width * height. */
  lemma IndexFits(width: nat, height: nat, x: nat, y: nat)
    requires x < width && y < height
    ensures Index(width, x, y) < Mul(width, height)
  {
    MulMonoRight(width, y + 1, height);
  }

  /** Pixels earlier in row-major order have smaller indices. */
  lemma IndexBefore(width: nat, x1: nat, y1: nat, x2: nat, y2: nat)
    requires x1 < width && x2 < width && (y1 < y2 || (y1 == y2 && x1 < x2))
    ensures Index(width, x1, y1) < Index(width, x2, y2)
  {
    if y1 < y2 {
      MulMonoRight(width, y1 + 1, y2);
    }
  }

  /** Distinct pixels of a grid have distinct indices. */
  lemma IndexInjective(width: nat, x1: nat, y1: nat, x2: nat, y2: nat)
    requires x1 < width && x2 < width && (x1, y1) != (x2, y2)
    ensures Index(width, x1, y1) != Index(width, x2, y2)
  {
    if y1 < y2 || (y1 == y2 && x1 < x2) {
      IndexBefore(width, x1, y1, x2, y2);
    } else {
      IndexBefore(width, x2, y2, x1, y1);
    }
  }

  /** A grid at least one pixel wide has at least as many pixels as rows. */
  lemma HeightWithinArea(width: nat, height: nat)
    requires width >= 1
    ensures height <= Mul(width, height)
  {
    MulOneLeft(height);
    MulMonoLeft(1, width, height);
  }
}
