/**
 * The drawing routines of pong/pong.cpp. The backbuffer is a raw
 * SCREEN_W × SCREEN_H × 3 byte block laid out like an RGB Image: pixel
 * (x, y) is the three bytes from `y * SCREEN_W * 3 + x * 3` on, red first.
 * `clear` blanks it; `draw_paddle` and `draw_ball` paint solid rectangles
 * into it, row by row, three bytes per pixel.
 */
module PongDraw {
  import opened Layout
  import opened Pixels
  import opened Images
  import opened PongRules

  const BUFFER_LEN := SCREEN_W * SCREEN_H * 3

  const RED := Color(0xFF, 0x00, 0x00)
  const WHITE := Color(0xFF, 0xFF, 0xFF)

  /** The pixel at (x, y) of a backbuffer's bytes. */
  function Screen(bytes: seq<byte>, x: nat, y: nat): (p: Pixel)
    requires |bytes| == BUFFER_LEN && x < SCREEN_W && y < SCREEN_H
    ensures FormatOf(p) == RGB
  {
    PixelAt(bytes, SCREEN_W, SCREEN_H, RGB, x, y)
  }

  /** (x, y) lies in the w × h rectangle whose top-left pixel is (px, py). */
  predicate InRect(px: int, py: int, w: int, h: int, x: int, y: int)
  {
    px <= x < px + w && py <= y < py + h
  }

  /** An all-zero backbuffer shows a black screen. */
  lemma BlankScreen(bytes: seq<byte>)
    requires |bytes| == BUFFER_LEN
    requires forall i :: 0 <= i < |bytes| ==> bytes[i] == 0
    ensures forall x: nat, y: nat :: x < SCREEN_W && y < SCREEN_H ==> Screen(bytes, x, y) == Zero(RGB)
  {
    forall x: nat, y: nat | x < SCREEN_W && y < SCREEN_H
      ensures Screen(bytes, x, y) == Zero(RGB)
    {
      PixelBytes(bytes, SCREEN_W, SCREEN_H, RGB, x, y);
      EncodeInjective(Screen(bytes, x, y), Zero(RGB));
    }
  }

  /** `clear`: every byte of the backbuffer becomes 0. */
  method Clear(buf: array<byte>)
    requires buf.Length == BUFFER_LEN
    modifies buf
    ensures forall i :: 0 <= i < buf.Length ==> buf[i] == 0
  {
    forall i | 0 <= i < buf.Length {
      buf[i] := 0;
    }
  }

  /**
   * Whether (x, y) has been painted once the rectangle loops have finished
   * every row above `row` and the columns left of `col` in row `row`.
   */
  predicate Covered(px: int, py: int, w: int, h: int, row: int, col: int, x: int, y: int)
  {
    InRect(px, py, w, h, x, y) && (y < row || (y == row && x < col))
  }

  /**
   * Painting pixel (col, row) of the rectangle advances what every pixel of
   * the screen reads from one loop position to the next.
   */
  lemma PaintStep(before: seq<byte>, prev: seq<byte>, px: nat, py: nat, w: nat, h: nat, c: Pixel,
                  row: nat, col: nat)
    requires |before| == BUFFER_LEN && |prev| == BUFFER_LEN && FormatOf(c) == RGB
    requires InRect(px, py, w, h, col, row) && px + w <= SCREEN_W && py + h <= SCREEN_H
    requires forall x: nat, y: nat :: x < SCREEN_W && y < SCREEN_H ==>
               Screen(prev, x, y) == if Covered(px, py, w, h, row, col, x, y) then c else Screen(before, x, y)
    requires Offset(SCREEN_W, RGB, col, row) + 3 <= BUFFER_LEN
    ensures forall x: nat, y: nat :: x < SCREEN_W && y < SCREEN_H ==>
              Screen(Write(c, prev, Offset(SCREEN_W, RGB, col, row)), x, y)
              == if Covered(px, py, w, h, row, col + 1, x, y) then c else Screen(before, x, y)
  {
    forall x: nat, y: nat | x < SCREEN_W && y < SCREEN_H
      ensures Screen(Write(c, prev, Offset(SCREEN_W, RGB, col, row)), x, y)
              == if Covered(px, py, w, h, row, col + 1, x, y) then c else Screen(before, x, y)
    {
      if (x, y) == (col, row) {
        WriteSame(prev, SCREEN_W, SCREEN_H, RGB, x, y, c);
      } else {
        WriteOther(prev, SCREEN_W, SCREEN_H, RGB, col, row, c, x, y);
        assert Covered(px, py, w, h, row, col + 1, x, y) == Covered(px, py, w, h, row, col, x, y);
      }
    }
  }

  /**
   * Paints the w × h rectangle at (px, py) with c, as the loops of
   * `draw_paddle` and `draw_ball` do: each pixel of the rectangle reads c
   * afterwards and every other pixel reads as before.
   */
  method Fill(buf: array<byte>, px: nat, py: nat, w: nat, h: nat, c: Pixel)
    requires buf.Length == BUFFER_LEN && FormatOf(c) == RGB
    requires px + w <= SCREEN_W && py + h <= SCREEN_H
    modifies buf
    ensures forall x: nat, y: nat :: x < SCREEN_W && y < SCREEN_H ==>
              Screen(buf[..], x, y) == if InRect(px, py, w, h, x, y) then c else Screen(old(buf[..]), x, y)
  {
    ghost var before := buf[..];
    for y := py to py + h
      invariant forall x': nat, y': nat :: x' < SCREEN_W && y' < SCREEN_H ==>
                  Screen(buf[..], x', y') == if Covered(px, py, w, h, y, px, x', y') then c else Screen(before, x', y')
    {
      for x := px to px + w
        invariant forall x': nat, y': nat :: x' < SCREEN_W && y' < SCREEN_H ==>
                    Screen(buf[..], x', y') == if Covered(px, py, w, h, y, x, x', y') then c else Screen(before, x', y')
      {
        ghost var prev := buf[..];
        var offset := y * SCREEN_W * 3 + x * 3;
        WriteBytes(c, buf, offset);
        PaintStep(before, prev, px, py, w, h, c, y, x);
      }
    }
  }

  /** `draw_paddle`: a red PADDLE_W × PADDLE_H rectangle with its top-left pixel at (px, py). */
  method DrawPaddle(buf: array<byte>, px: nat, py: nat)
    requires buf.Length == BUFFER_LEN
    requires px + PADDLE_W <= SCREEN_W && py + PADDLE_H <= SCREEN_H
    modifies buf
    ensures forall x: nat, y: nat :: x < SCREEN_W && y < SCREEN_H ==>
              Screen(buf[..], x, y)
              == if InRect(px, py, PADDLE_W, PADDLE_H, x, y) then RED else Screen(old(buf[..]), x, y)
  {
    Fill(buf, px, py, PADDLE_W, PADDLE_H, RED);
  }

  /** `draw_ball`: a white BALL_S × BALL_S square with its top-left pixel at (px, py). */
  method DrawBall(buf: array<byte>, px: nat, py: nat)
    requires buf.Length == BUFFER_LEN
    requires px + BALL_S <= SCREEN_W && py + BALL_S <= SCREEN_H
    modifies buf
    ensures forall x: nat, y: nat :: x < SCREEN_W && y < SCREEN_H ==>
              Screen(buf[..], x, y)
              == if InRect(px, py, BALL_S, BALL_S, x, y) then WHITE else Screen(old(buf[..]), x, y)
  {
    Fill(buf, px, py, BALL_S, BALL_S, WHITE);
  }
}
