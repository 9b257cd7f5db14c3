# Terrain pixel buffer and Pong game state, in Dafny

This project models two small programs that draw to an 800 × 480 RGB
framebuffer. It proves what their integer cores do.

**The terrain renderer's pixel layer (terrain/src/main.rs).**
- `Image` is a width × height grid stored as one row-major, channel-interleaved
  byte vector. Pixel (x, y) of a `P: Pixel` image is the `P::bytes()` bytes from
  offset `width * y * P::bytes() + x * P::bytes()` on.
- The two pixel types are the three-byte `RGB` and the one-byte `u8`. Each
  converts to and from a byte slice (`from_bytes`, `write_bytes`).
- `Image::new` allocates a zero-filled image. `get_pixel` and `set_pixel` read
  and write one pixel at its offset. `draw` copies a rectangle of another image
  pixel by pixel.
- `draw_vertical_line` paints one column from a row given as an `i32` down to
  the bottom edge.

How the model represents this:
- The image is a class with constant `width`, `height` and `data` fields. Its
  methods change only the array's contents.
- Each access names its pixel `Format`, as each Rust call names its `P`.
- Every operation is specified at the level of pixels. A pixel reads back as
  what was written, and every other pixel reads back as before.

**The Pong game (pong/pong.cpp).**
- The game's globals are the fields of a `Game` object: paddles, ball, velocity
  and the `done` flag. The multitouch state that `handle_input` keeps between
  events is a `TouchPad` object: the current slot, the pending x, y and active
  values, and the three per-slot arrays.
- The input and ball operations are proved against pure specifications in
  `PongRules`: `Feed` is the effect of one input event, `Steer` the paddle
  update and `Deflect` the bounce off a paddle.
- `PongGame` defines `PlayOk`, the on-screen, constant-speed invariant that
  every operation keeps, and `Scene`, the frame a game state should show.
- `clear`, `draw_paddle` and `draw_ball` write the backbuffer, which has the
  same layout as an RGB `Image`. They are proved pixel by pixel against
  `PongDraw.Screen`, the pixel a backbuffer shows at (x, y), and `InRect`.
  A whole `tick` leaves the backbuffer showing exactly `Scene` of the new
  state: the white ball over the red paddles over black.

Behaviour of the code as written that the model keeps:
- `imax` returns the smaller of its arguments and `imin` the larger.
  `imax(imin(v, lo), hi)` is therefore a clamp.
- The event's `type` is never examined; only its `code` and `value` are.
- A tracking id of 0 counts as a finger lifting. Only ids above 0 count as a
  finger going down.
- A touch row is clamped to [0, 430] before half a paddle (25) is taken off it.
  A touch therefore moves a paddle's top edge no lower than row 405
  (`PongRules.TouchReach`).
- The ball's x velocity is checked against both paddles every frame. When the
  ball leaves the screen sideways, it stops at the edge and the rally ends;
  `ball_y` is not moved in that frame.

`draw_terrain` is not modelled (see below). As written, it paints depth slices
from far to near over each column, with no per-column occlusion bookkeeping, so
nearer slices simply overwrite farther ones: a column is painted from the
projected row to the bottom every time.

## Model

| member | source | states |
|---|---|---|
| `Pixels.Bytes` | terrain/src/main.rs:24-26 | `P::bytes()` is between 1 and 3: every pixel occupies at least one byte (3 for RGB, 1 for u8, as `Encode` shows). |
| `Pixels.Offset` | terrain/src/main.rs:98 | The offset of pixel (x, y) equals the Rust expression `width * y * P::bytes() + x * P::bytes()`, also at line 108. |
| `Pixels.Size` | terrain/src/main.rs:68 | The buffer size equals `width * height * P::bytes()`. |
| `Pixels.OffsetFits` | terrain/src/main.rs:97-100 | For x < width and y < height, all P::bytes() bytes of pixel (x, y) lie inside a buffer of `width * height * P::bytes()` bytes, so every access stays in bounds. |
| `Pixels.OffsetsApart` | terrain/src/main.rs:107-110 | Two distinct pixels of one grid occupy disjoint byte ranges. |
| `Pixels.HeightWithinSize` | terrain/src/main.rs:64-70 | An image at least one pixel wide has no more rows than bytes. |
| `Pixels.Zero` | terrain/src/main.rs:68 | The pixel a zero-filled vector holds has the requested format, and every byte of its encoding is 0. |
| `Pixels.Encode` | terrain/src/main.rs:36-54 | `write_bytes` stores exactly `P::bytes()` bytes: 3 for RGB, 1 for u8. |
| `Pixels.FromBytes` | terrain/src/main.rs:28-50 | `from_bytes` yields a pixel of the requested type. |
| `Pixels.FromBytesReads` | terrain/src/main.rs:28-50 | `from_bytes` reads exactly the first `P::bytes()` bytes: the pixel it returns encodes to that prefix. |
| `Pixels.FromBytesEncode` | terrain/src/main.rs:28-54 | Reading back any pixel's encoding returns that pixel, whatever bytes follow. |
| `Pixels.EncodeInjective` | terrain/src/main.rs:36-54 | Distinct pixels of one type have distinct encodings. |
| `Pixels.Write` | terrain/src/main.rs:36-54 | Writing a pixel's bytes into a slice keeps its length. |
| `Pixels.WriteThenRead` | terrain/src/main.rs:28-54 | `write_bytes` followed by `from_bytes` at the same place returns the pixel written, for RGB and for u8. |
| `Pixels.WriteEncodes` | terrain/src/main.rs:36-54 | After `write_bytes`, the `P::bytes()` bytes at the offset are exactly the pixel's encoding. |
| `Pixels.WriteElsewhere` | terrain/src/main.rs:36-54 | `write_bytes` changes no byte outside its `P::bytes()` positions. |
| `Pixels.WriteBytes` | terrain/src/main.rs:36-54 | The in-place array write produces exactly `Write` of the old contents. |
| `Images.Image.constructor` | terrain/src/main.rs:64-70 | The new image has the given width and height and a data vector of `w * h * P::bytes()` bytes, all 0. Every pixel reads as the zero pixel. |
| `Images.Image.GetPixel` | terrain/src/main.rs:97-100 | `get_pixel` returns a pixel of the requested type. It is `PixelAt` of the data, whose bytes `PixelBytes` identifies. |
| `Images.Image.SetPixel` | terrain/src/main.rs:107-110 | The write stays in bounds and the bytes become `Write` of the old bytes at the offset. (x, y) then reads back as c, and every other pixel reads back as before. |
| `Images.Image.Draw` | terrain/src/main.rs:112-120 | Each destination pixel (dx + x, dy + y) with x < w, y < h reads back as source pixel (sx + x, sy + y). Every other destination pixel reads back as before, and the source image is unchanged. |
| `Images.PixelAt` | terrain/src/main.rs:97-100 | The pixel at (x, y) of a byte vector has the requested format. |
| `Images.PixelBytes` | terrain/src/main.rs:97-100 | The pixel at (x, y) is the one encoded by the `P::bytes()` bytes at its offset, and those bytes are in bounds. |
| `Images.WriteSame` | terrain/src/main.rs:97-110 | `set_pixel(x, y, c)` followed by `get_pixel(x, y)` returns c. |
| `Images.WriteOther` | terrain/src/main.rs:97-110 | `set_pixel(x, y, c)` leaves every other pixel (x', y') reading as before. |
| `Images.DrawnStep` | terrain/src/main.rs:117 | One copy step of `draw` turns one destination pixel into its source pixel and leaves what every other pixel reads unchanged. |
| `Images.DrawnAdvance` | terrain/src/main.rs:116-118 | After copy step (row, k), every destination pixel reads as the partial copy says at (row, k + 1). |
| `Images.DrawnNextRow` | terrain/src/main.rs:115-119 | Finishing a row of `draw` is the same as starting the next row. |
| `Terrain.AsUsize` | terrain/src/main.rs:155 | `height as usize` on a 32-bit target keeps the value modulo 2^32. Non-negative values are unchanged, and negative ones land above `i32::MAX`. |
| `Terrain.NegativeRowDrawsNothing` | terrain/src/main.rs:155 | In an image at least one pixel wide, a negative row casts to a start at or past the bottom edge, so the loop range is empty. |
| `Terrain.DrawVerticalLine` | terrain/src/main.rs:154-158 | Exactly the pixels (x, y) with `height as usize <= y < dest.height` become c, and all others read as before. When the start is at or past the bottom (always so for a negative height), no byte changes. |
| `PongRules.IMax` | pong/pong.cpp:37-39 | `imax` returns one of its arguments, and that argument is not larger than the other: the minimum. |
| `PongRules.IMin` | pong/pong.cpp:41-43 | `imin` returns one of its arguments, and that argument is not smaller than the other: the maximum. |
| `PongRules.ClampIdiom` | pong/pong.cpp:119-121 | `imax(imin(v, lo), hi)` lies in [lo, hi]. It equals v inside the range and the nearer end outside it: touch x lands in [0, 800] and touch y in [0, 430]. |
| `PongRules.ClampIdiomSwapped` | pong/pong.cpp:135-137 | The paddle update's `imax(hi, imin(lo, v))` is the same clamp. |
| `PongRules.InitialTouch` | pong/pong.cpp:26-29 | The touch state starts within bounds, with no slot active. |
| `PongRules.Commit` | pong/pong.cpp:92-103 | A commit keeps the slot and resets x, y and active to -1, within bounds. At the current slot, each pending value that is present (not -1) is stored, and an absent one leaves the old entry. Every other slot keeps its entries. |
| `PongRules.Feed` | pong/pong.cpp:91-129 | Every event keeps the touch state within its bounds (slot in range, positions clamped, active in {-1, 0, 1}). Only ABS_MT_SLOT changes the current slot, to the event's value. ABS_MT_SLOT and SYN_REPORT both leave nothing pending. |
| `PongRules.FeedAll` | pong/pong.cpp:89-130 | A whole batch of events keeps the touch state within bounds. |
| `PongRules.FeedAllSnoc` | pong/pong.cpp:89-130 | Processing one more event continues from the state the earlier events left. |
| `PongRules.FingerReport` | pong/pong.cpp:105-128 | A position/tracking-id/SYN_REPORT sequence stores the clamped position in the current slot. The slot becomes active exactly when the id is above 0. No other slot changes and nothing stays pending. |
| `PongRules.SlotSwitch` | pong/pong.cpp:91-117 | ABS_MT_SLOT b commits what was pending to the old slot. A finger report that follows is stored in slot b, which becomes and stays the current slot. |
| `PongRules.RowOnlyReport` | pong/pong.cpp:105-121 | A report that carries only a new row stores that row in the current slot. The slot's column and down/up state keep their old values. |
| `PongRules.CommitIdempotent` | pong/pong.cpp:105-117 | A second SYN_REPORT in a row changes nothing. |
| `PongRules.FeedOtherSlots` | pong/pong.cpp:91-117 | An event changes the per-slot arrays only at the current slot. |
| `PongRules.PaddleTarget` | pong/pong.cpp:135-137 | A touch puts the paddle's top edge in [0, 430], centred on the touch when that fits. |
| `PongRules.TouchReach` | pong/pong.cpp:121 | Because the touch row is clamped first, a touch brings a paddle's top no lower than row 405, and exactly there from the lowest stored row. |
| `PongRules.Steer` | pong/pong.cpp:132-140 | After the slot loop, a paddle is either where it was or at the target of some active slot on its half of the screen. A paddle that starts in [0, 430] stays in [0, 430]. |
| `PongRules.SteerIdle` | pong/pong.cpp:132-140 | With no active touch on its half of the screen, a paddle stays where it was. |
| `PongRules.SteerLastTouch` | pong/pong.cpp:132-140 | The last active slot on a paddle's half decides where that paddle goes. |
| `PongRules.OverP1` | pong/pong.cpp:147-148 | Player one's paddle test holds exactly when the ball's top-left corner is in columns 12 to 28 and rows p1_y to p1_y + 50. |
| `PongRules.OverP2` | pong/pong.cpp:154-155 | Player two's paddle test holds exactly when the ball's top-left corner is in columns 772 to 788 and rows p2_y to p2_y + 50. |
| `PongRules.PaddlesApart` | pong/pong.cpp:147-159 | The ball never overlaps both paddles' test regions at once. |
| `PongRules.Deflect` | pong/pong.cpp:147-159 | The paddle checks only flip the sign of vx. Overlapping P1 leaves vx ≥ 0, overlapping P2 leaves vx ≤ 0, and otherwise vx is unchanged. |
| `PongDraw.BlankScreen` | pong/pong.cpp:45-48 | An all-zero backbuffer shows black at every pixel. |
| `PongDraw.Clear` | pong/pong.cpp:45-48 | All `SCREEN_W * SCREEN_H * 3` bytes become 0. |
| `PongDraw.PaintStep` | pong/pong.cpp:59-64 | Painting one pixel of a rectangle advances what every screen pixel reads to the next loop position. |
| `PongDraw.Fill` | pong/pong.cpp:57-65 | After the two loops, every pixel of the rectangle reads the colour and every other pixel reads as before. Every write is in bounds. |
| `PongDraw.DrawPaddle` | pong/pong.cpp:55-66 | Exactly the PADDLE_W × PADDLE_H pixels at the position become (FF, 00, 00). |
| `PongDraw.DrawBall` | pong/pong.cpp:68-79 | Exactly the BALL_S × BALL_S pixels at the position become (FF, FF, FF). |
| `PongGame.TouchPad.constructor` | pong/pong.cpp:81-84 | The touch state starts at slot 0 with nothing pending and no active slot. |
| `PongGame.TouchPad.Commit` | pong/pong.cpp:92-103 | The array and field updates are exactly `PongRules.Commit` of the old touch state, which stays within bounds. |
| `PongGame.TouchPad.HandleEvent` | pong/pong.cpp:91-129 | The touch state becomes `Feed` of the old one. `started` is true exactly for a tracking id above 0, the branch that clears `done`. |
| `PongGame.Game.constructor` | pong/pong.cpp:19-24 | The globals' initial values: p1_y 0, p2_y 430, ball (395, 235), velocity (-4, 4), `done` set. They satisfy the play invariant. |
| `PongGame.Game.HandleInput` | pong/pong.cpp:86-141 | The touch state becomes `FeedAll` of the events. `done` is cleared exactly if some event starts a touch. Each paddle goes where `Steer` says. The ball is untouched, and all bounds are kept. |
| `PongGame.Game.ReadEvents` | pong/pong.cpp:89-130 | The read loop feeds every event in order and clears `done` on a touch start. Nothing else in the game changes. |
| `PongGame.Game.SteerPaddles` | pong/pong.cpp:132-140 | Each paddle ends at the last active touch on its half of the screen, or stays. Both stay in [0, 430]. |
| `PongGame.Game.UpdateBall` | pong/pong.cpp:143-197 | The play invariant is kept: ball on screen and vx, vy each ±4. After a finished rally, the ball is re-served from (395, 235) with coin-chosen signs. During play, vx becomes `Deflect`. Crossing a side edge clamps x, ends the rally and leaves y and vy alone. Otherwise y moves, and at the top or bottom y is clamped to 0 or 470 and vy flips. |
| `PongGame.Game.Tick` | pong/pong.cpp:199-207 | All bounds are kept. Every write stays inside the backbuffer, which shows the ball in white over both paddles in red over black, at the new positions. |

## Left out

- `Image::load_png` is not modelled: it is a foreign PNG decoder call.
- `FrameBuffer` (`from_fbdev`, `display`), `flip` and both programs' `main` functions are not modelled: they are mmap, memcpy, flush and sleep I/O on device files.
- `get_float` and `draw_terrain` are not modelled: they compute in `f32` and truncate floats to integers. Only the integer row that `draw_terrain` hands to `draw_vertical_line` is modelled, as an argument.
- The accessors `width()`, `height()` and `data()` are not modelled separately: the model reads the constant fields directly.
- Images.Image.GetPixel: requires x < width and y < height. Rust only checks that the slice holds enough bytes, so an x past the end of a row addresses the next row; the model does not cover such calls.
- Images.Image.SetPixel: requires x < width and y < height, for the same reason as GetPixel.
- Images.Image.Draw: requires both rectangles to lie inside their images, and `img` to be a different image from `self`. Rust's borrow rules guarantee the second; the model does not cover out-of-range rectangles.
- Images.Image.constructor: requires `w * h * P::bytes()`, computed without wrapping, to be at most `isize::MAX`. In Rust that product is a `usize`. If it overflows, a debug build panics on the multiplication, and a release build wraps it and allocates a shorter zeroed vector. A size between `isize::MAX` and `usize::MAX` makes `vec!` panic with a capacity overflow. The model covers none of these paths.
- Terrain.DrawVerticalLine: requires 0 <= x < dest.width. A negative x wraps to a huge `usize`, and an x past the row end writes into the next row; neither is covered.
- PongRules.EventOk: `slot = event.value` is never range-checked, so an ABS_MT_SLOT value outside [0, 10) makes a later commit write out of bounds. The model requires every ABS_MT_SLOT value to be in range.
- The touchscreen `read` loop is modelled as a finite sequence of events, the ones `read` returns before the non-blocking descriptor runs dry.
- `rand()` in a serve is modelled as two booleans, `evenX` and `evenY`, standing for `rand() % 2 == 0`.
- PongGame.Game.constructor: the backbuffer `malloc` returns uninitialised memory; the model starts it zeroed. `tick` clears it before anything reads it, so nothing observable differs.
- PongGame.Game.Tick: states the frame it draws and the invariant, not the new game state. The new state is described by HandleInput followed by UpdateBall.
- `flip`'s copy of the backbuffer to the framebuffer is not modelled: it is a `memcpy` to mapped device memory.
- No integer overflow is modelled in Pong. Every quantity stays in small ranges under the invariants proved, and event values are clamped before any arithmetic.
