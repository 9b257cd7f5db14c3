/**
 * The global state of pong/pong.cpp and the per-frame operations that
 * update it: reading the touchscreen's events, moving the ball and drawing
 * the frame into the backbuffer.
 *
 * The C program keeps everything in globals; here they are the fields of
 * one Game object. The touchscreen's file descriptor becomes the sequence
 * of events a `read` loop would return before it runs dry, and each
 * `rand() % 2 == 0` of a serve becomes a boolean argument.
 */
module PongGame {
  import opened Layout
  import opened Pixels
  import opened PongRules
  import opened PongDraw

  /** The game globals outside the touch state: paddles, ball and the serve flag. */
  datatype Play = Play(p1y: int, p2y: int, ballX: int, ballY: int, ballVx: int, ballVy: int, done: bool)

  /**
   * The bounds the game keeps: both paddles and the ball wholly on screen,
   * and the ball moving SPEED pixels per frame along each axis.
   */
  predicate PlayOk(s: Play)
  {
    0 <= s.p1y <= PADDLE_MAX && 0 <= s.p2y <= PADDLE_MAX
    && 0 <= s.ballX <= BALL_MAX_X && 0 <= s.ballY <= BALL_MAX_Y
    && (s.ballVx == SPEED || s.ballVx == -SPEED) && (s.ballVy == SPEED || s.ballVy == -SPEED)
  }

  /**
   * The frame `tick` draws: the ball in white over the two paddles in red
   * over a black background.
   */
  function Scene(s: Play, x: int, y: int): Pixel
  {
    if InRect(s.ballX, s.ballY, BALL_S, BALL_S, x, y) then WHITE
    else if InRect(P1_X, s.p1y, PADDLE_W, PADDLE_H, x, y) || InRect(P2_X, s.p2y, PADDLE_W, PADDLE_H, x, y) then RED
    else Zero(RGB)
  }

  /**
   * The touch state handle_input keeps in globals between frames: the
   * current slot, the pending x, y and active values and the three per-slot
   * arrays.
   */
  class TouchPad {
    var slot: int
    var x: int
    var y: int
    var active: int
    const on: array<bool>
    const xs: array<int>
    const ys: array<int>

    function State(): Touch
      reads this, on, xs, ys
    {
      Touch(slot, x, y, active, xs[..], ys[..], on[..])
    }

    predicate Valid()
      reads this, on, xs, ys
    {
      xs != ys && TouchOk(State())
    }

    /** Slot 0, nothing pending, every slot at (0, 0) and inactive. */
    constructor ()
      ensures Valid() && fresh(on) && fresh(xs) && fresh(ys)
      ensures State() == InitialTouch()
    {
      slot, x, y, active := 0, -1, -1, -1;
      on := new bool[TOUCH_SLOTS](_ => false);
      xs := new int[TOUCH_SLOTS](_ => 0);
      ys := new int[TOUCH_SLOTS](_ => 0);
      new;
      assert xs[..] == InitialTouch().xs;
      assert ys[..] == InitialTouch().ys;
      assert on[..] == InitialTouch().on;
    }

    /** Stores each pending value that is present into the current slot and forgets all three. */
    method Commit()
      requires Valid()
      modifies this, on, xs, ys
      ensures Valid()
      ensures State() == PongRules.Commit(old(State()))
    {
      if x >= 0 {
        xs[slot] := x;
      }
      if y >= 0 {
        ys[slot] := y;
      }
      if active >= 0 {
        on[slot] := active != 0;
      }
      x, y, active := -1, -1, -1;
    }

    /**
     * One pass of handle_input's read loop: the touch state moves on as
     * Feed says; `started` tells whether the event put a finger down, on
     * which the C code clears `done` in the same branch.
     */
    method HandleEvent(e: Event) returns (started: bool)
      requires Valid() && EventOk(e)
      modifies this, on, xs, ys
      ensures Valid()
      ensures State() == Feed(old(State()), e)
      ensures started == Starts(e)
    {
      started := false;
      if e.code == ABS_MT_SLOT {
        Commit();
        slot := e.value;
      } else if e.code == SYN_REPORT {
        Commit();
      } else if e.code == ABS_MT_POSITION_X {
        x := IMax(IMin(e.value, 0), SCREEN_W);
      } else if e.code == ABS_MT_POSITION_Y {
        y := IMax(IMin(e.value, 0), SCREEN_H - PADDLE_H);
      } else if e.code == ABS_MT_TRACKING_ID {
        if e.value > 0 {
          active := 1;
          started := true;
        } else {
          active := 0;
        }
      }
    }
  }

  class Game {
    var p1y: int
    var p2y: int
    var ballX: int
    var ballY: int
    var ballVx: int
    var ballVy: int
    var done: bool

    const pad: TouchPad
    const backbuffer: array<byte>

    function Current(): Play
      reads this
    {
      Play(p1y, p2y, ballX, ballY, ballVx, ballVy, done)
    }

    predicate Valid()
      reads this, pad, pad.on, pad.xs, pad.ys
    {
      pad.Valid() && backbuffer.Length == BUFFER_LEN && PlayOk(Current())
    }

    /** The globals' initial values; the backbuffer starts zeroed (`clear` runs before anything reads it). */
    constructor ()
      ensures Valid() && fresh(pad) && fresh(pad.on) && fresh(pad.xs) && fresh(pad.ys) && fresh(backbuffer)
      ensures Current() == Play(0, PADDLE_MAX, SERVE_X, SERVE_Y, -SPEED, SPEED, true)
      ensures pad.State() == InitialTouch()
    {
      p1y, p2y := 0, SCREEN_H - PADDLE_H;
      ballX, ballY := SCREEN_W / 2 - BALL_S / 2, SCREEN_H / 2 - BALL_S / 2;
      ballVx, ballVy := -4, 4;
      done := true;
      pad := new TouchPad();
      backbuffer := new byte[BUFFER_LEN](_ => 0);
    }

    /**
     * `handle_input`: feeds every event to the touch state, then moves each
     * paddle to the last active touch on its half of the screen. Play
     * resumes if any event put a finger down; the ball does not move.
     */
    method HandleInput(events: seq<Event>)
      requires Valid() && forall i :: 0 <= i < |events| ==> EventOk(events[i])
      modifies this, pad, pad.on, pad.xs, pad.ys
      ensures Valid()
      ensures pad.State() == FeedAll(old(pad.State()), events)
      ensures done == (old(done) && forall i :: 0 <= i < |events| ==> !Starts(events[i]))
      ensures p1y == Steer(pad.on[..], pad.xs[..], pad.ys[..], true, old(p1y), TOUCH_SLOTS)
      ensures p2y == Steer(pad.on[..], pad.xs[..], pad.ys[..], false, old(p2y), TOUCH_SLOTS)
      ensures ballX == old(ballX) && ballY == old(ballY) && ballVx == old(ballVx) && ballVy == old(ballVy)
    {
      ReadEvents(events);
      SteerPaddles();
    }

    /** handle_input's read loop: every event in turn, until the descriptor runs dry. */
    method ReadEvents(events: seq<Event>)
      requires pad.Valid() && forall i :: 0 <= i < |events| ==> EventOk(events[i])
      modifies this, pad, pad.on, pad.xs, pad.ys
      ensures pad.Valid()
      ensures pad.State() == FeedAll(old(pad.State()), events)
      ensures Current() == old(Current()).(done := old(done) && forall i :: 0 <= i < |events| ==> !Starts(events[i]))
    {
      ghost var start := pad.State();
      ghost var play := Current();
      for n := 0 to |events|
        invariant pad.Valid() && pad.State() == FeedAll(start, events[..n])
        invariant Current() == play.(done := play.done && forall i :: 0 <= i < n ==> !Starts(events[i]))
      {
        FeedAllSnoc(start, events[..n], events[n]);
        assert events[..n + 1] == events[..n] + [events[n]];
        var started := pad.HandleEvent(events[n]);
        if started {
          done := false;
        }
      }
      assert events[..|events|] == events;
    }

    /** handle_input's slot loop: each active touch moves the paddle on its half of the screen. */
    method SteerPaddles()
      requires pad.Valid() && 0 <= p1y <= PADDLE_MAX && 0 <= p2y <= PADDLE_MAX
      modifies this
      ensures 0 <= p1y <= PADDLE_MAX && 0 <= p2y <= PADDLE_MAX
      ensures p1y == Steer(pad.on[..], pad.xs[..], pad.ys[..], true, old(p1y), TOUCH_SLOTS)
      ensures p2y == Steer(pad.on[..], pad.xs[..], pad.ys[..], false, old(p2y), TOUCH_SLOTS)
      ensures Current() == old(Current()).(p1y := p1y, p2y := p2y)
    {
      ghost var play := Current();
      for i := 0 to TOUCH_SLOTS
        invariant 0 <= p1y <= PADDLE_MAX && 0 <= p2y <= PADDLE_MAX
        invariant p1y == Steer(pad.on[..], pad.xs[..], pad.ys[..], true, play.p1y, i)
        invariant p2y == Steer(pad.on[..], pad.xs[..], pad.ys[..], false, play.p2y, i)
        invariant Current() == play.(p1y := p1y, p2y := p2y)
      {
        if pad.on[i] {
          if pad.xs[i] < SCREEN_W / 2 {
            p1y := IMax(SCREEN_H - PADDLE_H, IMin(0, pad.ys[i] - PADDLE_H / 2));
          } else {
            p2y := IMax(SCREEN_H - PADDLE_H, IMin(0, pad.ys[i] - PADDLE_H / 2));
          }
        }
      }
    }

    /**
     * `update_ball`. While a rally is on, the ball bounces off a paddle it
     * overlaps (Deflect), moves; if that takes it past the left or right
     * edge it stops at the edge and the rally ends, otherwise it moves
     * vertically too and bounces off the top or bottom edge. Once a rally
     * has ended, the next call serves: the ball goes back to the centre
     * with each velocity component's sign given by a coin (`rand() % 2 == 0`
     * means positive), and play waits for a touch.
     */
    method UpdateBall(evenX: bool, evenY: bool)
      requires PlayOk(Current())
      modifies this
      ensures PlayOk(Current())
      ensures p1y == old(p1y) && p2y == old(p2y)
      ensures old(done) ==>
                Current() == Play(p1y, p2y, SERVE_X, SERVE_Y,
                                  if evenX then SPEED else -SPEED, if evenY then SPEED else -SPEED, true)
      ensures !old(done) ==>
                var v := Deflect(old(ballX), old(ballY), old(ballVx), p1y, p2y);
                var nx := old(ballX) + v;
                var ny := old(ballY) + old(ballVy);
                ballVx == v
                && (nx < 0 ==> ballX == 0 && done && ballY == old(ballY) && ballVy == old(ballVy))
                && (nx > BALL_MAX_X ==> ballX == BALL_MAX_X && done && ballY == old(ballY) && ballVy == old(ballVy))
                && (0 <= nx <= BALL_MAX_X ==>
                      ballX == nx && !done
                      && ballY == (if ny < 0 then 0 else if ny > BALL_MAX_Y then BALL_MAX_Y else ny)
                      && ballVy == (if ny < 0 || ny > BALL_MAX_Y then -old(ballVy) else old(ballVy)))
    {
      if !done {
        if OverP1(ballX, ballY, p1y) {
          if ballVx < 0 {
            ballVx := ballVx * -1;
          }
        }
        if OverP2(ballX, ballY, p2y) {
          if ballVx > 0 {
            ballVx := ballVx * -1;
          }
        }
        ballX := ballX + ballVx;
        if ballX < 0 {
          ballX := 0;
          done := true;
          return;
        }
        if ballX > SCREEN_W - BALL_S {
          ballX := SCREEN_W - BALL_S;
          done := true;
          return;
        }
        ballY := ballY + ballVy;
        if ballY < 0 {
          ballVy := ballVy * -1;
          ballY := ballY - ballY;
        }
        if ballY > SCREEN_H - BALL_S {
          ballVy := ballVy * -1;
          ballY := ballY - (ballY - (SCREEN_H - BALL_S));
        }
      } else {
        ballX := SCREEN_W / 2 - BALL_S / 2;
        ballY := SCREEN_H / 2 - BALL_S / 2;
        if evenX {
          ballVx := 4;
        } else {
          ballVx := -4;
        }
        if evenY {
          ballVy := 4;
        } else {
          ballVy := -4;
        }
      }
    }

    /**
     * `tick` up to the copy to the screen: clears the backbuffer, handles
     * input, moves the ball and draws both paddles and then the ball, so the
     * backbuffer shows exactly the Scene of the new state.
     */
    method Tick(events: seq<Event>, evenX: bool, evenY: bool)
      requires Valid() && forall i :: 0 <= i < |events| ==> EventOk(events[i])
      modifies this, pad, pad.on, pad.xs, pad.ys, backbuffer
      ensures Valid()
      ensures forall x: nat, y: nat :: x < SCREEN_W && y < SCREEN_H ==>
                Screen(backbuffer[..], x, y) == Scene(Current(), x, y)
    {
      Clear(backbuffer);
      BlankScreen(backbuffer[..]);
      HandleInput(events);
      UpdateBall(evenX, evenY);
      DrawPaddle(backbuffer, P1_X, p1y);
      DrawPaddle(backbuffer, P2_X, p2y);
      DrawBall(backbuffer, ballX, ballY);
    }
  }
}
