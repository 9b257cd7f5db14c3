/**
 * The rules of pong/pong.cpp that do not touch memory: the screen and
 * sprite geometry, the two clamping helpers, the multitouch event protocol
 * of the touchscreen, how touches steer the paddles and how the ball
 * bounces off a paddle.
 */
module PongRules {

  const SCREEN_W := 800
  const SCREEN_H := 480
  const PADDLE_W := 8
  const PADDLE_H := 50
  const BALL_S := 10
  const P1_X := 20
  const P2_X := SCREEN_W - 20 - PADDLE_W
  /** Highest row a paddle's top edge may take (430). */
  const PADDLE_MAX := SCREEN_H - PADDLE_H
  /** Rightmost column and lowest row of the ball's top-left corner (790, 470). */
  const BALL_MAX_X := SCREEN_W - BALL_S
  const BALL_MAX_Y := SCREEN_H - BALL_S
  /** Where a new serve starts (395, 235) and the speed along each axis. */
  const SERVE_X := SCREEN_W / 2 - BALL_S / 2
  const SERVE_Y := SCREEN_H / 2 - BALL_S / 2
  const SPEED := 4

  const TOUCH_SLOTS := 10

  /** `imax`: despite its name, the smaller of its two arguments. */
  function IMax(num: int, m: int): (r: int)
    ensures r <= num && r <= m
    ensures r == num || r == m
  {
    if num > m then m else num
  }

  /** `imin`: despite its name, the larger of its two arguments. */
  function IMin(num: int, m: int): (r: int)
    ensures r >= num && r >= m
    ensures r == num || r == m
  {
    if num < m then m else num
  }

  /**
   * The idiom `imax(imin(v, lo), hi)` clamps v into [lo, hi]: it leaves a v
   * inside the range alone and sends one outside it to the nearer end.
   */
  lemma ClampIdiom(v: int, lo: int, hi: int)
    requires lo <= hi
    ensures lo <= IMax(IMin(v, lo), hi) <= hi
    ensures lo <= v <= hi ==> IMax(IMin(v, lo), hi) == v
    ensures v < lo ==> IMax(IMin(v, lo), hi) == lo
    ensures v > hi ==> IMax(IMin(v, lo), hi) == hi
  {
  }

  /** The same idiom with its arguments as handle_input's paddle update writes them. */
  lemma ClampIdiomSwapped(v: int, lo: int, hi: int)
    requires lo <= hi
    ensures IMax(hi, IMin(lo, v)) == IMax(IMin(v, lo), hi)
  {
  }

  // Linux multitouch event codes (linux/input-event-codes.h).
  const SYN_REPORT := 0x00
  const ABS_MT_SLOT := 0x2f
  const ABS_MT_POSITION_X := 0x35
  const ABS_MT_POSITION_Y := 0x36
  const ABS_MT_TRACKING_ID := 0x39

  /** A `struct input_event` as handle_input reads it: its type is never looked at. */
  datatype Event = Event(code: int, value: int)

  /**
   * The slot numbers the program can store: `slot = event.value` is never
   * range-checked, so an ABS_MT_SLOT event outside [0, TOUCH_SLOTS) would
   * make a later commit write past the touch arrays.
   */
  predicate EventOk(e: Event)
  {
    e.code == ABS_MT_SLOT ==> 0 <= e.value < TOUCH_SLOTS
  }

  /** A tracking-id event with a positive id: a finger goes down and play resumes. */
  predicate Starts(e: Event)
  {
    e.code == ABS_MT_TRACKING_ID && e.value > 0
  }

  /**
   * The touch state handle_input keeps between events: the current slot,
   * the pending x, y and active values (-1 while none is pending) and the
   * per-slot arrays they are committed to.
   */
  datatype Touch = Touch(slot: int, x: int, y: int, active: int,
                         xs: seq<int>, ys: seq<int>, on: seq<bool>)

  /**
   * The bounds the touch state keeps: a slot inside the arrays, a pending x
   * in [0, SCREEN_W], a pending y in [0, PADDLE_MAX], a pending active flag
   * of 0 or 1, each -1 while absent, and committed values in the same
   * ranges.
   */
  predicate TouchOk(t: Touch)
  {
    |t.xs| == TOUCH_SLOTS && |t.ys| == TOUCH_SLOTS && |t.on| == TOUCH_SLOTS
    && 0 <= t.slot < TOUCH_SLOTS
    && -1 <= t.x <= SCREEN_W && -1 <= t.y <= PADDLE_MAX && -1 <= t.active <= 1
    && (forall i :: 0 <= i < TOUCH_SLOTS ==> 0 <= t.xs[i] <= SCREEN_W && 0 <= t.ys[i] <= PADDLE_MAX)
  }

  /** The touch state the program starts with: slot 0, nothing pending, all slots zero and inactive. */
  function InitialTouch(): (t: Touch)
    ensures TouchOk(t)
    ensures forall i :: 0 <= i < TOUCH_SLOTS ==> !t.on[i]
  {
    Touch(0, -1, -1, -1, seq(TOUCH_SLOTS, _ => 0), seq(TOUCH_SLOTS, _ => 0), seq(TOUCH_SLOTS, _ => false))
  }

  /**
   * What ABS_MT_SLOT and SYN_REPORT both do first: store each pending value
   * that is present (non-negative) into the current slot, then forget all
   * three.
   */
  function Commit(t: Touch): (r: Touch)
    requires TouchOk(t)
    ensures TouchOk(r) && r.slot == t.slot && r.x == -1 && r.y == -1 && r.active == -1
    ensures forall i :: 0 <= i < TOUCH_SLOTS ==> r.xs[i] == if i == t.slot && t.x >= 0 then t.x else t.xs[i]
    ensures forall i :: 0 <= i < TOUCH_SLOTS ==> r.ys[i] == if i == t.slot && t.y >= 0 then t.y else t.ys[i]
    ensures forall i :: 0 <= i < TOUCH_SLOTS ==> r.on[i] == if i == t.slot && t.active >= 0 then t.active == 1 else t.on[i]
  {
    Touch(t.slot, -1, -1, -1,
          if t.x >= 0 then t.xs[t.slot := t.x] else t.xs,
          if t.y >= 0 then t.ys[t.slot := t.y] else t.ys,
          if t.active >= 0 then t.on[t.slot := t.active != 0] else t.on)
  }

  /**
   * The effect of one event on the touch state (the body of handle_input's
   * read loop). Only ABS_MT_SLOT moves to another slot, and it and
   * SYN_REPORT both leave nothing pending.
   */
  function Feed(t: Touch, e: Event): (r: Touch)
    requires TouchOk(t) && EventOk(e)
    ensures TouchOk(r)
    ensures r.slot == if e.code == ABS_MT_SLOT then e.value else t.slot
    ensures e.code == ABS_MT_SLOT || e.code == SYN_REPORT ==> r.x == -1 && r.y == -1 && r.active == -1
  {
    if e.code == ABS_MT_SLOT then Commit(t).(slot := e.value)
    else if e.code == SYN_REPORT then Commit(t)
    else if e.code == ABS_MT_POSITION_X then t.(x := IMax(IMin(e.value, 0), SCREEN_W))
    else if e.code == ABS_MT_POSITION_Y then t.(y := IMax(IMin(e.value, 0), PADDLE_MAX))
    else if e.code == ABS_MT_TRACKING_ID then t.(active := if e.value > 0 then 1 else 0)
    else t
  }

  /** The touch state after a whole batch of events, in order. */
  function FeedAll(t: Touch, events: seq<Event>): (r: Touch)
    requires TouchOk(t) && forall i :: 0 <= i < |events| ==> EventOk(events[i])
    ensures TouchOk(r)
    decreases |events|
  {
    if events == [] then t else FeedAll(Feed(t, events[0]), events[1..])
  }

  /** Feeding a batch one more event is feeding that event to the batch's result. */
  lemma {:induction false} FeedAllSnoc(t: Touch, events: seq<Event>, e: Event)
    requires TouchOk(t) && EventOk(e) && forall i :: 0 <= i < |events| ==> EventOk(events[i])
    ensures FeedAll(t, events + [e]) == Feed(FeedAll(t, events), e)
    decreases |events|
  {
    if events != [] {
      assert (events + [e])[1..] == events[1..] + [e];
      FeedAllSnoc(Feed(t, events[0]), events[1..], e);
    }
  }

  /**
   * One finger report — position, tracking id, then SYN_REPORT — stores the
   * clamped position and the down/up state in the current slot, touches no
   * other slot and leaves nothing pending.
   */
  lemma FingerReport(t: Touch, px: int, py: int, id: int)
    requires TouchOk(t)
    ensures var events := [Event(ABS_MT_POSITION_X, px), Event(ABS_MT_POSITION_Y, py),
                           Event(ABS_MT_TRACKING_ID, id), Event(SYN_REPORT, 0)];
            var r := FeedAll(t, events);
            r.slot == t.slot && r.x == -1 && r.y == -1 && r.active == -1
            && r.xs == t.xs[t.slot := IMax(IMin(px, 0), SCREEN_W)]
            && r.ys == t.ys[t.slot := IMax(IMin(py, 0), PADDLE_MAX)]
            && r.on == t.on[t.slot := id > 0]
  {
    var events := [Event(ABS_MT_POSITION_X, px), Event(ABS_MT_POSITION_Y, py),
                   Event(ABS_MT_TRACKING_ID, id), Event(SYN_REPORT, 0)];
    var t1 := Feed(t, events[0]);
    var t2 := Feed(t1, events[1]);
    var t3 := Feed(t2, events[2]);
    assert FeedAll(t, events) == FeedAll(t1, events[1..]);
    assert FeedAll(t1, events[1..]) == FeedAll(t2, events[2..]);
    assert FeedAll(t2, events[2..]) == FeedAll(t3, events[3..]);
    assert FeedAll(t3, events[3..]) == FeedAll(Commit(t3), []);
  }

  /**
   * ABS_MT_SLOT b first commits what is pending to the old slot; the finger
   * report that follows is then stored in slot b, which stays current.
   */
  lemma SlotSwitch(t: Touch, b: int, px: int, py: int, id: int)
    requires TouchOk(t) && 0 <= b < TOUCH_SLOTS
    ensures var events := [Event(ABS_MT_SLOT, b), Event(ABS_MT_POSITION_X, px), Event(ABS_MT_POSITION_Y, py),
                           Event(ABS_MT_TRACKING_ID, id), Event(SYN_REPORT, 0)];
            var c := Commit(t);
            var r := FeedAll(t, events);
            r.slot == b && r.x == -1 && r.y == -1 && r.active == -1
            && r.xs == c.xs[b := IMax(IMin(px, 0), SCREEN_W)]
            && r.ys == c.ys[b := IMax(IMin(py, 0), PADDLE_MAX)]
            && r.on == c.on[b := id > 0]
  {
    var events := [Event(ABS_MT_SLOT, b), Event(ABS_MT_POSITION_X, px), Event(ABS_MT_POSITION_Y, py),
                   Event(ABS_MT_TRACKING_ID, id), Event(SYN_REPORT, 0)];
    var t1 := Feed(t, events[0]);
    assert FeedAll(t, events) == FeedAll(t1, events[1..]);
    assert events[1..] == [Event(ABS_MT_POSITION_X, px), Event(ABS_MT_POSITION_Y, py),
                           Event(ABS_MT_TRACKING_ID, id), Event(SYN_REPORT, 0)];
    FingerReport(t1, px, py, id);
  }

  /**
   * A report that only moves a finger vertically stores the new row in the
   * current slot: the slot's column and down/up state, whose pending values
   * are absent, keep what they held.
   */
  lemma RowOnlyReport(t: Touch, py: int)
    requires TouchOk(t) && t.x == -1 && t.active == -1
    ensures var r := FeedAll(t, [Event(ABS_MT_POSITION_Y, py), Event(SYN_REPORT, 0)]);
            r.xs == t.xs && r.on == t.on && r.ys == t.ys[t.slot := IMax(IMin(py, 0), PADDLE_MAX)]
  {
    var events := [Event(ABS_MT_POSITION_Y, py), Event(SYN_REPORT, 0)];
    var t1 := Feed(t, events[0]);
    assert FeedAll(t, events) == FeedAll(t1, events[1..]);
    assert FeedAll(t1, events[1..]) == FeedAll(Commit(t1), []);
  }

  /** A second SYN_REPORT in a row changes nothing: a commit is idempotent. */
  lemma CommitIdempotent(t: Touch)
    requires TouchOk(t)
    ensures Commit(Commit(t)) == Commit(t)
  {
  }

  /** Only a commit at the current slot changes the arrays, and only at that slot. */
  lemma FeedOtherSlots(t: Touch, e: Event, i: int)
    requires TouchOk(t) && EventOk(e) && 0 <= i < TOUCH_SLOTS && i != t.slot
    ensures Feed(t, e).xs[i] == t.xs[i] && Feed(t, e).ys[i] == t.ys[i] && Feed(t, e).on[i] == t.on[i]
  {
  }

  /** Where a touch at row ty puts a paddle's top edge: centred on it, clamped to the screen. */
  function PaddleTarget(ty: int): (p: int)
    ensures 0 <= p <= PADDLE_MAX
    ensures 0 <= ty - PADDLE_H / 2 <= PADDLE_MAX ==> p == ty - PADDLE_H / 2
  {
    ClampIdiom(ty - PADDLE_H / 2, 0, PADDLE_MAX);
    IMax(PADDLE_MAX, IMin(0, ty - PADDLE_H / 2))
  }

  /**
   * A committed touch row is already clamped to [0, PADDLE_MAX] before half
   * a paddle is taken off it, so a touch can bring a paddle's top edge no
   * lower than PADDLE_MAX - PADDLE_H / 2 (405), and exactly there from the
   * lowest row a touch is stored at.
   */
  lemma TouchReach(ty: int)
    requires 0 <= ty <= PADDLE_MAX
    ensures PaddleTarget(ty) <= PADDLE_MAX - PADDLE_H / 2
    ensures ty == PADDLE_MAX ==> PaddleTarget(ty) == PADDLE_MAX - PADDLE_H / 2
  {
  }

  /**
   * The paddle on the given side after handle_input's slot loop has
   * visited slots [0, n): the target of the last active slot on that half
   * of the screen (x < SCREEN_W / 2 is player one's), or `cur` if there is
   * none. Either way the paddle stays put or goes where some active touch
   * on its half sends it, so one that starts on screen stays on screen.
   */
  function Steer(on: seq<bool>, xs: seq<int>, ys: seq<int>, left: bool, cur: int, n: nat): (r: int)
    requires n <= |on| && n <= |xs| && n <= |ys|
    ensures r == cur || exists k :: 0 <= k < n && on[k] && (xs[k] < SCREEN_W / 2) == left && r == PaddleTarget(ys[k])
    ensures 0 <= cur <= PADDLE_MAX ==> 0 <= r <= PADDLE_MAX
  {
    if n == 0 then cur
    else if on[n - 1] && (xs[n - 1] < SCREEN_W / 2) == left then PaddleTarget(ys[n - 1])
    else Steer(on, xs, ys, left, cur, n - 1)
  }

  /** With no active touch on its half among the slots visited, a paddle stays where it is. */
  lemma {:induction false} SteerIdle(on: seq<bool>, xs: seq<int>, ys: seq<int>, left: bool, cur: int, n: nat)
    requires n <= |on| && n <= |xs| && n <= |ys|
    requires forall i :: 0 <= i < n && on[i] ==> (xs[i] < SCREEN_W / 2) != left
    ensures Steer(on, xs, ys, left, cur, n) == cur
  {
    if n > 0 {
      SteerIdle(on, xs, ys, left, cur, n - 1);
    }
  }

  /** The last active touch on a paddle's half decides where that paddle goes. */
  lemma {:induction false} SteerLastTouch(on: seq<bool>, xs: seq<int>, ys: seq<int>, left: bool, cur: int, n: nat, k: nat)
    requires n <= |on| && n <= |xs| && n <= |ys| && k < n
    requires on[k] && (xs[k] < SCREEN_W / 2) == left
    requires forall i :: k < i < n && on[i] ==> (xs[i] < SCREEN_W / 2) != left
    ensures Steer(on, xs, ys, left, cur, n) == PaddleTarget(ys[k])
  {
    if n - 1 != k {
      SteerLastTouch(on, xs, ys, left, cur, n - 1, k);
    }
  }

  /**
   * update_ball's test against player one's paddle: the ball's top-left
   * corner lies in columns 12 to 28 and from the paddle's top row to 50
   * rows below it.
   */
  predicate OverP1(x: int, y: int, p1y: int): (b: bool)
    ensures b <==> 12 <= x <= 28 && p1y <= y <= p1y + PADDLE_H
  {
    !(x < P1_X - PADDLE_W || x > P1_X + PADDLE_W || y < p1y || y > p1y + PADDLE_H)
  }

  /**
   * update_ball's test against player two's paddle: the ball's top-left
   * corner lies in columns 772 to 788 and from the paddle's top row to 50
   * rows below it.
   */
  predicate OverP2(x: int, y: int, p2y: int): (b: bool)
    ensures b <==> 772 <= x <= 788 && p2y <= y <= p2y + PADDLE_H
  {
    !(x < P2_X || x > P2_X + 2 * PADDLE_W || y < p2y || y > p2y + PADDLE_H)
  }

  /** The two paddle tests look at disjoint columns, so they never both hold. */
  lemma PaddlesApart(x: int, y: int, p1y: int, p2y: int)
    ensures !(OverP1(x, y, p1y) && OverP2(x, y, p2y))
  {
  }

  /**
   * The horizontal velocity after update_ball's two paddle checks: sent
   * right off player one's paddle, left off player two's, unchanged
   * otherwise, and never changed in size.
   */
  function Deflect(x: int, y: int, vx: int, p1y: int, p2y: int): (v: int)
    ensures v == vx || v == -vx
    ensures OverP1(x, y, p1y) ==> v >= 0
    ensures OverP2(x, y, p2y) ==> v <= 0
    ensures !OverP1(x, y, p1y) && !OverP2(x, y, p2y) ==> v == vx
  {
    var v1 := if OverP1(x, y, p1y) && vx < 0 then -vx else vx;
    if OverP2(x, y, p2y) && v1 > 0 then -v1 else v1
  }
}
