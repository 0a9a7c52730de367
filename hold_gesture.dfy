/** The hold-to-exit gesture of the close button, as values: the two cells of
    gesture state, the hit test run on every drag, the exit test run on every
    timer tick, the progress value the button draws, and the effect of a
    sequence of pointer events on the state.

    Instants are readings of the monotonic clock in nanoseconds; the clock
    itself is not modelled, every reading is a parameter. */
module HoldGesture {
  import opened Wrappers

  const NANOS_PER_SEC: nat := 1_000_000_000

  /** HOLD_DURATION_SECS (3 seconds) in nanoseconds. */
  const HOLD_DURATION: nat := 3 * NANOS_PER_SEC

  /** The cells MOUSE_DOWN_TIME and IS_MOUSE_INSIDE. */
  datatype Gesture = Gesture(mouseDownTime: Option<nat>, isMouseInside: bool)

  /** Both cells as they are first read: no hold, pointer not inside. */
  const INITIAL: Gesture := Gesture(None, false)

  /** Whenever a hold is under way the pointer is inside the button. */
  predicate HoldInvariant(g: Gesture) {
    g.mouseDownTime.Some? ==> g.isMouseInside
  }

  /** `start.elapsed()` read at `now`; it saturates at zero when `now` is
      earlier than `start`. */
  function Elapsed(start: nat, now: nat): nat {
    if now >= start then now - start else 0
  }

  // ---------------------------------------------------------------- progress

  /** `(elapsed / HOLD_DURATION_SECS).min(1.0)` for an elapsed time. */
  function ProgressAt(elapsed: nat): (p: real)
    ensures 0.0 <= p <= 1.0
    ensures p == 1.0 <==> elapsed >= HOLD_DURATION
    ensures elapsed < HOLD_DURATION ==> p * (HOLD_DURATION as real) == elapsed as real
  {
    var fraction := elapsed as real / (HOLD_DURATION as real);
    if fraction < 1.0 then fraction else 1.0
  }

  /** The progress drawn around the close button: zero without a hold,
      otherwise the fraction of the hold duration that has passed, capped
      at one. */
  function Progress(g: Gesture, now: nat): (p: real)
    ensures 0.0 <= p <= 1.0
    ensures g.mouseDownTime.None? ==> p == 0.0
    ensures p == 1.0 <==>
              g.mouseDownTime.Some? && Elapsed(g.mouseDownTime.value, now) >= HOLD_DURATION
  {
    match g.mouseDownTime
    case None => 0.0
    case Some(start) => ProgressAt(Elapsed(start, now))
  }

  /** More elapsed time never shows less progress. */
  lemma ProgressMonotone(e1: nat, e2: nat)
    requires e1 <= e2
    ensures ProgressAt(e1) <= ProgressAt(e2)
  {
  }

  /** As the clock advances during one hold the drawn progress never falls. */
  lemma ProgressNeverFallsDuringHold(g: Gesture, now1: nat, now2: nat)
    requires now1 <= now2
    ensures Progress(g, now1) <= Progress(g, now2)
  {
  }

  // --------------------------------------------------------------- exit test

  /** The `should_exit` test of the timer tick: a hold is under way, the
      pointer is inside, and at least the hold duration has elapsed. */
  function ShouldExit(g: Gesture, now: nat): (r: bool)
    ensures r ==> g.mouseDownTime.Some? && g.isMouseInside
    ensures r <==> g.isMouseInside && Progress(g, now) == 1.0
  {
    match g.mouseDownTime
    case None => false
    case Some(start) => g.isMouseInside && Elapsed(start, now) >= HOLD_DURATION
  }

  /** Under the hold invariant the tick's own inside test adds nothing:
      the exit is due exactly when the drawn progress is full. */
  lemma ExitIffFullProgress(g: Gesture, now: nat)
    requires HoldInvariant(g)
    ensures ShouldExit(g, now) <==> Progress(g, now) == 1.0
  {
  }

  /** The threshold is inclusive: 2.999 s and one nanosecond short of 3 s do
      not end the session, exactly 3 s does, and so does anything later. */
  lemma ExitThreshold(start: nat, later: nat)
    ensures !ShouldExit(Gesture(Some(start), true), start + 2_999_000_000)
    ensures !ShouldExit(Gesture(Some(start), true), start + HOLD_DURATION - 1)
    ensures ShouldExit(Gesture(Some(start), true), start + HOLD_DURATION)
    ensures ShouldExit(Gesture(Some(start), true), start + HOLD_DURATION + later)
  {
  }

  /** Once the exit test passes it keeps passing while the state is left
      alone. */
  lemma ExitStaysDue(g: Gesture, now1: nat, now2: nat)
    requires now1 <= now2 && ShouldExit(g, now1)
    ensures ShouldExit(g, now2)
  {
  }

  // ---------------------------------------------------------------- hit test

  /** The drag handler's test, with inclusive bounds on both axes: the point
      (x, y), in the button's own coordinates, lies in [0, width] x [0, height]. */
  predicate IsInside(x: real, y: real, width: real, height: real) {
    x >= 0.0 && x <= width && y >= 0.0 && y <= height
  }

  /** The edges and corners of the button count as inside; any point left
      of, right of, below or above the button does not. */
  lemma HitTestBounds(x: real, y: real, width: real, height: real)
    requires width >= 0.0 && height >= 0.0
    ensures IsInside(0.0, 0.0, width, height) && IsInside(width, height, width, height)
    ensures IsInside(0.0, height, width, height) && IsInside(width, 0.0, width, height)
    ensures x < 0.0 || x > width || y < 0.0 || y > height ==> !IsInside(x, y, width, height)
  {
  }

  // ---------------------------------------------------------- pointer events

  /** The three pointer handlers, each with the clock reading it takes; a
      drag carries the pointer position converted to the button's
      coordinates and the button's size. */
  datatype PointerEvent =
    | MouseDown(at: nat)
    | MouseUp
    | MouseDragged(at: nat, x: real, y: real, width: real, height: real)

  /** Whether a drag lands within the button. */
  predicate InBounds(e: PointerEvent)
    requires e.MouseDragged?
  {
    IsInside(e.x, e.y, e.width, e.height)
  }

  /** What one pointer event does to the gesture state. */
  function Step(g: Gesture, e: PointerEvent): (g': Gesture)
    ensures HoldInvariant(g) ==> HoldInvariant(g')
  {
    match e
    case MouseDown(now) => Gesture(Some(now), true)
    case MouseUp => g.(mouseDownTime := None)
    case MouseDragged(now, x, y, width, height) =>
      var isInside := IsInside(x, y, width, height);
      if isInside == g.isMouseInside then g
      else if !isInside then Gesture(None, false)
      else Gesture(Some(now), true)
  }

  /** The state after a sequence of pointer events, the last one last. */
  function Run(g: Gesture, events: seq<PointerEvent>): (g': Gesture)
    ensures HoldInvariant(g) ==> HoldInvariant(g')
    decreases |events|
  {
    if events == [] then g
    else Step(Run(g, events[..|events| - 1]), events[|events| - 1])
  }

  /** An event that (re)starts a hold at time `s`: a mouse-down at `s`, or a
      drag at `s` that lands inside the button. */
  predicate StartsHoldAt(e: PointerEvent, s: nat) {
    e == MouseDown(s) || (e.MouseDragged? && e.at == s && InBounds(e))
  }

  /** An event that keeps a hold going: a drag that lands inside. */
  predicate KeepsHold(e: PointerEvent) {
    e.MouseDragged? && InBounds(e)
  }

  /** No credit carries over: if a hold is under way after a sequence of
      events, its start time is either the one held before the sequence,
      with every event a drag inside the button, or the time of some event
      that started a hold, with every later event a drag inside the button. */
  lemma {:induction false} HoldStartIsLastEntry(g: Gesture, events: seq<PointerEvent>, s: nat)
    requires HoldInvariant(g)
    requires Run(g, events).mouseDownTime == Some(s)
    ensures
      || (g.mouseDownTime == Some(s) && forall j | 0 <= j < |events| :: KeepsHold(events[j]))
      || exists i | 0 <= i < |events| ::
           StartsHoldAt(events[i], s) && forall j | i < j < |events| :: KeepsHold(events[j])
    decreases |events|
  {
    if events != [] {
      var n := |events| - 1;
      var prefix := events[..n];
      var before := Run(g, prefix);
      var last := events[n];
      match last
      case MouseDown(t) =>
        assert StartsHoldAt(events[n], s);
      case MouseUp =>
        assert false;
      case MouseDragged(t, x, y, width, height) =>
        if IsInside(x, y, width, height) == before.isMouseInside {
          assert before.mouseDownTime == Some(s);
          assert before.isMouseInside;
          HoldStartIsLastEntry(g, prefix, s);
          assert KeepsHold(events[n]);
          if exists i | 0 <= i < |prefix| ::
               StartsHoldAt(prefix[i], s) && forall j | i < j < |prefix| :: KeepsHold(prefix[j])
          {
            var i :| 0 <= i < |prefix| &&
              StartsHoldAt(prefix[i], s) && forall j | i < j < |prefix| :: KeepsHold(prefix[j]);
            assert StartsHoldAt(events[i], s);
            assert forall j | i < j < |events| :: KeepsHold(events[j]) by {
              forall j | i < j < |events| ensures KeepsHold(events[j]) {
                if j < n { assert events[j] == prefix[j]; }
              }
            }
          } else {
            assert forall j | 0 <= j < |events| :: KeepsHold(events[j]) by {
              forall j | 0 <= j < |events| ensures KeepsHold(events[j]) {
                if j < n { assert events[j] == prefix[j]; }
              }
            }
          }
        } else {
          assert StartsHoldAt(events[n], s);
        }
    }
  }

  /** Leaving the button forfeits the hold: if some event of the sequence
      is a drag outside the button and a hold is under way afterwards, that
      hold was started by a later event, at that event's time. */
  lemma {:induction false} NoCreditAcrossExit(g: Gesture, events: seq<PointerEvent>, k: nat, s: nat)
    requires HoldInvariant(g)
    requires k < |events| && events[k].MouseDragged? && !InBounds(events[k])
    requires Run(g, events).mouseDownTime == Some(s)
    ensures exists i | k < i < |events| :: StartsHoldAt(events[i], s)
  {
    HoldStartIsLastEntry(g, events, s);
    assert !KeepsHold(events[k]);
    var i :| 0 <= i < |events| &&
      StartsHoldAt(events[i], s) && forall j | i < j < |events| :: KeepsHold(events[j]);
    assert k < i;
  }

  /** Pressing, leaving and coming back restarts the hold at the re-entry:
      the progress drawn afterwards is measured from the re-entry time,
      whatever happened before. */
  lemma ReentryRestartsHold(
    g: Gesture, down: nat, out: PointerEvent, back: PointerEvent, now: nat)
    requires out.MouseDragged? && !InBounds(out)
    requires back.MouseDragged? && InBounds(back)
    ensures Run(g, [MouseDown(down), out, back]).mouseDownTime == Some(back.at)
    ensures Progress(Run(g, [MouseDown(down), out, back]), now) == ProgressAt(Elapsed(back.at, now))
  {
  }

  /** The session ends through the hold only after an unbroken hold: when
      the exit test passes after a sequence of events, some event started a
      hold at least the hold duration before `now` and every later event was
      a drag inside the button (or the hold was already under way before the
      sequence and every event was such a drag). */
  lemma {:induction false} ExitNeedsUnbrokenHold(g: Gesture, events: seq<PointerEvent>, now: nat)
    requires HoldInvariant(g)
    requires ShouldExit(Run(g, events), now)
    ensures exists s: nat | s + HOLD_DURATION <= now ::
      || (g.mouseDownTime == Some(s) && forall j | 0 <= j < |events| :: KeepsHold(events[j]))
      || exists i | 0 <= i < |events| ::
           StartsHoldAt(events[i], s) && forall j | i < j < |events| :: KeepsHold(events[j])
  {
    var s := Run(g, events).mouseDownTime.value;
    HoldStartIsLastEntry(g, events, s);
  }

  /** A press followed only by drags that stay inside the button keeps the
      hold that the press started, with the pointer inside. */
  lemma {:induction false} HoldContinues(g: Gesture, s: nat, drags: seq<PointerEvent>)
    requires forall j | 0 <= j < |drags| :: KeepsHold(drags[j])
    ensures Run(g, [MouseDown(s)] + drags) == Gesture(Some(s), true)
    decreases |drags|
  {
    if drags != [] {
      var n := |drags| - 1;
      var events := [MouseDown(s)] + drags;
      assert events[..|events| - 1] == [MouseDown(s)] + drags[..n];
      assert events[|events| - 1] == drags[n];
      HoldContinues(g, s, drags[..n]);
    }
  }

  /** Pressing and holding inside the button for the hold duration ends the
      session, however the pointer moves within the button meanwhile. */
  lemma {:induction false} UnbrokenHoldExits(
    g: Gesture, s: nat, drags: seq<PointerEvent>, now: nat)
    requires forall j | 0 <= j < |drags| :: KeepsHold(drags[j])
    requires s + HOLD_DURATION <= now
    ensures ShouldExit(Run(g, [MouseDown(s)] + drags), now)
  {
    HoldContinues(g, s, drags);
  }
}
