/** The close button's gesture state as the program keeps it: two mutable
    cells that the pointer handlers update in place and the timer tick reads.
    Every handler is specified against `HoldGesture.Step`, and the tick
    against `HoldGesture.ShouldExit`. */
module CloseButtonView {
  import opened Wrappers
  import opened HoldGesture

  class CloseButton {
    /** When the current hold started, if one is under way. */
    var mouseDownTime: Option<nat>
    /** Whether the pointer was inside the button at the last pointer event. */
    var isMouseInside: bool

    /** The two cells as one value. */
    function State(): Gesture
      reads this
    {
      Gesture(mouseDownTime, isMouseInside)
    }

    /** A hold under way implies the pointer is inside. `TimerTick` relies
        on it, and the lemmas about `Step` and `Run` carry it over to any
        sequence of handler calls through `State()`. */
    predicate Valid()
      reads this
    {
      HoldInvariant(State())
    }

    /** The cells' initial values. */
    constructor ()
      ensures State() == INITIAL && Valid()
    {
      mouseDownTime := None;
      isMouseInside := false;
    }

    /** A press on the button starts a hold at `now` with the pointer inside. */
    method MouseDown(now: nat)
      modifies this
      ensures mouseDownTime == Some(now) && isMouseInside
      ensures State() == Step(old(State()), PointerEvent.MouseDown(now))
      ensures Valid()
    {
      mouseDownTime := Some(now);
      isMouseInside := true;
    }

    /** A release ends any hold, even one not yet complete, and leaves the
        inside flag as it was. */
    method MouseUp()
      modifies this
      ensures mouseDownTime == None && isMouseInside == old(isMouseInside)
      ensures State() == Step(old(State()), PointerEvent.MouseUp)
      ensures Valid()
    {
      mouseDownTime := None;
    }

    /** A drag to (x, y), in the button's coordinates, on a button of the
        given size: the inside flag becomes the hit test's answer; if that
        did not change nothing else does, leaving ends the hold, and coming
        back starts a fresh hold at `now`. */
    method MouseDragged(now: nat, x: real, y: real, width: real, height: real)
      modifies this
      ensures isMouseInside == IsInside(x, y, width, height)
      ensures isMouseInside == old(isMouseInside) ==> mouseDownTime == old(mouseDownTime)
      ensures old(isMouseInside) && !isMouseInside ==> mouseDownTime == None
      ensures !old(isMouseInside) && isMouseInside ==> mouseDownTime == Some(now)
      ensures State() == Step(old(State()), PointerEvent.MouseDragged(now, x, y, width, height))
      ensures old(Valid()) ==> Valid()
    {
      var isInside := IsInside(x, y, width, height);
      var wasInside := isMouseInside;
      if isInside != wasInside {
        isMouseInside := isInside;
        if !isInside {
          mouseDownTime := None;
        } else {
          mouseDownTime := Some(now);
        }
      }
    }

    /** The timer tick's exit test at clock reading `now`: true asks the run
        loop to stop. The tick changes neither cell. */
    method TimerTick(now: nat) returns (stopRunLoop: bool)
      ensures stopRunLoop == ShouldExit(State(), now)
      ensures stopRunLoop ==> isMouseInside && Progress(State(), now) == 1.0
      ensures mouseDownTime.None? ==> !stopRunLoop
      ensures Valid() ==> (stopRunLoop <==> Progress(State(), now) == 1.0)
    {
      stopRunLoop := false;
      if mouseDownTime.Some? {
        var start := mouseDownTime.value;
        var isInside := isMouseInside;
        stopRunLoop := isInside && Elapsed(start, now) >= HOLD_DURATION;
      }
    }
  }
}
