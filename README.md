# Cat Shield: exit gesture and input interception

Cat Shield covers a macOS screen with a translucent overlay. While it runs it
swallows keyboard and mouse input and keeps the display awake. The user can
end it in two ways. One is to press and hold the close button in the corner
for three seconds. The other is to press Command+Option+U, which needs
Accessibility permission.

This project models the two pieces of decision logic behind those exits:

- **The hold-to-exit gesture** (`hold_gesture.dfy`, `close_button.dfy`).
  The gesture state has two cells: when the current hold started, and whether
  the pointer is inside the button.
  - Press, release and drag update the cells in place. They are modelled as
    methods of the class `CloseButtonView.CloseButton`.
  - Each handler is specified against the pure transition
    `HoldGesture.Step`. `HoldGesture.Run` folds `Step` over a sequence of
    pointer events.
  - The timer tick stops the run loop once the pointer has been held inside
    for at least 3 s (`ShouldExit`).
  - The button draws the progress `min(elapsed / 3 s, 1)` (`Progress`).
  - Clock readings are passed in as nanoseconds of the monotonic clock.
    `elapsed()` saturates at zero.
- **The event tap** (`event_tap.dfy`). For every intercepted event the
  callback chooses one of four outcomes (`Decide`):
  - re-enable the tap and pass the event on;
  - unlock, which stops the run loop, and pass the event on;
  - block, by returning null;
  - pass the event on unchanged.

  The tap subscribes to its events through a 64-bit mask (`EventMask`). The
  model proves that the mask lists exactly the 14 types the callback blocks.

The main results:

- A hold that is under way always has the pointer inside the button. Every
  handler preserves this.
- Leaving the button cancels the hold. After any sequence of events, a
  running hold began at the last press or re-entry, and every event since
  then was a drag inside the button. So no credit carries over from before
  leaving.
- The exit threshold is inclusive. 2.999 s does not exit and 3 s does.
- Exit is requested exactly when the pointer is inside and the drawn
  progress is full.
- The unlock chord is matched with "contains". Extra modifiers still unlock.
- Tap-disabled notices are never blocked.

## Model

| member | source | states |
|---|---|---|
| `HoldGesture.ProgressAt` | src/main.rs:258-265 | progress for an elapsed time lies in [0, 1], is exactly elapsed / 3 s below the hold duration, and is 1 iff at least 3 s have elapsed |
| `HoldGesture.Progress` | src/main.rs:258-265 | drawn progress is 0 with no hold and lies in [0, 1]; it is 1 iff a hold exists whose elapsed time is at least 3 s |
| `HoldGesture.ProgressMonotone` | src/main.rs:261 | more elapsed time never gives less progress |
| `HoldGesture.ProgressNeverFallsDuringHold` | src/main.rs:258-265 | for a fixed state, a later clock reading never draws less progress |
| `HoldGesture.ShouldExit` | src/main.rs:103-110 | the tick asks to exit only when a hold exists and the pointer is inside; this is the case exactly when the pointer is inside and progress is full |
| `HoldGesture.ExitIffFullProgress` | src/main.rs:103-110 | under the hold invariant, the exit is due exactly when the drawn progress is full |
| `HoldGesture.ExitThreshold` | src/main.rs:106 | with a hold under way and the pointer inside: 2.999 s and 3 s minus 1 ns do not exit; exactly 3 s and anything later do |
| `HoldGesture.ExitStaysDue` | src/main.rs:103-110 | once the exit test passes, it passes at every later reading while the state is unchanged |
| `HoldGesture.IsInside` | src/main.rs:214-217 | the drag's hit test: x in [0, width] and y in [0, height], both bounds inclusive |
| `HoldGesture.HitTestBounds` | src/main.rs:214-217 | the hit test is inclusive: corners and edges of the button are inside; any point with x < 0, x > width, y < 0 or y > height is outside |
| `HoldGesture.Step` | src/main.rs:188-238 | each pointer handler keeps the invariant that a hold under way has the pointer inside |
| `HoldGesture.Run` | src/main.rs:188-238 | any sequence of pointer events keeps that invariant |
| `HoldGesture.HoldStartIsLastEntry` | src/main.rs:219-235 | after any sequence of events, a running hold started at the last press or in-bounds re-entry, and every later event was an in-bounds drag (or it predates the sequence and every event was an in-bounds drag) |
| `HoldGesture.NoCreditAcrossExit` | src/main.rs:224-228 | if any drag leaves the button and a hold is under way afterwards, a later event started that hold, at that event's own time |
| `HoldGesture.ReentryRestartsHold` | src/main.rs:219-235 | press, drag out, drag back in: the hold now starts at the re-entry time, and progress is measured from it |
| `HoldGesture.ExitNeedsUnbrokenHold` | src/main.rs:103-110 | if the tick asks to exit after a sequence of events, a hold started at least 3 s earlier and every event since was a drag inside the button |
| `HoldGesture.HoldContinues` | src/main.rs:188-238 | a press followed only by drags inside the button leaves the hold started at the press's time, with the pointer inside |
| `HoldGesture.UnbrokenHoldExits` | src/main.rs:101-115 | a press followed only by drags inside the button, with at least 3 s elapsed since the press, makes the tick request exit |
| `CloseButtonView.CloseButton.constructor` | src/main.rs:95-98 | the cells start as no hold and not inside, which satisfies the invariant |
| `CloseButtonView.CloseButton.MouseDown` | src/main.rs:188-195 | a press sets the start to `now` and inside to true |
| `CloseButtonView.CloseButton.MouseUp` | src/main.rs:197-203 | a release always clears the start time, even mid-hold, and leaves the inside flag as it was |
| `CloseButtonView.CloseButton.MouseDragged` | src/main.rs:205-238 | inside becomes the hit test's answer; if that is unchanged the start is unchanged; leaving clears the start; re-entering sets it to `now`; the invariant is preserved |
| `CloseButtonView.CloseButton.TimerTick` | src/main.rs:101-115 | the tick stops the run loop exactly when `ShouldExit` holds; it never does so without a hold, and it changes no state; when the object invariant holds, it stops exactly when the drawn progress is full |
| `EventTap.Decide` | src/main.rs:386-449 | re-enable happens iff the event is a tap-disabled notice and a tap is stored; unlock happens iff the event is Command+Option+U as a key-down; block happens iff the type is one of the 14 listed types and the event is not the chord; otherwise the event passes unchanged; a tap-disabled notice is never blocked |
| `EventTap.IsUnlockChord` | src/main.rs:414-417 | the unlock test: a key-down whose flags contain Command and Option and whose keycode is 32 |
| `EventTap.IsBlockedType` | src/main.rs:429-443 | the callback's block test: the fourteen listed keyboard, mouse and scroll types |
| `EventTap.UnlockWithExtraModifiers` | src/main.rs:413-425 | any flag set containing Command and Option unlocks on key-down of keycode 32, and that key-down is passed on |
| `EventTap.OnlyKeyDownUnlocks` | src/main.rs:406-446 | key-up and flags-changed events are blocked whatever their flags and keycode; a key-down that lacks Command or Option, or has another keycode, is blocked |
| `EventTap.EventMask` | src/main.rs:459-472 | the mask or-s one `1 << code` term per listed type; its value is 0x0E401CFE, so exactly bits 1-7, 10-12, 22 and 25-27 are set |
| `EventTap.MaskMatchesBlockedTypes` | src/main.rs:459-472 | the tap subscribes to a type iff the callback's block test lists it |
| `EventTap.MaskHasNoOtherBits` | src/main.rs:459-472 | every set bit of the mask is the code of one of the 14 blocked types |
| `EventTap.BlocksOnlySubscribedTypes` | src/main.rs:429-446 | an event is blocked iff its type is subscribed and it is not the unlock chord; any unsubscribed type, including the tap-disabled notices, is passed on |

## Left out

- Window, overlay and close-button construction, screen geometry, and the
  console messages of `main` (src/main.rs:525-688). These are AppKit calls
  and printing.
- Drawing in `draw_close_button` (colours, bezier paths, arc angles). Only
  the progress value is modelled.
- The sleep-prevention assertion (`prevent_sleep`, `allow_sleep`). These are
  IOKit calls.
- Run-loop and timer plumbing:
  - creating and invalidating the 60 Hz timer;
  - `CFRunLoopRun` and `CFRunLoopStop`;
  - the redraw request at the end of the tick;
  - creating the tap and registering its run-loop source.

  The stop and re-enable calls become return values.
- The global `AtomicPtr` handle slots. The stored tap is a `tapStored`
  flag. Atomics and their memory orderings are not modelled.
- The clock (`Instant::now`, `elapsed`) and the Accessibility query. Clock
  readings are parameters.
- Converting the drag location from window coordinates to the button's
  coordinates is an AppKit call. Drag positions are taken as already
  converted.
- `HoldGesture.ProgressAt`: progress is an exact rational, not an `f64`
  quotient. Rounding is not modelled. The exit comparison is exact at
  nanosecond resolution, because a duration under 3 s never converts to
  3.0.
- `HoldGesture.HitTestBounds`: coordinates are exact reals. NaN and other
  floating-point behaviour of `CGFloat` are not modelled.
- Event types are the 19 named Core Graphics types. Raw type values outside
  that list are not modelled. The callback passes any such value through
  unchanged, like the named types it does not list.
- The unlock test checks only that the flags contain Command and Option,
  so extra modifiers are ignored (src/main.rs:414-417).
- The callback blocks the eleven mouse and scroll types it lists as well as
  the three keyboard types (src/main.rs:429-443).
- The console messages of the callback (src/main.rs:396, 418) and the
  redraw request at the end of each pointer handler (src/main.rs:194, 202,
  237) are output only; they do not change the modelled state.
