/** The global event tap: which event types it subscribes to, and what its
    callback does with each intercepted event. The callback's calls into the
    system (re-enabling the tap, stopping the run loop) are returned as an
    outcome instead of being made. */
module EventTap {
  import opened Wrappers

  /** The named Core Graphics event types. */
  datatype EventType =
    | Null
    | LeftMouseDown | LeftMouseUp | RightMouseDown | RightMouseUp | MouseMoved
    | LeftMouseDragged | RightMouseDragged
    | KeyDown | KeyUp | FlagsChanged
    | ScrollWheel | TabletPointer | TabletProximity
    | OtherMouseDown | OtherMouseUp | OtherMouseDragged
    | TapDisabledByTimeout | TapDisabledByUserInput

  /** The 32-bit value Core Graphics gives each event type. */
  function Code(t: EventType): bv32 {
    match t
    case Null => 0
    case LeftMouseDown => 1
    case LeftMouseUp => 2
    case RightMouseDown => 3
    case RightMouseUp => 4
    case MouseMoved => 5
    case LeftMouseDragged => 6
    case RightMouseDragged => 7
    case KeyDown => 10
    case KeyUp => 11
    case FlagsChanged => 12
    case ScrollWheel => 22
    case TabletPointer => 23
    case TabletProximity => 24
    case OtherMouseDown => 25
    case OtherMouseUp => 26
    case OtherMouseDragged => 27
    case TapDisabledByTimeout => 0xFFFF_FFFE
    case TapDisabledByUserInput => 0xFFFF_FFFF
  }

  /** Modifier flags an event can carry. */
  datatype Modifier =
    | AlphaShift | Shift | Control | Alternate | Command
    | Help | SecondaryFn | NumericPad | NonCoalesced

  /** Virtual keycode of the U key. */
  const KEY_U: int := 32

  /** An intercepted event: its type, the modifier flags set on it and the
      value of its keyboard keycode field. */
  datatype Event = Event(kind: EventType, flags: set<Modifier>, keycode: int)

  /** What the callback does with one event. */
  datatype Outcome =
    | ReEnableAndPass  // re-enable the stored tap, return the event
    | Unlock           // stop the run loop, return the event
    | Block            // return null: the event is swallowed
    | PassThrough      // return the event unchanged
  {
    /** The callback returns the event rather than null. */
    predicate PassesEvent() { !Block? }
  }

  /** The system reports that it disabled the tap. */
  predicate IsTapDisabled(t: EventType) {
    t == TapDisabledByTimeout || t == TapDisabledByUserInput
  }

  /** Command+Option+U: a key-down of U whose flags include both Command and
      Option (Alternate), whatever other modifiers are also held. */
  predicate IsUnlockChord(e: Event) {
    e.kind == KeyDown && Command in e.flags && Alternate in e.flags && e.keycode == KEY_U
  }

  /** The fourteen keyboard and mouse types the callback swallows. */
  predicate IsBlockedType(t: EventType) {
    || t == KeyDown || t == KeyUp || t == FlagsChanged
    || t == LeftMouseDown || t == LeftMouseUp
    || t == RightMouseDown || t == RightMouseUp
    || t == MouseMoved || t == LeftMouseDragged || t == RightMouseDragged
    || t == ScrollWheel
    || t == OtherMouseDown || t == OtherMouseUp || t == OtherMouseDragged
  }

  /** The callback's decision for event `e`; `tapStored` says whether the
      tap handle has been stored for the callback to re-enable. */
  function Decide(e: Event, tapStored: bool): (o: Outcome)
    ensures o == ReEnableAndPass <==> IsTapDisabled(e.kind) && tapStored
    ensures o == Unlock <==> IsUnlockChord(e)
    ensures o == Block <==> IsBlockedType(e.kind) && !IsUnlockChord(e)
    ensures o == PassThrough <==>
              (IsTapDisabled(e.kind) && !tapStored) ||
              (!IsTapDisabled(e.kind) && !IsBlockedType(e.kind))
    ensures IsTapDisabled(e.kind) ==> o.PassesEvent()
  {
    if e.kind == TapDisabledByTimeout || e.kind == TapDisabledByUserInput then
      if tapStored then ReEnableAndPass else PassThrough
    else if e.kind == KeyDown && Command in e.flags && Alternate in e.flags && e.keycode == KEY_U then
      Unlock
    else if IsBlockedType(e.kind) then
      Block
    else
      PassThrough
  }

  /** The unlock test asks only that Command and Option be among the flags:
      Shift, Control or any other extra modifier still unlocks, and the
      unlocking key-down is let through rather than swallowed. */
  lemma UnlockWithExtraModifiers(flags: set<Modifier>, tapStored: bool)
    requires Command in flags && Alternate in flags
    ensures Decide(Event(KeyDown, flags, KEY_U), tapStored) == Unlock
    ensures Decide(Event(KeyDown, flags, KEY_U), tapStored).PassesEvent()
  {
  }

  /** The chord is read only from key-downs: the same flags and keycode on a
      key-up or a flags-changed event are swallowed, and a key-down missing
      Command or Option, or of another key, is swallowed too. */
  lemma OnlyKeyDownUnlocks(flags: set<Modifier>, keycode: int, tapStored: bool)
    ensures Decide(Event(KeyUp, flags, keycode), tapStored) == Block
    ensures Decide(Event(FlagsChanged, flags, keycode), tapStored) == Block
    ensures Command !in flags || Alternate !in flags || keycode != KEY_U ==>
              Decide(Event(KeyDown, flags, keycode), tapStored) == Block
  {
  }

  // ------------------------------------------------------------- event mask

  /** Bit `k` of a 64-bit event mask. */
  predicate HasBit(m: bv64, k: bv32)
    requires k < 64
  {
    (m >> k) & 1 == 1
  }

  /** The mask the tap is created with: one `1 << code` term per listed
      type, or-ed together. Its value has bits 1 to 7, 10 to 12, 22 and 25
      to 27 set. */
  function EventMask(): (m: bv64)
    ensures m == 0x0E40_1CFE
  {
    (1 << Code(KeyDown))
    | (1 << Code(KeyUp))
    | (1 << Code(FlagsChanged))
    | (1 << Code(LeftMouseDown))
    | (1 << Code(LeftMouseUp))
    | (1 << Code(RightMouseDown))
    | (1 << Code(RightMouseUp))
    | (1 << Code(MouseMoved))
    | (1 << Code(LeftMouseDragged))
    | (1 << Code(RightMouseDragged))
    | (1 << Code(ScrollWheel))
    | (1 << Code(OtherMouseDown))
    | (1 << Code(OtherMouseUp))
    | (1 << Code(OtherMouseDragged))
  }

  /** Whether the tap subscribes to type `t`; the two tap-disabled types lie
      outside any 64-bit mask. */
  predicate Subscribed(t: EventType) {
    Code(t) < 64 && HasBit(EventMask(), Code(t))
  }

  /** The event type with a given code, if it is one of the named ones. */
  function TypeOfCode(k: bv32): (r: Option<EventType>)
    ensures r.Some? ==> Code(r.value) == k
  {
    if k == 0 then Some(Null)
    else if k == 1 then Some(LeftMouseDown)
    else if k == 2 then Some(LeftMouseUp)
    else if k == 3 then Some(RightMouseDown)
    else if k == 4 then Some(RightMouseUp)
    else if k == 5 then Some(MouseMoved)
    else if k == 6 then Some(LeftMouseDragged)
    else if k == 7 then Some(RightMouseDragged)
    else if k == 10 then Some(KeyDown)
    else if k == 11 then Some(KeyUp)
    else if k == 12 then Some(FlagsChanged)
    else if k == 22 then Some(ScrollWheel)
    else if k == 23 then Some(TabletPointer)
    else if k == 24 then Some(TabletProximity)
    else if k == 25 then Some(OtherMouseDown)
    else if k == 26 then Some(OtherMouseUp)
    else if k == 27 then Some(OtherMouseDragged)
    else if k == 0xFFFF_FFFE then Some(TapDisabledByTimeout)
    else if k == 0xFFFF_FFFF then Some(TapDisabledByUserInput)
    else None
  }

  /** Every named type is recovered from its code, so no two share one. */
  lemma CodeRoundTrip(t: EventType)
    ensures TypeOfCode(Code(t)) == Some(t)
  {
  }

  /** The tap subscribes to exactly the types its callback swallows: every
      subscribed type is one the callback blocks and every blocked type is
      subscribed. */
  lemma MaskMatchesBlockedTypes(t: EventType)
    ensures Subscribed(t) <==> IsBlockedType(t)
  {
  }

  /** The mask has no bit besides the codes of those fourteen types. */
  lemma MaskHasNoOtherBits(k: bv32)
    requires k < 64 && HasBit(EventMask(), k)
    ensures TypeOfCode(k).Some? && IsBlockedType(TypeOfCode(k).value)
  {
  }

  /** The callback swallows an event exactly when the tap subscribed to its
      type and it is not the unlock chord; whatever else reaches the callback
      (the tap-disabled notices, and any other type) is returned. */
  lemma {:induction false} BlocksOnlySubscribedTypes(e: Event, tapStored: bool)
    ensures Decide(e, tapStored) == Block <==> Subscribed(e.kind) && !IsUnlockChord(e)
    ensures !Subscribed(e.kind) ==> Decide(e, tapStored).PassesEvent()
  {
    MaskMatchesBlockedTypes(e.kind);
  }
}
