/**
The browser's input manager: raw mouse and keyboard input becomes a queue of
DOM events.  A monitor watches everything ever queued.
*/
module Input {
  import opened Wrappers
  import opened Ints

  type ElementId = nat

  /** The modifier keys an event reports. */
  datatype Held = Held(ctrl: bool, shift: bool, alt: bool, meta: bool)

  datatype Stroke = Stroke(keyCode: nat, charCode: nat, key: string, code: string, held: Held)

  datatype Event =
    | MouseDown(target: ElementId, button: nat, buttons: seq<bool>, held: Held)
    | MouseUp(target: ElementId, button: nat, buttons: seq<bool>, held: Held)
    | Click(target: ElementId, held: Held)
    | DblClick(target: ElementId)
    | MouseMove(target: ElementId, buttons: seq<bool>)
    | MouseEnter(target: ElementId)
    | MouseLeave(target: ElementId)
    | Wheel(target: ElementId)
    | Scroll(target: ElementId, deltaX: int, deltaY: int)
    | KeyDown(target: ElementId, stroke: Stroke)
    | KeyUp(target: ElementId, stroke: Stroke)
    | KeyPress(target: ElementId, stroke: Stroke)
    | Focus(target: ElementId)
    | Blur(target: ElementId)

  datatype Hit = Hit(element: ElementId, focusable: bool)

  // ----- the monitor -----

  /**
  `focus` is the element whose Focus has no Blur yet, `hover` the one whose
  MouseEnter has no MouseLeave yet (0 for none), `ok` that no event so far was
  out of turn.
  */
  datatype Monitor = Monitor(
    ok: bool, focus: Option<ElementId>, hover: ElementId, clicks: nat, doubles: nat, lastClick: Option<ElementId>)

  /** Whether the event may come next. */
  predicate InTurn(m: Monitor, e: Event) {
    match e
    case Focus(_) => m.focus.None?
    case Blur(x) => m.focus == Some(x)
    case MouseEnter(x) => x != 0 && m.hover == 0
    case MouseLeave(x) => x == m.hover
    case DblClick(x) => m.lastClick == Some(x) && 2 * (m.doubles + 1) <= m.clicks
    case _ => true
  }

  function Observe(m: Monitor, e: Event): Monitor {
    var n := m.(ok := m.ok && InTurn(m, e), lastClick := if e.Click? then Some(e.target) else None);
    match e
    case Focus(x) => n.(focus := Some(x))
    case Blur(_) => n.(focus := None)
    case MouseEnter(x) => n.(hover := x)
    case MouseLeave(_) => n.(hover := 0)
    case Click(_, _) => n.(clicks := m.clicks + 1)
    case DblClick(_) => n.(doubles := m.doubles + 1)
    case _ => n
  }

  /** Events the monitor lets pass at any time. */
  predicate Plain(e: Event) {
    e.MouseDown? || e.MouseUp? || e.MouseMove? || e.Wheel? || e.Scroll? || e.KeyDown? || e.KeyUp? || e.KeyPress?
  }

  lemma ObservePlain(m: Monitor, e: Event)
    requires Plain(e)
    ensures Observe(m, e) == m.(lastClick := None)
  {
  }

  lemma ObserveClicks(m: Monitor, click: Event, target: ElementId)
    requires click.Click? && click.target == target
    ensures Observe(m, click) == m.(clicks := m.clicks + 1, lastClick := Some(target))
    ensures m.lastClick == Some(target) && 2 * (m.doubles + 1) <= m.clicks ==>
      Observe(m, DblClick(target)) == m.(doubles := m.doubles + 1, lastClick := None)
  {
  }

  function Watch(trace: seq<Event>): Monitor {
    if trace == [] then Monitor(true, None, 0, 0, 0, None)
    else Observe(Watch(trace[..|trace| - 1]), trace[|trace| - 1])
  }

  lemma WatchSnoc(trace: seq<Event>, e: Event)
    ensures Watch(trace + [e]) == Observe(Watch(trace), e)
  {
    assert (trace + [e])[..|trace|] == trace;
  }

  lemma {:induction false} PrefixInTurn(trace: seq<Event>, k: nat)
    requires Watch(trace).ok && k <= |trace|
    ensures Watch(trace[..k]).ok
    ensures k < |trace| ==> InTurn(Watch(trace[..k]), trace[k])
    ensures k < |trace| ==> Watch(trace[..k + 1]) == Observe(Watch(trace[..k]), trace[k])
    decreases |trace|
  {
    if k < |trace| {
      var init := trace[..|trace| - 1];
      if k < |trace| - 1 {
        PrefixInTurn(init, k);
        assert init[..k] == trace[..k] && init[..k + 1] == trace[..k + 1];
      } else {
        assert trace[..k] == init && trace[..k + 1] == trace;
      }
    } else {
      assert trace[..k] == trace;
    }
  }

  /** While nothing blurs it, the focused element of a watched trace stays focused. */
  lemma {:induction false} FocusStays(trace: seq<Event>, i: nat, j: nat)
    requires Watch(trace).ok && i < j <= |trace| && trace[i].Focus?
    requires forall k :: i < k < j ==> trace[k] != Blur(trace[i].target)
    ensures Watch(trace[..j]).focus == Some(trace[i].target)
    decreases j
  {
    PrefixInTurn(trace, j - 1);
    if j > i + 1 { FocusStays(trace, i, j - 1); }
  }

  /** Until something focuses it again, an element does not have the focus after a Blur. */
  lemma {:induction false} BlurStays(trace: seq<Event>, i: nat, j: nat, x: ElementId)
    requires Watch(trace).ok && i < j <= |trace| && trace[i].Blur?
    requires forall k :: i < k < j ==> trace[k] != Focus(x)
    ensures Watch(trace[..j]).focus != Some(x)
    decreases j
  {
    PrefixInTurn(trace, j - 1);
    if j > i + 1 { BlurStays(trace, i, j - 1, x); }
  }

  /**
  Between two Focus events the first element is blurred, and between two Blur
  events the second element is focused.
  */
  lemma FocusAlternates(trace: seq<Event>, i: nat, j: nat)
    requires Watch(trace).ok && i < j < |trace|
    ensures trace[i].Focus? && trace[j].Focus? ==> exists k :: i < k < j && trace[k] == Blur(trace[i].target)
    ensures trace[i].Blur? && trace[j].Blur? ==> exists k :: i < k < j && trace[k] == Focus(trace[j].target)
  {
    PrefixInTurn(trace, j);
    if trace[i].Focus? && trace[j].Focus? && forall k :: i < k < j ==> trace[k] != Blur(trace[i].target) {
      FocusStays(trace, i, j);
    }
    if trace[i].Blur? && trace[j].Blur? && forall k :: i < k < j ==> trace[k] != Focus(trace[j].target) {
      BlurStays(trace, i, j, trace[j].target);
    }
  }

  lemma {:induction false} HoverStays(trace: seq<Event>, i: nat, j: nat)
    requires Watch(trace).ok && i < j <= |trace| && trace[i].MouseEnter?
    requires forall k :: i < k < j ==> trace[k] != MouseLeave(trace[i].target)
    ensures Watch(trace[..j]).hover == trace[i].target != 0
    decreases j
  {
    PrefixInTurn(trace, j - 1);
    if j > i + 1 { HoverStays(trace, i, j - 1); }
  }

  lemma {:induction false} LeaveStays(trace: seq<Event>, i: nat, j: nat, x: ElementId)
    requires Watch(trace).ok && i < j <= |trace| && trace[i].MouseLeave? && x != 0
    requires forall k :: i < k < j ==> trace[k] != MouseEnter(x)
    ensures Watch(trace[..j]).hover != x
    decreases j
  {
    PrefixInTurn(trace, j - 1);
    if j > i + 1 { LeaveStays(trace, i, j - 1, x); }
  }

  /**
  Between two MouseEnter events the first element is left, and between two
  MouseLeave events the second element, unless it is 0 for none, is entered.
  */
  lemma HoverAlternates(trace: seq<Event>, i: nat, j: nat)
    requires Watch(trace).ok && i < j < |trace|
    ensures trace[i].MouseEnter? && trace[j].MouseEnter? ==>
      exists k :: i < k < j && trace[k] == MouseLeave(trace[i].target)
    ensures trace[i].MouseLeave? && trace[j].MouseLeave? && trace[j].target != 0 ==>
      exists k :: i < k < j && trace[k] == MouseEnter(trace[j].target)
  {
    PrefixInTurn(trace, j);
    if trace[i].MouseEnter? && trace[j].MouseEnter?
       && forall k :: i < k < j ==> trace[k] != MouseLeave(trace[i].target) {
      HoverStays(trace, i, j);
    }
    if trace[i].MouseLeave? && trace[j].MouseLeave? && trace[j].target != 0
       && forall k :: i < k < j ==> trace[k] != MouseEnter(trace[j].target) {
      LeaveStays(trace, i, j, trace[j].target);
    }
  }

  function Clicks(trace: seq<Event>): nat {
    if trace == [] then 0 else Clicks(trace[..|trace| - 1]) + (if trace[|trace| - 1].Click? then 1 else 0)
  }

  function Doubles(trace: seq<Event>): nat {
    if trace == [] then 0 else Doubles(trace[..|trace| - 1]) + (if trace[|trace| - 1].DblClick? then 1 else 0)
  }

  /** At every point of a watched trace there have been two clicks for each double click. */
  lemma {:induction false} TwoClicksPerDouble(trace: seq<Event>)
    requires Watch(trace).ok
    ensures 2 * Doubles(trace) <= Clicks(trace)
    ensures Watch(trace).clicks == Clicks(trace) && Watch(trace).doubles == Doubles(trace)
  {
    if trace != [] { TwoClicksPerDouble(trace[..|trace| - 1]); }
  }

  // ----- buttons -----

  /** Whether the last event seen for a mask bit was a press; a button shares the bit of its number modulo 8. */
  function LastPressed(raw: seq<(nat, bool)>, bit: nat): bool {
    if raw == [] then false
    else if raw[|raw| - 1].0 % 8 == bit then raw[|raw| - 1].1
    else LastPressed(raw[..|raw| - 1], bit)
  }

  ghost predicate MaskMatches(mask: seq<bool>, raw: seq<(nat, bool)>) {
    |mask| == 8 && forall b :: 0 <= b < 8 ==> mask[b] == LastPressed(raw, b)
  }

  lemma ButtonUpdates(mask: seq<bool>, raw: seq<(nat, bool)>, button: nat, pressed: bool)
    requires MaskMatches(mask, raw)
    ensures MaskMatches(mask[button % 8 := pressed], raw + [(button, pressed)])
  {
    assert (raw + [(button, pressed)])[..|raw|] == raw;
  }

  // ----- modifier keys -----

  datatype Modifiers = Modifiers(ctrl: bool, alt: bool, shift: bool, meta: bool, capsLock: bool)

  const LEFT_CTRL := 0x1D
  const LEFT_SHIFT := 0x2A
  const RIGHT_SHIFT := 0x36
  const LEFT_ALT := 0x38
  const CAPS_LOCK := 0x3A

  function UpdateModifiers(m: Modifiers, scancode: nat, pressed: bool): Modifiers {
    if scancode == LEFT_CTRL then m.(ctrl := pressed)
    else if scancode == LEFT_SHIFT || scancode == RIGHT_SHIFT then m.(shift := pressed)
    else if scancode == LEFT_ALT then m.(alt := pressed)
    else if scancode == CAPS_LOCK && pressed then m.(capsLock := !m.capsLock)
    else m
  }

  function HeldOf(m: Modifiers): Held {
    Held(m.ctrl, m.shift, m.alt, m.meta)
  }

  /** Whether the last event seen for one of two keys was a press. */
  function LastDown(keys: seq<(nat, bool)>, a: nat, b: nat): bool {
    if keys == [] then false
    else if keys[|keys| - 1].0 == a || keys[|keys| - 1].0 == b then keys[|keys| - 1].1
    else LastDown(keys[..|keys| - 1], a, b)
  }

  function Presses(keys: seq<(nat, bool)>, a: nat): nat {
    if keys == [] then 0 else Presses(keys[..|keys| - 1], a) + (if keys[|keys| - 1] == (a, true) then 1 else 0)
  }

  /** What the modifiers must be after a history of key events; one shift released releases both, nothing sets meta. */
  function ModifiersAfter(keys: seq<(nat, bool)>): Modifiers {
    Modifiers(
      LastDown(keys, LEFT_CTRL, LEFT_CTRL), LastDown(keys, LEFT_ALT, LEFT_ALT), LastDown(keys, LEFT_SHIFT, RIGHT_SHIFT),
      false, Presses(keys, CAPS_LOCK) % 2 == 1)
  }

  lemma ModifiersFollow(keys: seq<(nat, bool)>, scancode: nat, pressed: bool)
    ensures ModifiersAfter(keys + [(scancode, pressed)]) == UpdateModifiers(ModifiersAfter(keys), scancode, pressed)
  {
    assert (keys + [(scancode, pressed)])[..|keys|] == keys;
  }

  /** What the events report: the last event of each modifier key; nothing reports a held meta key. */
  lemma HeldIs(keys: seq<(nat, bool)>)
    ensures HeldOf(ModifiersAfter(keys))
         == Held(LastDown(keys, 0x1D, 0x1D), LastDown(keys, 0x2A, 0x36), LastDown(keys, 0x38, 0x38), false)
    ensures ModifiersAfter(keys).capsLock <==> Presses(keys, 0x3A) % 2 == 1
  {
    hide LastDown, Presses;
  }

  // ----- the keyboard layout -----

  const TOP_ROW := "qwertyuiop"
  const HOME_ROW := "asdfghjkl"
  const BOTTOM_ROW := "zxcvbnm"

  function Letter(scancode: nat): (c: Option<char>)
    ensures c.Some? ==> 'a' <= c.value <= 'z'
  {
    if 0x10 <= scancode <= 0x19 then Some(TOP_ROW[scancode - 0x10])
    else if 0x1E <= scancode <= 0x26 then Some(HOME_ROW[scancode - 0x1E])
    else if 0x2C <= scancode <= 0x32 then Some(BOTTOM_ROW[scancode - 0x2C])
    else None
  }

  function Upper(c: char): char
    requires 'a' <= c <= 'z'
  {
    (c as int - 32) as char
  }

  /** Keys that are neither letters nor digits: virtual key, key and code. */
  function NamedKey(scancode: nat): (nat, string, string) {
    match scancode
    case 0x01 => (27, "Escape", "Escape")
    case 0x0E => (8, "Backspace", "Backspace")
    case 0x0F => (9, "Tab", "Tab")
    case 0x1C => (13, "Enter", "Enter")
    case 0x1D => (17, "Control", "ControlLeft")
    case 0x2A => (16, "Shift", "ShiftLeft")
    case 0x36 => (16, "Shift", "ShiftRight")
    case 0x38 => (18, "Alt", "AltLeft")
    case 0x39 => (32, " ", "Space")
    case 0x3A => (20, "CapsLock", "CapsLock")
    case 0x3B => (112, "F1", "F1")
    case 0x3C => (113, "F2", "F2")
    case 0x3D => (114, "F3", "F3")
    case 0x3E => (115, "F4", "F4")
    case 0x3F => (116, "F5", "F5")
    case 0x40 => (117, "F6", "F6")
    case 0x41 => (118, "F7", "F7")
    case 0x42 => (119, "F8", "F8")
    case 0x43 => (120, "F9", "F9")
    case 0x44 => (121, "F10", "F10")
    case 0x57 => (122, "F11", "F11")
    case 0x58 => (123, "F12", "F12")
    case 0x48 => (38, "ArrowUp", "ArrowUp")
    case 0x4B => (37, "ArrowLeft", "ArrowLeft")
    case 0x4D => (39, "ArrowRight", "ArrowRight")
    case 0x50 => (40, "ArrowDown", "ArrowDown")
    case 0x47 => (36, "Home", "Home")
    case 0x4F => (35, "End", "End")
    case 0x49 => (33, "PageUp", "PageUp")
    case 0x51 => (34, "PageDown", "PageDown")
    case 0x52 => (45, "Insert", "Insert")
    case 0x53 => (46, "Delete", "Delete")
    case _ => (0, "Unidentified", "Unidentified")
  }

  const DIGIT_KEYS := "1234567890"
  const SHIFTED_DIGIT_KEYS := "!@#$%^&*()"

  /** `scancode_to_key`: virtual key, key and code. */
  function KeyOf(scancode: nat, m: Modifiers): (nat, string, string) {
    if Letter(scancode).Some? then
      var c := Letter(scancode).value;
      (Upper(c) as int, [if m.shift != m.capsLock then Upper(c) else c], "Key" + [Upper(c)])
    else if 0x02 <= scancode <= 0x0B then
      var d := DIGIT_KEYS[scancode - 0x02];
      (d as int, [if m.shift then SHIFTED_DIGIT_KEYS[scancode - 0x02] else d], "Digit" + [d])
    else NamedKey(scancode)
  }

  predicate Printable(vkey: nat) {
    vkey == 32 || 48 <= vkey <= 57 || 65 <= vkey <= 90 || 186 <= vkey <= 192 || 219 <= vkey <= 222
  }

  const SHIFTED_DIGITS := ")!@#$%^&*("

  /** `key_to_char`. */
  function CharCode(vkey: nat, m: Modifiers): nat {
    if vkey == 32 then 32
    else if 48 <= vkey <= 57 then (if m.shift then SHIFTED_DIGITS[vkey - 48] as int else vkey)
    else if 65 <= vkey <= 90 then (if m.shift != m.capsLock then vkey else vkey + 32)
    else 0
  }

  /** Exactly the keys with a one-character name are printable, and a KeyPress carries that character's code. */
  lemma KeyAndCharAgree(scancode: nat, m: Modifiers)
    ensures var (vkey, key, code) := KeyOf(scancode, m);
      && (Printable(vkey) <==> |key| == 1)
      && (Printable(vkey) ==> key[0] as int == CharCode(vkey, m))
  {
    if 0x02 <= scancode <= 0x0B {
      DigitsAgree(scancode - 0x02);
    } else if Letter(scancode).None? {
      NamedIsPlain(scancode);
    }
  }

  lemma DigitsAgree(i: nat)
    requires i < 10
    ensures 48 <= DIGIT_KEYS[i] as int <= 57
    ensures SHIFTED_DIGIT_KEYS[i] == SHIFTED_DIGITS[DIGIT_KEYS[i] as int - 48]
  {
  }

  /** Of the named keys only the space bar is printable. */
  lemma NamedIsPlain(scancode: nat)
    ensures var (vkey, key, code) := NamedKey(scancode);
      if scancode == 0x39 then vkey == 32 && key == " " else !Printable(vkey) && |key| > 1
  {
  }

  /**
  Over any history of key events, a letter key gives its upper-case letter
  exactly when one of shift and caps lock is on, and its key code is the
  upper-case letter's either way.
  */
  lemma LettersFollowShift(keys: seq<(nat, bool)>, scancode: nat)
    requires Letter(scancode).Some?
    ensures var (vkey, key, code) := KeyOf(scancode, ModifiersAfter(keys));
      && vkey == Letter(scancode).value as int - 32
      && key == (if LastDown(keys, 0x2A, 0x36) != (Presses(keys, 0x3A) % 2 == 1) then [vkey as char]
                 else [Letter(scancode).value])
      && code == "Key" + [vkey as char]
  {
    hide LastDown, Presses, Letter;
  }

  /** The letter rows of the layout, and the digit row with what shift makes of it. */
  lemma RowsAre(i: nat)
    ensures i < 10 ==> Letter(0x10 + i) == Some("qwertyuiop"[i])
    ensures i < 9 ==> Letter(0x1E + i) == Some("asdfghjkl"[i])
    ensures i < 7 ==> Letter(0x2C + i) == Some("zxcvbnm"[i])
  {
  }

  lemma DigitRowIs(i: nat, m: Modifiers)
    requires i < 10
    ensures var d := "1234567890"[i];
      KeyOf(0x02 + i, m) == (d as int, [if m.shift then "!@#$%^&*()"[i] else d], "Digit" + [d])
  {
  }

  /** What one key event queues: the stroke, and for a printable key pressed a KeyPress with its character. */
  function KeyEvents(target: ElementId, scancode: nat, pressed: bool, m: Modifiers): seq<Event> {
    var (vkey, key, code) := KeyOf(scancode, m);
    var stroke := Stroke(vkey, 0, key, code, HeldOf(m));
    if !pressed then [KeyUp(target, stroke)]
    else [KeyDown(target, stroke)]
         + (if Printable(vkey) then [KeyPress(target, stroke.(charCode := CharCode(vkey, m)))] else [])
  }

  /**
  A press queues a KeyDown and a release a KeyUp, with no character; after the
  press of a key with a one-character name comes a KeyPress with its code.
  */
  lemma KeyEventsAre(target: ElementId, scancode: nat, pressed: bool, m: Modifiers)
    ensures var (vkey, key, code) := KeyOf(scancode, m);
      var events := KeyEvents(target, scancode, pressed, m);
      && events[0] == (if pressed then KeyDown(target, Stroke(vkey, 0, key, code, HeldOf(m)))
                       else KeyUp(target, Stroke(vkey, 0, key, code, HeldOf(m))))
      && events[1..] == if pressed && |key| == 1
                        then [KeyPress(target, Stroke(vkey, key[0] as int, key, code, HeldOf(m)))] else []
  {
    hide KeyOf, CharCode, Printable;
    KeyAndCharAgree(scancode, m);
  }

  // ----- distances -----

  function Distance(a: int, b: int): int {
    var d: int := ToI32(a - b);
    if d < 0 then ToI32(-d) else d
  }

  function Gap(a: int, b: int): nat {
    if a < b then b - a else a - b
  }

  /** The distance is the gap exactly while the gap is an `i32`. */
  lemma DistanceIff(a: I32, b: I32)
    ensures Distance(a, b) == Gap(a, b) <==> Gap(a, b) < 0x8000_0000
  {
  }

  /** Below 5 it counts gaps of at most 4, and by wrapping a gap of exactly 2^31 or of nearly 2^32. */
  lemma CloseIff(a: I32, b: I32)
    ensures Distance(a, b) < 5 <==> Gap(a, b) <= 4 || Gap(a, b) == 0x8000_0000 || Gap(a, b) >= 0xFFFF_FFFC
  {
  }

  // ----- what each input queues -----

  /** Blur the old element, focus the new one; nothing when they are the same. */
  function FocusEvents(before: Option<ElementId>, after: Option<ElementId>): seq<Event> {
    if before == after then [] else
    (if before.Some? then [Blur(before.value)] else []) + (if after.Some? then [Focus(after.value)] else [])
  }

  function HoverEvents(before: Option<ElementId>, target: ElementId): seq<Event> {
    if before == Some(target) then [] else
    (if before.Some? then [MouseLeave(before.value)] else []) + (if target != 0 then [MouseEnter(target)] else [])
  }

  /** The click counter after a click, and whether that click completes a double click. */
  function ClickStep(count: nat, near: bool): (nat, bool) {
    var n := if near then count + 1 else 1;
    (if n == 2 then 0 else n, n == 2)
  }

  function ClickEvents(count: nat, near: bool, target: ElementId, held: Held): seq<Event> {
    [Click(target, held)] + (if ClickStep(count, near).1 then [DblClick(target)] else [])
  }

  /** The element a release moves the focus to: the one hit, if it is focusable. */
  function FocusAfterClick(focused: Option<ElementId>, hit: Option<Hit>): Option<ElementId> {
    if hit.Some? && hit.value.focusable then Some(hit.value.element) else focused
  }

  /** The counter and the number of double clicks after `m` more clicks, each near the one before. */
  function NearClicks(count: nat, m: nat): (nat, nat) {
    if m == 0 then (count, 0) else
    var (c, doubles) := NearClicks(count, m - 1);
    var (c', double) := ClickStep(c, true);
    (c', doubles + if double then 1 else 0)
  }

  /** In a chain of `m + 1` clicks, the first far from the last chain, every second one is a double click. */
  lemma {:induction false} EverySecondClickDoubles(count: nat, m: nat)
    requires count <= 1
    ensures NearClicks(ClickStep(count, false).0, m) == ((m + 1) % 2, (m + 1) / 2)
  {
    if m > 0 { EverySecondClickDoubles(count, m - 1); }
  }

  class InputManager {
    var modifiers: Modifiers
    var mouseX: I32
    var mouseY: I32
    var mouseButtons: seq<bool>
    var focused: Option<ElementId>
    var hovered: Option<ElementId>
    var lastClickTime: nat
    var lastClickX: I32
    var lastClickY: I32
    var clickCount: nat
    const doubleClickThreshold: nat
    var currentTime: nat
    var eventQueue: seq<Event>
    /** Events already handed out, every raw button event and every raw key event, in order. */
    ghost var polled: seq<Event>
    ghost var raw: seq<(nat, bool)>
    ghost var keys: seq<(nat, bool)>

    /** Everything ever queued. */
    ghost function Trace(): seq<Event>
      reads this
    {
      polled + eventQueue
    }

    ghost predicate Valid()
      reads this
    {
      && clickCount <= 1 && doubleClickThreshold == 500
      && MaskMatches(mouseButtons, raw)
      && modifiers == ModifiersAfter(keys)
      && Agrees(Watch(Trace()))
    }

    ghost predicate Agrees(m: Monitor)
      reads this
    {
      && m.ok
      && m.focus == focused
      && m.hover == (if hovered.Some? then hovered.value else 0)
      && 2 * m.doubles + clickCount <= m.clicks
    }

    /** A click now at the given position follows the last one closely enough. */
    predicate NearAt(x: I32, y: I32)
      reads this
    {
      && (if currentTime < lastClickTime then 0 else currentTime - lastClickTime) < doubleClickThreshold
      && Distance(x, lastClickX) < 5 && Distance(y, lastClickY) < 5
    }

    /** A click is near the last one within 500 milliseconds and 4 pixels each way, as long as no difference wraps. */
    lemma NearIff(x: I32, y: I32)
      requires Valid() && Gap(x, lastClickX) < 0x8000_0000 && Gap(y, lastClickY) < 0x8000_0000
      ensures NearAt(x, y) <==> currentTime < lastClickTime + 500 && Gap(x, lastClickX) <= 4 && Gap(y, lastClickY) <= 4
    {
      hide Distance, Watch, MaskMatches, ModifiersAfter;
      CloseIff(x, lastClickX);
      CloseIff(y, lastClickY);
    }

    constructor ()
      ensures Valid() && Trace() == [] && raw == [] && keys == [] && doubleClickThreshold == 500
    {
      modifiers := Modifiers(false, false, false, false, false);
      mouseX, mouseY, mouseButtons := 0, 0, seq(8, _ => false);
      focused, hovered := None, None;
      lastClickTime, lastClickX, lastClickY, clickCount, doubleClickThreshold, currentTime := 0, 0, 0, 0, 500, 0;
      eventQueue, polled, raw, keys := [], [], [], [];
    }

    method SetTime(time: nat)
      requires Valid()
      modifies this
      ensures Valid() && Trace() == old(Trace()) && raw == old(raw) && keys == old(keys)
    {
      currentTime := time;
    }

    /** Queue an event. */
    method Emit(e: Event)
      modifies this`eventQueue
      ensures Trace() == old(Trace()) + [e] && Watch(Trace()) == Observe(old(Watch(Trace())), e)
      ensures Plain(e) ==> Watch(Trace()) == old(Watch(Trace())).(lastClick := None)
    {
      ghost var before := Trace();
      eventQueue := eventQueue + [e];
      assert Trace() == before + [e];
      WatchSnoc(before, e);
      if Plain(e) { ObservePlain(Watch(before), e); }
    }

    method ProcessKeyboard(scancode: nat, pressed: bool)
      requires Valid()
      modifies this
      ensures Valid() && keys == old(keys) + [(scancode, pressed)] && raw == old(raw) && focused == old(focused)
      ensures Trace() == old(Trace())
        + KeyEvents(if focused.Some? then focused.value else 0, scancode, pressed, modifiers)
      ensures Trace()[|old(Trace())|].KeyDown? == pressed && Trace()[|old(Trace())|].KeyUp? == !pressed
    {
      hide Watch, Observe, MaskMatches, LastPressed, ModifiersAfter, KeyOf, CharCode, Printable;
      modifiers := UpdateModifiers(modifiers, scancode, pressed);
      keys := keys + [(scancode, pressed)];
      ModifiersFollow(old(keys), scancode, pressed);
      var (vkey, key, code) := KeyOf(scancode, modifiers);
      var stroke := Stroke(vkey, 0, key, code, HeldOf(modifiers));
      var target := if focused.Some? then focused.value else 0;
      ghost var before := Trace();
      Emit(if pressed then KeyDown(target, stroke) else KeyUp(target, stroke));
      if pressed && Printable(vkey) {
        Emit(KeyPress(target, stroke.(charCode := CharCode(vkey, modifiers))));
      }
    }

    method ProcessMouseButton(button: nat, pressed: bool, x: I32, y: I32, hit: Option<Hit>)
      requires Valid() && button < 256
      modifies this
      ensures Valid() && raw == old(raw) + [(button, pressed)] && keys == old(keys)
      ensures forall b :: 0 <= b < 8 ==> mouseButtons[b] == LastPressed(raw, b)
      ensures var target := if hit.Some? then hit.value.element else 0;
        (pressed || button != 0) ==>
        && Trace() == old(Trace()) + [if pressed then MouseDown(target, button, mouseButtons, HeldOf(modifiers))
                                      else MouseUp(target, button, mouseButtons, HeldOf(modifiers))]
        && focused == old(focused) && clickCount == old(clickCount)
      ensures var target := if hit.Some? then hit.value.element else 0;
        !pressed && button == 0 ==>
        && Trace() == old(Trace()) + [MouseUp(target, 0, mouseButtons, HeldOf(modifiers))]
                      + ClickEvents(old(clickCount), old(NearAt(x, y)), target, HeldOf(modifiers))
                      + FocusEvents(old(focused), FocusAfterClick(old(focused), hit))
        && clickCount == ClickStep(old(clickCount), old(NearAt(x, y))).0
        && focused == if hit.Some? && hit.value.focusable then Some(hit.value.element) else old(focused)
    {
      hide Watch, Observe, Distance, ClickStep, ClickEvents, LastPressed, ModifiersAfter;
      mouseX, mouseY := x, y;
      var target := if hit.Some? then hit.value.element else 0;
      mouseButtons := mouseButtons[button % 8 := pressed];
      raw := raw + [(button, pressed)];
      ButtonUpdates(old(mouseButtons), old(raw), button, pressed);
      var held := HeldOf(modifiers);
      Emit(if pressed then MouseDown(target, button, mouseButtons, held)
           else MouseUp(target, button, mouseButtons, held));
      if !pressed && button == 0 {
        GenerateClick(target);
        if hit.Some? && hit.value.focusable && focused != Some(hit.value.element) {
          SetFocus(Some(hit.value.element));
        }
      }
    }

    method GenerateClick(target: ElementId)
      requires Valid()
      modifies this
      ensures Valid() && raw == old(raw) && keys == old(keys)
      ensures mouseButtons == old(mouseButtons) && focused == old(focused)
      ensures Trace()
        == old(Trace()) + ClickEvents(old(clickCount), old(NearAt(mouseX, mouseY)), target, HeldOf(modifiers))
      ensures clickCount == ClickStep(old(clickCount), old(NearAt(mouseX, mouseY))).0
      ensures lastClickTime == currentTime == old(currentTime)
      ensures lastClickX == mouseX == old(mouseX) && lastClickY == mouseY == old(mouseY)
    {
      hide Watch, Observe, Distance, MaskMatches, LastPressed, ModifiersAfter;
      var timeDiff := if currentTime < lastClickTime then 0 else currentTime - lastClickTime;
      var distX, distY := Distance(mouseX, lastClickX), Distance(mouseY, lastClickY);
      var near := timeDiff < doubleClickThreshold && distX < 5 && distY < 5;
      assert near == NearAt(mouseX, mouseY);
      hide NearAt;
      clickCount := if near then clickCount + 1 else 1;
      lastClickTime, lastClickX, lastClickY := currentTime, mouseX, mouseY;
      ghost var before := Trace();
      var click := Click(target, HeldOf(modifiers));
      ObserveClicks(Watch(Trace()), click, target);
      Emit(click);
      assert before + [click] == before + ([click] + []);
      if clickCount == 2 {
        ObserveClicks(Watch(Trace()), click, target);
        Emit(DblClick(target));
        assert (before + [click]) + [DblClick(target)] == before + ([click] + [DblClick(target)]);
        clickCount := 0;
      }
    }

    method ProcessMouseMove(x: I32, y: I32, hit: Option<Hit>)
      requires Valid()
      modifies this
      ensures Valid() && raw == old(raw) && keys == old(keys)
      ensures hovered == Some(if hit.Some? then hit.value.element else 0)
      ensures var target := if hit.Some? then hit.value.element else 0;
        Trace() == old(Trace()) + [MouseMove(target, mouseButtons)] + HoverEvents(old(hovered), target)
    {
      hide Watch, MaskMatches, LastPressed, ModifiersAfter;
      mouseX, mouseY := x, y;
      var target := if hit.Some? then hit.value.element else 0;
      Emit(MouseMove(target, mouseButtons));
      if hovered != Some(target) {
        if hovered.Some? {
          Emit(MouseLeave(hovered.value));
        }
        if target != 0 {
          Emit(MouseEnter(target));
        }
        hovered := Some(target);
      }
    }

    method ProcessMouseWheel(deltaX: int, deltaY: int, x: I32, y: I32, hit: Option<Hit>)
      requires Valid()
      modifies this
      ensures Valid() && raw == old(raw) && keys == old(keys)
      ensures var target := if hit.Some? then hit.value.element else 0;
        Trace() == old(Trace()) + [Wheel(target), Scroll(target, deltaX, deltaY)]
    {
      hide Watch, Observe, MaskMatches, LastPressed, ModifiersAfter;
      mouseX, mouseY := x, y;
      var target := if hit.Some? then hit.value.element else 0;
      Emit(Wheel(target));
      Emit(Scroll(target, deltaX, deltaY));
    }

    method SetFocus(element: Option<ElementId>)
      requires Valid()
      modifies this
      ensures Valid() && raw == old(raw) && keys == old(keys) && focused == element
      ensures Trace() == old(Trace()) + FocusEvents(old(focused), element)
      ensures mouseButtons == old(mouseButtons) && clickCount == old(clickCount)
    {
      hide Watch, MaskMatches, LastPressed, ModifiersAfter;
      if focused == element {
        return;
      }
      if focused.Some? {
        Emit(Blur(focused.value));
      }
      if element.Some? {
        Emit(Focus(element.value));
      }
      focused := element;
    }

    method PollEvents() returns (events: seq<Event>)
      requires Valid()
      modifies this
      ensures Valid() && events == old(eventQueue) && eventQueue == []
      ensures Trace() == old(Trace()) && polled == old(polled) + events && raw == old(raw) && keys == old(keys)
    {
      events := eventQueue;
      polled := polled + eventQueue;
      eventQueue := [];
      assert Trace() == old(Trace());
    }
  }
}
