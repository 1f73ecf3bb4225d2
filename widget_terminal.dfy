/**
 * The input half of the terminal widget: it turns raw key, character, mouse
 * and paste input into the events a computer receives. The computer's input
 * handler is modelled as the log `events`, to which every call is appended.
 */
module Widgets {
  import opened Wrappers

  // GLFW key codes and modifier bits used by the widget.
  const KEY_ESCAPE := 256
  const KEY_R := 82
  const KEY_S := 83
  const KEY_T := 84
  const KEY_V := 86
  const KEY_LEFT_CONTROL := 341
  const KEY_RIGHT_CONTROL := 345
  const MOD_CONTROL := 2

  /** The longest clipboard text a single paste delivers. */
  const PASTE_LIMIT := 512

  /** A hold-to-trigger timer that is not running. */
  const DISARMED: real := -1.0

  /** The initial `size()` of the held-key bit set, created for 256 keys. */
  const INITIAL_KEY_SPACE := 256

  /** One call on the computer's input handler. */
  datatype Event =
    | QueueEvent(name: string, args: seq<string>)
    | KeyDown(key: int, repeat: bool)
    | KeyUp(key: int)
    | MouseClick(button: int, x: int, y: int)
    | MouseUp(button: int, x: int, y: int)
    | MouseDrag(button: int, x: int, y: int)
    | MouseScroll(direction: int, x: int, y: int)

  /** What the widget reads from its terminal at the time of an event: its size in cells and whether it is a colour terminal. */
  datatype TermView = TermView(width: int, height: int, colour: bool)

  /** `(modifiers & MOD_CONTROL) != 0` on a two's-complement `int`: bit 1 of `modifiers`. */
  predicate HasControl(modifiers: int) {
    (modifiers / MOD_CONTROL) % 2 == 1
  }

  /** Printable characters in byte range, the only ones `charTyped` forwards. */
  predicate IsPrintable(ch: char) {
    32 <= ch as int <= 126 || 160 <= ch as int <= 255
  }

  /** `s.indexOf(c)`: the first index holding `c`, or -1 when there is none. */
  function IndexOf(s: string, c: char): (r: int)
    ensures -1 <= r < |s|
    ensures r == -1 <==> c !in s
    ensures r >= 0 ==> s[r] == c && c !in s[..r]
  {
    if |s| == 0 then -1
    else if s[0] == c then 0
    else
      var k := IndexOf(s[1..], c);
      if k < 0 then -1 else
        assert s[..k + 1] == [s[0]] + s[1..][..k];
        k + 1
  }

  /** The clipboard up to, not including, its first `'\r'` or `'\n'`. */
  function ClipAtNewline(clipboard: string): (r: string)
    ensures r <= clipboard
    ensures '\r' !in r && '\n' !in r
    ensures |r| < |clipboard| ==> clipboard[|r|] == '\r' || clipboard[|r|] == '\n'
  {
    var cr := IndexOf(clipboard, '\r');
    var lf := IndexOf(clipboard, '\n');
    if cr >= 0 && lf >= 0 then
      assert clipboard[..Min(cr, lf)] <= clipboard[..cr];
      assert clipboard[..Min(cr, lf)] <= clipboard[..lf];
      clipboard[..Min(cr, lf)]
    else if cr >= 0 then clipboard[..cr]
    else if lf >= 0 then clipboard[..lf]
    else clipboard
  }

  /**
   * The text a paste delivers: the clipboard cut at its first line break,
   * passed through the game's text filter, then cut to `PASTE_LIMIT` characters.
   */
  function PasteText(clipboard: string, filterText: string -> string): (r: string)
    ensures r <= filterText(ClipAtNewline(clipboard))
    ensures |r| == Min(|filterText(ClipAtNewline(clipboard))|, PASTE_LIMIT)
  {
    var filtered := filterText(ClipAtNewline(clipboard));
    if |filtered| > PASTE_LIMIT then filtered[..PASTE_LIMIT] else filtered
  }

  /** `min(max(v, lo), hi)`. */
  function Clamp(v: int, lo: int, hi: int): (r: int)
    ensures lo <= hi ==> lo <= r <= hi
    ensures lo <= v <= hi ==> r == v
  {
    Min(Max(v, lo), hi)
  }

  /** The cell under a pixel `offset` pixels into the terminal, for cells `cellSize` pixels wide, clamped to `[0, cells - 1]`. */
  function CellOf(offset: int, cellSize: int, cells: int): (r: int)
    requires cellSize > 0
    ensures cells >= 1 ==> 0 <= r < cells
  {
    Clamp(offset / cellSize, 0, cells - 1)
  }

  /** Inside a region exactly `cells` cells wide, the clamp never moves the cell: it is the pixel's own cell. */
  lemma CellOfUnclamped(offset: int, cellSize: int, cells: int)
    requires cellSize > 0
    requires 0 <= offset < cells * cellSize
    ensures CellOf(offset, cellSize, cells) == offset / cellSize
    ensures offset / cellSize * cellSize <= offset < (offset / cellSize + 1) * cellSize
  {
    var q := offset / cellSize;
    assert offset == q * cellSize + offset % cellSize;
  }

  /** The key-up events a blur emits for the held keys below `n`, in increasing key order. */
  function KeyUps(held: set<int>, n: nat): seq<Event>
  {
    if n == 0 then [] else KeyUps(held, n - 1) + (if n - 1 in held then [KeyUp(n - 1)] else [])
  }

  /** `KeyUps` releases exactly the held keys below `n`, and nothing else. */
  lemma {:induction false} KeyUpsExact(held: set<int>, n: nat, e: Event)
    ensures e in KeyUps(held, n) <==> e.KeyUp? && e.key in held && 0 <= e.key < n
  {
    if n > 0 {
      KeyUpsExact(held, n - 1, e);
    }
  }

  /** `KeyUps` lists its keys in strictly increasing order, so no key is released twice. */
  lemma {:induction false} KeyUpsAscending(held: set<int>, n: nat)
    ensures forall i :: 0 <= i < |KeyUps(held, n)| ==> KeyUps(held, n)[i].KeyUp? && 0 <= KeyUps(held, n)[i].key < n
    ensures forall i, j :: 0 <= i < j < |KeyUps(held, n)| ==> KeyUps(held, n)[i].key < KeyUps(held, n)[j].key
  {
    if n > 0 {
      KeyUpsAscending(held, n - 1);
    }
  }

  class WidgetTerminal {
    // The pixel rectangle of the terminal proper, and the size of one character cell.
    const innerX: int
    const innerY: int
    const innerWidth: int
    const innerHeight: int
    const fontWidth: int
    const fontHeight: int

    // State of the base widget, read but not changed by the input handlers.
    var active: bool
    var visible: bool

    var terminateTimer: real
    var rebootTimer: real
    var shutdownTimer: real

    var lastMouseButton: int
    var lastMouseX: int
    var lastMouseY: int

    /** The set bits of the held-key bit set. */
    var keysDown: set<int>
    /** The bit set's `size()`: every held key lies below it. */
    var keySpace: nat

    /** The calls made on the computer's input handler, oldest first. */
    var events: seq<Event>

    ghost predicate Valid()
      reads this
    {
      && fontWidth > 0 && fontHeight > 0
      && (forall k :: k in keysDown ==> 0 <= k < keySpace)
      && IsTimer(terminateTimer) && IsTimer(rebootTimer) && IsTimer(shutdownTimer)
      && -1 <= lastMouseButton <= 2
    }

    /** A timer is either disarmed or armed with a non-negative elapsed time. */
    static predicate IsTimer(t: real) {
      t == DISARMED || t >= 0.0
    }

    /** No hold-to-trigger timer is running. */
    predicate NoTimerArmed()
      reads this
    {
      terminateTimer < 0.0 && rebootTimer < 0.0 && shutdownTimer < 0.0
    }

    /** A widget at pixel `(x, y)` for `term`, with a border of `margin` pixels and cells of `fontWidth` by `fontHeight` pixels. */
    constructor (term: TermView, x: int, y: int, margin: int, fontWidth: int, fontHeight: int)
      requires fontWidth > 0 && fontHeight > 0
      ensures Valid()
      ensures innerX == x + margin && innerY == y + margin
      ensures innerWidth == term.width * fontWidth && innerHeight == term.height * fontHeight
      ensures this.fontWidth == fontWidth && this.fontHeight == fontHeight
      ensures active && visible
      ensures terminateTimer == DISARMED && rebootTimer == DISARMED && shutdownTimer == DISARMED
      ensures lastMouseButton == -1 && lastMouseX == -1 && lastMouseY == -1
      ensures keysDown == {} && keySpace == INITIAL_KEY_SPACE
      ensures events == []
    {
      innerX := x + margin;
      innerY := y + margin;
      innerWidth := term.width * fontWidth;
      innerHeight := term.height * fontHeight;
      this.fontWidth := fontWidth;
      this.fontHeight := fontHeight;
      active, visible := true, true;
      terminateTimer, rebootTimer, shutdownTimer := DISARMED, DISARMED, DISARMED;
      lastMouseButton, lastMouseX, lastMouseY := -1, -1, -1;
      keysDown, keySpace := {}, INITIAL_KEY_SPACE;
      events := [];
    }

    /** Whether a pixel lies on the terminal proper of an active, visible widget. */
    predicate InTermRegion(mouseX: int, mouseY: int)
      reads this
    {
      active && visible && mouseX >= innerX && mouseY >= innerY
        && mouseX < innerX + innerWidth && mouseY < innerY + innerHeight
    }

    /** Only colour terminals take mouse input. */
    static predicate HasMouseSupport(term: TermView) {
      term.colour
    }

    /** Whether a mouse button event at this pixel is handed to the computer at all. */
    predicate AcceptsMouse(mouseX: int, mouseY: int, button: int, term: TermView)
      reads this
    {
      InTermRegion(mouseX, mouseY) && HasMouseSupport(term) && 0 <= button <= 2
    }

    /** The clamped column under a pixel. */
    function CharX(mouseX: int, term: TermView): (r: int)
      requires fontWidth > 0
      ensures term.width >= 1 ==> 0 <= r < term.width
    {
      CellOf(mouseX - innerX, fontWidth, term.width)
    }

    /** The clamped row under a pixel. */
    function CharY(mouseY: int, term: TermView): (r: int)
      requires fontHeight > 0
      ensures term.height >= 1 ==> 0 <= r < term.height
    {
      CellOf(mouseY - innerY, fontHeight, term.height)
    }

    /** `charTyped`: forwards a printable character as a `"char"` event; always reports the input as handled. */
    method CharTyped(ch: char, modifiers: int) returns (handled: bool)
      modifies this`events
      ensures handled
      ensures events == if IsPrintable(ch) then old(events) + [QueueEvent("char", [[ch]])] else old(events)
    {
      if IsPrintable(ch) {
        events := events + [QueueEvent("char", [[ch]])];
      }
      handled := true;
    }

    /**
     * `keyPressed`. Escape is refused. Ctrl+T, Ctrl+S and Ctrl+R arm their own
     * timer if it is not already running. Ctrl+V with a clipboard pastes. Any
     * other key with no timer running is sent as a key-down, marked as a repeat
     * when it was already held, and becomes held.
     */
    method KeyPressed(key: int, scancode: int, modifiers: int, clipboard: Option<string>, filterText: string -> string)
      returns (handled: bool)
      requires Valid()
      modifies this`terminateTimer, this`rebootTimer, this`shutdownTimer, this`keysDown, this`keySpace, this`events
      ensures Valid()
      ensures handled == (key != KEY_ESCAPE)
      // Escape: nothing happens.
      ensures key == KEY_ESCAPE ==>
        && events == old(events) && keysDown == old(keysDown) && keySpace == old(keySpace)
        && terminateTimer == old(terminateTimer) && rebootTimer == old(rebootTimer) && shutdownTimer == old(shutdownTimer)
      // The three hold-to-trigger shortcuts arm only their own timer and emit nothing.
      ensures key != KEY_ESCAPE && HasControl(modifiers) && key in {KEY_T, KEY_S, KEY_R} ==>
        && events == old(events) && keysDown == old(keysDown) && keySpace == old(keySpace)
        && terminateTimer == (if key == KEY_T && old(terminateTimer) < 0.0 then 0.0 else old(terminateTimer))
        && shutdownTimer == (if key == KEY_S && old(shutdownTimer) < 0.0 then 0.0 else old(shutdownTimer))
        && rebootTimer == (if key == KEY_R && old(rebootTimer) < 0.0 then 0.0 else old(rebootTimer))
      // Paste: the text is queued only when it is not empty.
      ensures key == KEY_V && HasControl(modifiers) && clipboard.Some? ==>
        && keysDown == old(keysDown) && keySpace == old(keySpace)
        && terminateTimer == old(terminateTimer) && rebootTimer == old(rebootTimer) && shutdownTimer == old(shutdownTimer)
        && var text := PasteText(clipboard.value, filterText);
           events == if text == "" then old(events) else old(events) + [QueueEvent("paste", [text])]
      // Everything else: a key-down when the key is valid and no timer runs.
      ensures key != KEY_ESCAPE && !(HasControl(modifiers) && (key in {KEY_T, KEY_S, KEY_R} || (key == KEY_V && clipboard.Some?))) ==>
        && terminateTimer == old(terminateTimer) && rebootTimer == old(rebootTimer) && shutdownTimer == old(shutdownTimer)
        && if key >= 0 && old(NoTimerArmed()) then
             && keysDown == old(keysDown) + {key}
             && events == old(events) + [KeyDown(key, key in old(keysDown))]
           else
             && keysDown == old(keysDown) && keySpace == old(keySpace) && events == old(events)
    {
      if key == KEY_ESCAPE {
        return false;
      }
      if HasControl(modifiers) {
        if key == KEY_T {
          if terminateTimer < 0.0 { terminateTimer := 0.0; }
          return true;
        } else if key == KEY_S {
          if shutdownTimer < 0.0 { shutdownTimer := 0.0; }
          return true;
        } else if key == KEY_R {
          if rebootTimer < 0.0 { rebootTimer := 0.0; }
          return true;
        } else if key == KEY_V && clipboard.Some? {
          var text := PasteText(clipboard.value, filterText);
          if text != "" {
            events := events + [QueueEvent("paste", [text])];
          }
          return true;
        }
      }

      if key >= 0 && NoTimerArmed() {
        var repeat := key in keysDown;
        keysDown := keysDown + {key};
        if key >= keySpace {
          // The bit set grows to hold the new key.
          keySpace := key + 1;
        }
        events := events + [KeyDown(key, repeat)];
      }
      return true;
    }

    /**
     * `keyReleased`: a held key is sent as a key-up and stops being held.
     * Releasing T, R or S disarms that timer; releasing either Ctrl disarms all three.
     */
    method KeyReleased(key: int, scancode: int, modifiers: int) returns (handled: bool)
      requires Valid()
      modifies this`terminateTimer, this`rebootTimer, this`shutdownTimer, this`keysDown, this`events
      ensures Valid()
      ensures handled
      ensures keysDown == old(keysDown) - {key}
      ensures events == if key in old(keysDown) then old(events) + [KeyUp(key)] else old(events)
      ensures var allCtrl := key == KEY_LEFT_CONTROL || key == KEY_RIGHT_CONTROL;
        && terminateTimer == (if key == KEY_T || allCtrl then DISARMED else old(terminateTimer))
        && rebootTimer == (if key == KEY_R || allCtrl then DISARMED else old(rebootTimer))
        && shutdownTimer == (if key == KEY_S || allCtrl then DISARMED else old(shutdownTimer))
    {
      if key >= 0 && key in keysDown {
        keysDown := keysDown - {key};
        events := events + [KeyUp(key)];
      }

      if key == KEY_T {
        terminateTimer := DISARMED;
      } else if key == KEY_R {
        rebootTimer := DISARMED;
      } else if key == KEY_S {
        shutdownTimer := DISARMED;
      } else if key == KEY_LEFT_CONTROL || key == KEY_RIGHT_CONTROL {
        terminateTimer, rebootTimer, shutdownTimer := DISARMED, DISARMED, DISARMED;
      }
      return true;
    }

    /**
     * `mouseClicked`: a click on a colour terminal with button 0, 1 or 2 is sent
     * with 1-based button and cell, and the button and cell are remembered.
     */
    method MouseClicked(mouseX: int, mouseY: int, button: int, term: TermView) returns (handled: bool)
      requires Valid()
      modifies this`lastMouseButton, this`lastMouseX, this`lastMouseY, this`events
      ensures Valid()
      ensures handled == AcceptsMouse(mouseX, mouseY, button, term)
      ensures !handled ==>
        events == old(events) && lastMouseButton == old(lastMouseButton)
        && lastMouseX == old(lastMouseX) && lastMouseY == old(lastMouseY)
      ensures handled ==>
        && var x, y := CharX(mouseX, term), CharY(mouseY, term);
           && events == old(events) + [MouseClick(button + 1, x + 1, y + 1)]
           && lastMouseButton == button && lastMouseX == x && lastMouseY == y
           && (term.width >= 1 ==> 1 <= x + 1 <= term.width)
           && (term.height >= 1 ==> 1 <= y + 1 <= term.height)
    {
      if !InTermRegion(mouseX, mouseY) { return false; }
      if !HasMouseSupport(term) || button < 0 || button > 2 { return false; }

      var charX := (mouseX - innerX) / fontWidth;
      var charY := (mouseY - innerY) / fontHeight;
      charX := Min(Max(charX, 0), term.width - 1);
      charY := Min(Max(charY, 0), term.height - 1);

      events := events + [MouseClick(button + 1, charX + 1, charY + 1)];

      lastMouseButton := button;
      lastMouseX := charX;
      lastMouseY := charY;
      return true;
    }

    /**
     * `mouseReleased`: a mouse-up is sent only for the button last clicked,
     * which is then forgotten; the cell is remembered. Always reports the event as not handled.
     */
    method MouseReleased(mouseX: int, mouseY: int, button: int, term: TermView) returns (handled: bool)
      requires Valid()
      modifies this`lastMouseButton, this`lastMouseX, this`lastMouseY, this`events
      ensures Valid()
      ensures !handled
      ensures !AcceptsMouse(mouseX, mouseY, button, term) ==>
        events == old(events) && lastMouseButton == old(lastMouseButton)
        && lastMouseX == old(lastMouseX) && lastMouseY == old(lastMouseY)
      ensures AcceptsMouse(mouseX, mouseY, button, term) ==>
        && var x, y := CharX(mouseX, term), CharY(mouseY, term);
           && lastMouseX == x && lastMouseY == y
           && (if old(lastMouseButton) == button then
                 events == old(events) + [MouseUp(button + 1, x + 1, y + 1)] && lastMouseButton == -1
               else
                 events == old(events) && lastMouseButton == old(lastMouseButton))
    {
      if !InTermRegion(mouseX, mouseY) { return false; }
      if !HasMouseSupport(term) || button < 0 || button > 2 { return false; }

      var charX := (mouseX - innerX) / fontWidth;
      var charY := (mouseY - innerY) / fontHeight;
      charX := Min(Max(charX, 0), term.width - 1);
      charY := Min(Max(charY, 0), term.height - 1);

      if lastMouseButton == button {
        events := events + [MouseUp(lastMouseButton + 1, charX + 1, charY + 1)];
        lastMouseButton := -1;
      }

      lastMouseX := charX;
      lastMouseY := charY;
      return false;
    }

    /**
     * `mouseDragged`: a drag is sent only for the button last clicked and only
     * when the cell differs from the last one, which it then replaces.
     * Always reports the event as not handled.
     */
    method MouseDragged(mouseX: int, mouseY: int, button: int, dragX: real, dragY: real, term: TermView) returns (handled: bool)
      requires Valid()
      modifies this`lastMouseX, this`lastMouseY, this`events
      ensures Valid()
      ensures !handled
      ensures
        var x, y := CharX(mouseX, term), CharY(mouseY, term);
        if AcceptsMouse(mouseX, mouseY, button, term) && button == lastMouseButton
           && (x != old(lastMouseX) || y != old(lastMouseY)) then
          events == old(events) + [MouseDrag(button + 1, x + 1, y + 1)] && lastMouseX == x && lastMouseY == y
        else
          events == old(events) && lastMouseX == old(lastMouseX) && lastMouseY == old(lastMouseY)
    {
      if !InTermRegion(mouseX, mouseY) { return false; }
      if !HasMouseSupport(term) || button < 0 || button > 2 { return false; }

      var charX := (mouseX - innerX) / fontWidth;
      var charY := (mouseY - innerY) / fontHeight;
      charX := Min(Max(charX, 0), term.width - 1);
      charY := Min(Max(charY, 0), term.height - 1);

      if button == lastMouseButton && (charX != lastMouseX || charY != lastMouseY) {
        events := events + [MouseDrag(button + 1, charX + 1, charY + 1)];
        lastMouseX := charX;
        lastMouseY := charY;
      }
      return false;
    }

    /** `mouseScrolled`: a non-zero scroll on a colour terminal is sent as direction 1 (down) or -1 (up) with the cell. */
    method MouseScrolled(mouseX: int, mouseY: int, delta: real, term: TermView) returns (handled: bool)
      requires Valid()
      modifies this`lastMouseX, this`lastMouseY, this`events
      ensures Valid()
      ensures handled == (InTermRegion(mouseX, mouseY) && HasMouseSupport(term) && delta != 0.0)
      ensures !handled ==> events == old(events) && lastMouseX == old(lastMouseX) && lastMouseY == old(lastMouseY)
      ensures handled ==>
        && var x, y := CharX(mouseX, term), CharY(mouseY, term);
           && events == old(events) + [MouseScroll(if delta < 0.0 then 1 else -1, x + 1, y + 1)]
           && lastMouseX == x && lastMouseY == y
    {
      if !InTermRegion(mouseX, mouseY) { return false; }
      if !HasMouseSupport(term) || delta == 0.0 { return false; }

      var charX := (mouseX - innerX) / fontWidth;
      var charY := (mouseY - innerY) / fontHeight;
      charX := Min(Max(charX, 0), term.width - 1);
      charY := Min(Max(charY, 0), term.height - 1);

      events := events + [MouseScroll(if delta < 0.0 then 1 else -1, charX + 1, charY + 1)];

      lastMouseX := charX;
      lastMouseY := charY;
      return true;
    }

    /**
     * `onFocusedChanged`: on losing focus every held key is sent as a key-up in
     * increasing order and forgotten, the last mouse button is sent as a
     * mouse-up when it is greater than 0, and every timer is disarmed.
     */
    method OnFocusedChanged(focused: bool)
      requires Valid()
      modifies this`keysDown, this`lastMouseButton, this`terminateTimer, this`rebootTimer, this`shutdownTimer, this`events
      ensures Valid()
      ensures focused ==>
        && events == old(events) && keysDown == old(keysDown) && lastMouseButton == old(lastMouseButton)
        && terminateTimer == old(terminateTimer) && rebootTimer == old(rebootTimer) && shutdownTimer == old(shutdownTimer)
      ensures !focused ==>
        && keysDown == {}
        && terminateTimer == DISARMED && rebootTimer == DISARMED && shutdownTimer == DISARMED
        && var mouseUps :=
             if old(lastMouseButton) > 0 then [MouseUp(old(lastMouseButton) + 1, lastMouseX + 1, lastMouseY + 1)] else [];
           && events == old(events) + KeyUps(old(keysDown), keySpace) + mouseUps
           && lastMouseButton == (if old(lastMouseButton) > 0 then -1 else old(lastMouseButton))
      ensures !focused ==> forall k :: KeyUp(k) in events[|old(events)|..] <==> k in old(keysDown)
    {
      if !focused {
        ghost var held := keysDown;
        var key := 0;
        while key < keySpace
          invariant 0 <= key <= keySpace
          invariant keysDown == held
          invariant lastMouseButton == old(lastMouseButton)
          invariant events == old(events) + KeyUps(held, key)
        {
          if key in keysDown {
            events := events + [KeyUp(key)];
          }
          key := key + 1;
        }
        keysDown := {};

        if lastMouseButton > 0 {
          events := events + [MouseUp(lastMouseButton + 1, lastMouseX + 1, lastMouseY + 1)];
          lastMouseButton := -1;
        }

        shutdownTimer, terminateTimer, rebootTimer := DISARMED, DISARMED, DISARMED;

        ghost var released := events[|old(events)|..];
        assert released == KeyUps(held, keySpace) + (if old(lastMouseButton) > 0 then [MouseUp(old(lastMouseButton) + 1, lastMouseX + 1, lastMouseY + 1)] else []);
        forall k ensures KeyUp(k) in released <==> k in held {
          KeyUpsExact(held, keySpace, KeyUp(k));
        }
      }
    }
  }
}
