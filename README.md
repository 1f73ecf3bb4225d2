# ComputerCraft terminal input, text buffer and monitor flags in Dafny

This project models three sequential, stateful pieces of ComputerCraft: Tweaked and proves properties of them.

- **The character row buffer** is `TextBuffer` in `text_buffer.dfy`, module `Terminal`. It is a fixed-length `array<char>`. It has clipped writes from a string, from a byte buffer or from another buffer, a clipped range fill, and a bounds-checked single-cell set. One reference function, `Written(cells, s, start)`, says where a string lands when its first character is placed on cell `start`. Every write method is proved to produce exactly `Written` of the old cells. Lemmas relate fills and single-cell sets to `Written`, and state the clipped range, the no-op cases, read-back, splitting and idempotence.
- **The terminal input translator** is `WidgetTerminal` in `widget_terminal.dfy`, module `Widgets`. It is the input half of the terminal widget. It turns key, character, mouse and paste input into calls on the computer's input handler. Those calls are appended to the log `events`. Its state is:
  - the held keys of the key bit set, with the bit set's `size()`;
  - the last mouse button and cell;
  - the terminate, shutdown and reboot hold-to-trigger timers.
- **The monitor's flag protocol** is `ServerMonitor` in `server_monitor.dfy`, module `Monitor`. It covers rebuilding the monitor's terminal, marking it changed, and the poll-and-clear `changed` and `resized` flags. Calls on the terminal and on the tick scheduler are recorded in a ghost effect log. The object invariant says that between two polls of `changed`, the monitor is scheduled exactly once if it was marked at all, and never otherwise.

`wrappers.dfy` holds the `Option` type, which stands for Java's nullable references.

Things the code does that a reader might not expect, all modelled as written:

- `onFocusedChanged` sends a mouse-up on blur only when the last button is greater than 0. A held left button (button 0) therefore gets no mouse-up when focus is lost.
- `mouseReleased` and `mouseDragged` always return false, even when they emit an event.
- A Ctrl+V with a null clipboard (`None`) falls through to the ordinary key path and can send a key-down for V.
- `ServerMonitor.rebuild` raises `resized` and `changed` only when the computed size differs from the old one. That is always the case on the first build, where the old size is -1 by -1. A rebuild to the same size touches neither flag.

## Model

| member | source | states |
|---|---|---|
| `Terminal.Unsigned` | src/main/java/dan200/computercraft/core/terminal/TextBuffer.java:58 | `b & 0xFF` on a signed byte gives a value in 0..255 that agrees with `b` modulo 256, and that equals `b` when `b` is not negative |
| `Terminal.Latin1` | src/main/java/dan200/computercraft/core/terminal/TextBuffer.java:56-59 | each byte becomes the character whose code is the byte's unsigned value, and the length is kept |
| `Terminal.Written` | src/main/java/dan200/computercraft/core/terminal/TextBuffer.java:35-45 | the reference meaning of a clipped write; it never changes the number of cells |
| `Terminal.WrittenClipped` | src/main/java/dan200/computercraft/core/terminal/TextBuffer.java:37-44 | cell `i` becomes `s[i - start]` exactly for `i` in `[max(start,0), min(start + length of s, buffer length))`; every other cell keeps its character |
| `Terminal.WrittenNoOp` | src/main/java/dan200/computercraft/core/terminal/TextBuffer.java:37-44 | a write with `start >= length` or `start + length of s <= 0` leaves the buffer as it was |
| `Terminal.WrittenReadBack` | src/main/java/dan200/computercraft/core/terminal/TextBuffer.java:35-45 | a write that fits inside the buffer puts `s` at `start` and leaves the cells before and after it unchanged |
| `Terminal.WrittenSplit` | src/main/java/dan200/computercraft/core/terminal/TextBuffer.java:35-45 | writing `s1` at `start` and then `s2` at `start + length of s1` gives the same cells as writing `s1 + s2` at `start`, for every start, including clipped ones |
| `Terminal.WrittenIdempotent` | src/main/java/dan200/computercraft/core/terminal/TextBuffer.java:35-45 | a write repeated at the same start changes nothing more |
| `Terminal.WrittenAtZero` | src/main/java/dan200/computercraft/core/terminal/TextBuffer.java:62-69 | a write at cell 0 replaces the first `min(source length, buffer length)` cells with the source's prefix and keeps the rest |
| `Terminal.Filled` | src/main/java/dan200/computercraft/core/terminal/TextBuffer.java:76-84 | the reference meaning of a range fill; it never changes the number of cells |
| `Terminal.FilledAsWritten` | src/main/java/dan200/computercraft/core/terminal/TextBuffer.java:76-84 | a fill with `start < end` equals a write of `end - start` copies of `c` at `start`; a fill with `start >= end` changes nothing |
| `Terminal.FilledAll` | src/main/java/dan200/computercraft/core/terminal/TextBuffer.java:71-74 | filling `[0, length)` makes every cell `c` |
| `Terminal.SetAsWritten` | src/main/java/dan200/computercraft/core/terminal/TextBuffer.java:91-97 | a single-cell set equals a one-character write: it updates exactly cell `i` when `0 <= i < length`, and otherwise changes nothing |
| `Terminal.TextBuffer.OfChar` | src/main/java/dan200/computercraft/core/terminal/TextBuffer.java:14-18 | a new buffer of exactly `length` cells, each equal to `c` |
| `Terminal.TextBuffer.FromString` | src/main/java/dan200/computercraft/core/terminal/TextBuffer.java:20-23 | a new buffer whose string form is `s` |
| `Terminal.TextBuffer.ToString` | src/main/java/dan200/computercraft/core/terminal/TextBuffer.java:99-103 | the string form has one character per cell, and character `i` is cell `i` |
| `Terminal.TextBuffer.Length` | src/main/java/dan200/computercraft/core/terminal/TextBuffer.java:25-28 | the length is the length of the string form |
| `Terminal.TextBuffer.CharAt` | src/main/java/dan200/computercraft/core/terminal/TextBuffer.java:86-89 | defined only for `0 <= i < length`; returns character `i` of the string form |
| `Terminal.TextBuffer.Write` | src/main/java/dan200/computercraft/core/terminal/TextBuffer.java:30-33 | identical to a write at start 0 |
| `Terminal.TextBuffer.WriteAt` | src/main/java/dan200/computercraft/core/terminal/TextBuffer.java:35-45 | the new cells are `Written(old cells, s, start)`, and the loop never indexes outside `s` or the array |
| `Terminal.TextBuffer.WriteBytes` | src/main/java/dan200/computercraft/core/terminal/TextBuffer.java:47-60 | the new cells are the clipped write of the remaining bytes, each masked to 0..255, with the indices read absolutely from the position; the byte buffer's position does not move |
| `Terminal.TextBuffer.WriteBuffer` | src/main/java/dan200/computercraft/core/terminal/TextBuffer.java:62-69 | the new cells are the other buffer's old cells written at 0, so exactly the first `min(other length, length)` cells are copied; this holds when the other buffer is this one too |
| `Terminal.TextBuffer.Fill` | src/main/java/dan200/computercraft/core/terminal/TextBuffer.java:71-74 | every cell becomes `c` |
| `Terminal.TextBuffer.FillRange` | src/main/java/dan200/computercraft/core/terminal/TextBuffer.java:76-84 | only the cells in `[max(start,0), min(end,length))` become `c`, which is nothing when `start >= end` |
| `Terminal.TextBuffer.SetChar` | src/main/java/dan200/computercraft/core/terminal/TextBuffer.java:91-97 | changes only cell `i` when `0 <= i < length`, and is otherwise a no-op |
| `Widgets.IndexOf` | src/main/java/dan200/computercraft/client/gui/widgets/WidgetTerminal.java:104-105 | gives -1 exactly when the character does not occur; otherwise the index of its first occurrence |
| `Widgets.ClipAtNewline` | src/main/java/dan200/computercraft/client/gui/widgets/WidgetTerminal.java:103-117 | gives the longest prefix of the clipboard that holds no `'\r'` or `'\n'`: a prefix with neither, followed by one of them when it is shorter than the clipboard |
| `Widgets.PasteText` | src/main/java/dan200/computercraft/client/gui/widgets/WidgetTerminal.java:119-125 | gives a prefix of the filtered, newline-clipped clipboard, of length `min(filtered length, 512)` |
| `Widgets.Clamp` | src/main/java/dan200/computercraft/client/gui/widgets/WidgetTerminal.java:182-183 | the result lies in `[lo, hi]` when `lo <= hi`, and is the value itself when that is already in range |
| `Widgets.CellOf` | src/main/java/dan200/computercraft/client/gui/widgets/WidgetTerminal.java:180-183 | the character cell under a pixel lies in `[0, cells - 1]` whenever the terminal has at least one cell |
| `Widgets.CellOfUnclamped` | src/main/java/dan200/computercraft/client/gui/widgets/WidgetTerminal.java:180-183 | on the region that is exactly `cells` cells across, the clamp never changes the cell, which is the one whose pixels contain the offset |
| `Widgets.KeyUpsExact` | src/main/java/dan200/computercraft/client/gui/widgets/WidgetTerminal.java:291-294 | the blur loop up to `n` releases a key exactly when it is held and below `n`, and releases nothing else |
| `Widgets.KeyUpsAscending` | src/main/java/dan200/computercraft/client/gui/widgets/WidgetTerminal.java:291-294 | the blur loop's key-ups are in strictly increasing key order, so no key is released twice |
| `Widgets.WidgetTerminal.constructor` | src/main/java/dan200/computercraft/client/gui/widgets/WidgetTerminal.java:45-66 | the inner rectangle is offset by the margin and sized by the terminal's cells; all timers start disarmed; the last button and cell start at -1; the held-key set starts empty with room for 256 keys |
| `Widgets.WidgetTerminal.CharX` | src/main/java/dan200/computercraft/client/gui/widgets/WidgetTerminal.java:180-182 | the clamped 0-based column lies in `[0, width - 1]` for a terminal at least one cell wide |
| `Widgets.WidgetTerminal.CharY` | src/main/java/dan200/computercraft/client/gui/widgets/WidgetTerminal.java:181-183 | the clamped 0-based row lies in `[0, height - 1]` for a terminal at least one cell high |
| `Widgets.WidgetTerminal.CharTyped` | src/main/java/dan200/computercraft/client/gui/widgets/WidgetTerminal.java:68-78 | a `"char"` event is queued exactly when the character is in `[32,126]` or `[160,255]`; it always returns true |
| `Widgets.WidgetTerminal.KeyPressed` | src/main/java/dan200/computercraft/client/gui/widgets/WidgetTerminal.java:80-142 | Escape returns false and changes nothing. Ctrl+T, Ctrl+S and Ctrl+R each arm only their own timer, only if it was disarmed, and emit nothing. Ctrl+V with a clipboard queues `"paste"` with the filtered text before the first line break, limited to 512 characters, and queues nothing when that is empty. Any other key `>= 0` with no timer armed emits `keyDown(key, key was held)` and becomes held; with a timer armed nothing is emitted |
| `Widgets.WidgetTerminal.KeyReleased` | src/main/java/dan200/computercraft/client/gui/widgets/WidgetTerminal.java:144-172 | `keyUp(key)` is emitted exactly when the key was held, and the key is no longer held. Releasing T, R or S disarms that timer; releasing either Ctrl disarms all three; it always returns true |
| `Widgets.WidgetTerminal.MouseClicked` | src/main/java/dan200/computercraft/client/gui/widgets/WidgetTerminal.java:174-192 | handled exactly when the pixel is in the inner rectangle of an active, visible widget, the terminal is colour, and the button is 0..2. Then it emits `mouseClick(button+1, x+1, y+1)` with the clamped cell, 1-based and within the terminal, and records the button and cell. Otherwise it returns false and changes nothing |
| `Widgets.WidgetTerminal.MouseReleased` | src/main/java/dan200/computercraft/client/gui/widgets/WidgetTerminal.java:194-215 | for an accepted event, `mouseUp` is emitted only when the button equals the last clicked button, which then becomes -1; the cell is recorded in any case; it always returns false |
| `Widgets.WidgetTerminal.MouseDragged` | src/main/java/dan200/computercraft/client/gui/widgets/WidgetTerminal.java:217-236 | a drag is emitted, and the cell recorded, only for an accepted event with the last clicked button on a cell different from the last one; it always returns false |
| `Widgets.WidgetTerminal.MouseScrolled` | src/main/java/dan200/computercraft/client/gui/widgets/WidgetTerminal.java:238-255 | for a non-zero delta inside the rectangle of a colour terminal, it emits a scroll with direction 1 for a negative delta and -1 otherwise, at the 1-based clamped cell, and records the cell |
| `Widgets.WidgetTerminal.OnFocusedChanged` | src/main/java/dan200/computercraft/client/gui/widgets/WidgetTerminal.java:285-306 | on blur, `keyUp` is emitted for every held key, in increasing order, and for no other key; the held set becomes empty; `mouseUp` is emitted only if the last button is greater than 0, which then becomes -1; all timers are disarmed. Gaining focus changes nothing |
| `Monitor.OldSize` | src/main/java/dan200/computercraft/shared/peripheral/monitor/ServerMonitor.java:33-35 | the size compared against is the terminal's own, or -1 by -1 when there is no terminal |
| `Monitor.ServerMonitor.constructor` | src/main/java/dan200/computercraft/shared/peripheral/monitor/ServerMonitor.java:19-29 | the monitor starts with text scale 2, no terminal, and both flags clear |
| `Monitor.ServerMonitor.MarkChanged` | src/main/java/dan200/computercraft/shared/peripheral/monitor/ServerMonitor.java:65-68 | `changed` is set. The tick scheduler is called only when `changed` was false. The invariant that the monitor is scheduled exactly once since the last poll when changed, and never otherwise, is kept |
| `Monitor.ServerMonitor.Rebuild` | src/main/java/dan200/computercraft/shared/peripheral/monitor/ServerMonitor.java:31-63 | the terminal ends up at the computed size: created the first time, resized otherwise. It is cleared, `resized` is raised and the monitor is marked changed exactly when the size differs from the old one, which it always does the first time. With an equal size, neither flag changes and no clear happens |
| `Monitor.ServerMonitor.SetTextScale` | src/main/java/dan200/computercraft/shared/peripheral/monitor/ServerMonitor.java:75-80 | an unchanged scale changes nothing at all; a new scale is stored and the terminal is rebuilt at the size computed for it |
| `Monitor.ServerMonitor.PollResized` | src/main/java/dan200/computercraft/shared/peripheral/monitor/ServerMonitor.java:82-85 | returns `resized` and clears it, so an immediate second poll returns false |
| `Monitor.ServerMonitor.PollTerminalChanged` | src/main/java/dan200/computercraft/shared/peripheral/monitor/ServerMonitor.java:87-90 | returns `changed` and clears it. What it returns is exactly whether the monitor was scheduled since the previous poll: false exactly when no schedule was logged since then, and after a true result it was scheduled exactly once |

## Left out

- `WidgetTerminal.update`: the countdown adds `0.05f` per tick against `0.5f`, and then queues `"terminate"`, shuts down or reboots. It is floating-point timing and is not modelled. A timer is only disarmed (-1) or armed (0 or more).
- `WidgetTerminal.render` and the static `getWidth`/`getHeight` helpers are rendering over font and margin constants defined in renderer classes outside this model.
- `FONT_WIDTH`, `FONT_HEIGHT` and `MARGIN` come from renderer classes that are not part of this model. They are constructor parameters, and the font sizes must be positive.
- The widget's terminal is read at each mouse event for its width, height and colour flag. It is passed in as a `TermView`, because `Terminal` is not part of this model. The base widget's `active` and `visible` flags are fields that the handlers read but never change. They start true, as Minecraft's `Widget` does.
- Mouse coordinates are `double` in the source and integers here, taken as the floor of the pixel position. The inner rectangle's bounds and the font sizes are integers. Under those conditions the region test and the truncating division give the same answers for a coordinate and for its floor. NaN and infinite coordinates are not modelled. The scroll delta is a `real`, so NaN is not modelled for it either.
- `SharedConstants.filterText` and the clipboard are Minecraft calls. The filter is a function parameter, and the clipboard is an `Option<string>` parameter, where `None` stands for a null clipboard.
- `Widgets.WidgetTerminal.KeyPressed`: when a new key lies beyond the key bit set's `size()`, the bit set grows to `key + 1`. `java.util.BitSet` grows in 64-bit words. The blur loop emits the same events either way, because only the bound on the held keys matters.
- Java `char` is a UTF-16 code unit and may be a lone surrogate. Dafny's `char` is a Unicode scalar value, so lone surrogates cannot appear in the model's strings or buffers.
- `Widgets.PasteText`: the model counts the 512-character limit in Unicode scalar values, while `String.length()` and `substring` count UTF-16 units. A clipboard of characters above U+FFFF keeps up to 512 of them in the model but only 256 in Java.
- `Terminal.TextBuffer.FromString`: the model makes one cell per Unicode scalar value, while `toCharArray()` makes one cell per UTF-16 unit. A character above U+FFFF is one cell here and two cells in Java. The same holds for the lengths and starts of every string write (`Write`, `WriteAt`).
- `Terminal.TextBuffer.WriteAt` and `Terminal.TextBuffer.WriteBytes` use unbounded integers. Java's `start + text.length()` (or `start + remaining()`) wraps around when it exceeds 2^31 - 1. That changes the outcome only when start plus the source's length exceeds 2^31 - 1 while start lies inside the buffer. Java's end then goes negative and nothing is written, where the model writes the cells. This needs a buffer or a source of about 2^30 elements or more, and is not modelled.
- `Terminal.TextBuffer.OfChar` takes a `nat` length. A negative length makes Java throw `NegativeArraySizeException`. `CharAt` requires an index in range, where Java would throw.
- `ByteBuffer` is `java.nio`. It is modelled only by its bytes, position and limit, together with its absolute `get`.
- `ServerMonitor.rebuild`: the `Math.round` size formula over the origin's size and the text scale is floating point, and is not modelled. `Rebuild` takes the computed size, and `SetTextScale` takes the size computed for the new scale. Both require a size of at least 1 by 1, which the formula's `max(..., 1.0)` guarantees.
- `Monitor.ServerMonitor.SetTextScale`: for a new scale it states the scale, the terminal size and both flags, but not the effect log; `Rebuild` states that log.
- `Terminal.resize`, `Terminal.clear`, the `Terminal` constructor and `TickScheduler.schedule` belong to classes that are not part of this model. They are recorded as effects in a ghost log. The terminal's change callback is `markChanged` itself, so writes through it are the `MarkChanged` method.
- `getTextScale` and `getTerminal` only return a field. The model reads `textScale` and `terminal` directly.
- `synchronized` and `AtomicBoolean.getAndSet` are concurrency. Each operation is modelled as one sequential step.
- `RecipeGenerator`, `NoTermComputerScreen`, `IFileSystem`, `ITurtleCommand`, the upload-message test, the computer bootstrap test and the HTTP test are data generation, GUI glue, bare interfaces or tests. None of them is modelled.
- The computer's power-state machine and the main-thread task scheduler are only used by the computer bootstrap test. `Computer` and `MainThread` are not part of this model.
