# ColorSnap pick mode, modelled in Dafny

ColorSnap is a Windows colour picker with a Tauri back end written in Rust. A
global shortcut arms *pick mode*. While pick mode is armed, the system cursor is
replaced by the app icon. A second press samples the pixel under the cursor and
reports it to the front end as `#RRGGBB`. Escape cancels. A live zoom preview
crops the monitor around the cursor.

This project models that back end in three modules:

- `Types` (`types.dfy`): the fixed-width integers and the records sent to the
  front end (`ColorInfo`, `ZoomPreviewData`). The error strings of the commands
  become an `Error` datatype with one constructor per message.
- `ColorPicker` (`color_picker.dfy`), the sampler in `color_picker.rs`. It
  holds:
  - COLORREF decoding and `#RRGGBB` formatting, with a parser that inverts the
    formatting;
  - choosing the monitor under the cursor and the clamped capture rectangle;
  - the zoom preview;
  - the RGBA to premultiplied-BGRA loop, as a method over an `array`;
  - the `PickCursor` class that holds the `CURSOR_CHANGED` flag.
- `PickMode` (`pick_mode.dfy`), the state machine in `lib.rs`. The class
  `PickModeState` holds three things:
  - `PICK_MODE_ACTIVE` as `active`;
  - `ACTIVE_SHORTCUT` as `activeShortcut`;
  - the events sent to the front end, as the append-only log `events`.

  Its methods are the commands `start_pick_mode`, `stop_pick_mode` and
  `pick_color_now`, the global-shortcut handler, the tray menu handler and the
  shortcut-registration loop of `setup`. `is_pick_mode_active` is the function
  `IsPickModeActive`.

The operating system is a set of parameters:
- `Screen`: the cursor position, or its absence, and a function from a position
  to the pixel read there.
- `Desktop`: the monitor list, or its absence, and a function that gives the
  capture-and-encode outcome for a monitor and a crop rectangle.
- `CursorEnv`: the decoded icon, or a decoding failure, and whether
  `CreateDIBSection`, `CreateIconIndirect` and `SetSystemCursor` succeed.
- A predicate that says which shortcut registrations succeed.

Rust's integer casts are written out where they occur:
- `x & 0xFF` and `x >> 8` on a `u32` are `% 256` and `/ 256`.
- `as i32` on a `u32` is `AsInt32`; `as u32` on an `i32` is `AsUint32`.
- `(c * a / 255) as u8` keeps the low byte. `ScaleBounds` proves that this
  cast never truncates.

Three behaviours of the code are worth stating on their own:
- Arming is not guarded against re-entry. `start_pick_mode` and the tray "pick"
  item set the flag again, replace the cursor again and emit `pick-mode-started`
  again when pick mode is already armed. The pick shortcut pressed while armed
  confirms instead of re-arming.
- A failed sample simply leaves pick mode armed and sends nothing. This back end
  has no sampling tick loop, no failure counting and no DPI mapping.
- `ColorInfo` carries the cursor's screen position `x`, `y`.

`PickModeState.Valid()` is the class invariant. It holds that the registered
shortcut is a candidate, and that the flag is set exactly when the last event
sent was `pick-mode-started`. Every entry point keeps it.

## Model

| member | source | states |
|---|---|---|
| `ColorPicker.DecodePackedColorRef` | src-tauri/src/color_picker.rs:48-52 | r, g and b come from bytes 0, 1 and 2 of the COLORREF (BGR packing), whatever byte 3 holds |
| `ColorPicker.DecodeColorRef` | src-tauri/src/color_picker.rs:48-52 | the masks and shifts keep exactly the low 24 bits of the COLORREF: re-packing the decoded colour gives `v % 2^24`, so byte 3 is ignored |
| `ColorPicker.PackColorRef` | src-tauri/src/color_picker.rs:48-52 | the reference BGR packing never sets a bit above bit 23 |
| `ColorPicker.GetPixelColor` | src-tauri/src/color_picker.rs:34-56 | no device context is an error and a `CLR_INVALID` read is an error; every other read gives a colour, and that colour's packing is the read's low 24 bits |
| `ColorPicker.EveryColorIsReadable` | src-tauri/src/color_picker.rs:44-54 | no genuine colour, white included, equals `CLR_INVALID`; every packed colour reads back as itself |
| `ColorPicker.FormatHex` | src-tauri/src/color_picker.rs:64-69 | the hex string is `#` followed by six upper-case hex digits, length 7 |
| `ColorPicker.HexRoundTrip` | src-tauri/src/color_picker.rs:64-69 | the digit pairs of the formatted string decode back to exactly r, g and b |
| `ColorPicker.HexIsCanonical` | src-tauri/src/color_picker.rs:251-256 | every canonical `#RRGGBB` string is the formatting of the colour it reads as, so formatting is onto the canonical strings |
| `ColorPicker.FormatHexInjective` | src-tauri/src/color_picker.rs:64-66 | two colours with the same hex string are the same colour |
| `ColorPicker.PureRed` | src-tauri/src/color_picker.rs:48-65 | a pure red COLORREF `0x0000FF` reads as rgb (255, 0, 0) and formats as `#FF0000` |
| `ColorPicker.GetColorAtCursor` | src-tauri/src/color_picker.rs:60-70 | it fails exactly when the cursor position or the pixel read fails, with that step's error; on success it reports the cursor position, the decoded colour, and a canonical hex string that parses back to the reported rgb |
| `ColorPicker.AsInt32` | src-tauri/src/color_picker.rs:203-204 | `as i32` keeps the 32 bits: the result is congruent to the input modulo 2^32 |
| `ColorPicker.AsUint32` | src-tauri/src/color_picker.rs:223-224 | `as u32` keeps the 32 bits: the result is congruent to the input modulo 2^32 |
| `ColorPicker.FindMonitor` | src-tauri/src/color_picker.rs:198-207 | it returns the first monitor in list order that satisfies the `find` closure `ContainsCursor` (`x <= cx < x+w` and `y <= cy < y+h`, with `w` and `h` cast to `i32`), or reports that none contains the cursor |
| `ColorPicker.CaptureRegion` | src-tauri/src/color_picker.rs:210-224 | for a cursor inside the monitor: the crop starts at a non-negative offset, is at most `size` wide and high, stays inside the monitor, is at least 1 by 1 when `size >= 1`, and contains the cursor; it starts exactly `size/2` before the cursor when the cursor is that far from the edge and at 0 otherwise; it is a full `size` wide or high when that fits, and otherwise ends exactly at the monitor's right or bottom edge (`monitor_w - capture_x`) |
| `ColorPicker.CaptureZoomPreview` | src-tauri/src/color_picker.rs:189-260 | a failed sample fails the preview with the same error; a missing monitor list, no monitor at the cursor, a failed capture and a failed encoding each give their own error; on success the centre colour is exactly what `get_color_at_cursor` reports, the image is the monitor's encoded crop, and the reported width and height are the crop's, within `size` and inside the monitor |
| `ColorPicker.ScaleBounds` | src-tauri/src/color_picker.rs:134-137 | `Scale` is `(c * a / 255) as u8`; `c * a / 255` never exceeds 255, so the `as u8` cast is lossless; the result is at most c and at most a; a = 255 keeps c and a = 0 gives 0 |
| `ColorPicker.Premultiplied` | src-tauri/src/color_picker.rs:128-139 | the destination buffer has the length of the source buffer |
| `ColorPicker.PremultipliedAt` | src-tauri/src/color_picker.rs:129-139 | destination pixel i is `(b*a/255, g*a/255, r*a/255, a)` for source pixel i |
| `ColorPicker.BgraPixelConverts` | src-tauri/src/color_picker.rs:130-138 | `BgraPixel`, one converted pixel, keeps alpha in byte 3 and puts b, g, r scaled by alpha in bytes 0 to 2; each is at most its channel and at most alpha; a = 255 keeps the channels, a = 0 zeroes them |
| `ColorPicker.PremultipliedChannels` | src-tauri/src/color_picker.rs:128-139 | for every pixel: alpha is copied unchanged; each colour byte is at most its source channel and at most alpha; opaque pixels keep their channels exactly and transparent pixels are zeroed |
| `ColorPicker.PremultiplyToBgra` | src-tauri/src/color_picker.rs:128-139 | the loop over `w*h` pixels leaves the DIB buffer equal to the premultiplied BGRA form of the RGBA pixels |
| `ColorPicker.PickCursor.constructor` | src-tauri/src/color_picker.rs:6 | `CURSOR_CHANGED` starts false |
| `ColorPicker.PickCursor.SetPickCursor` | src-tauri/src/color_picker.rs:74-169 | an ICONINFO is built only when the icon decodes and the DIB section exists, with the premultiplied bitmap and the hotspot `(w/2, h/2)` inside the cursor; the flag is raised exactly when every step through `SetSystemCursor` succeeds, and is never lowered |
| `ColorPicker.PickCursor.RestoreDefaultCursor` | src-tauri/src/color_picker.rs:173-185 | the system cursors are reloaded exactly when the flag was set, and afterwards the flag is false |
| `ColorPicker.RestoreTwice` | src-tauri/src/color_picker.rs:173-185 | restoring is idempotent: a second restore reloads nothing and the flag stays false |
| `PickMode.CandidateFacts` | src-tauri/src/lib.rs:21-29 | every pick candidate has modifiers, none is the plain Escape key, and every label is non-empty |
| `PickMode.PickIsNeverEscape` | src-tauri/src/lib.rs:162-196 | while the registered shortcut is a candidate, no key press counts both as the pick shortcut (`IsPickShortcut`, the `is_pick` test) and as Escape |
| `PickMode.TrayTextsShowLabel` | src-tauri/src/lib.rs:242-262 | for `TrayShortcutText`, `PickItemText` and `TooltipText`: the tray text is `" (" + label + ")"` exactly when the label is non-empty, and the label can be read back from the pick item's text and from the tooltip |
| `PickMode.PickModeState.constructor` | src-tauri/src/lib.rs:14-18 | pick mode starts inactive, with no registered shortcut and no events |
| `PickMode.PickModeState.IsPickModeActive` | src-tauri/src/lib.rs:113-116 | the flag the front end queries is set exactly when the last event it was sent is `pick-mode-started` |
| `PickMode.PickModeState.Arm` | src-tauri/src/lib.rs:78-89 | the arming steps shared by `start_pick_mode`, the pick shortcut and the tray "pick" item: the flag becomes true, `pick-mode-started` is appended, the shortcut is unchanged, and the cursor flag is raised exactly when the custom cursor is installed |
| `PickMode.PickModeState.Disarm` | src-tauri/src/lib.rs:96-108 | the cancelling steps shared by `stop_pick_mode` and Escape: the flag and the cursor flag become false and only `pick-mode-stopped` is appended |
| `PickMode.PickModeState.Confirm` | src-tauri/src/lib.rs:133-145 | the confirming steps shared by `pick_color_now` and the pick shortcut: the flag and the cursor flag become false and exactly one `color-picked` with the given colour is appended |
| `PickMode.PickModeState.GetActiveShortcut` | src-tauri/src/lib.rs:118-125 | the result is "" exactly when no shortcut is registered; otherwise it is the registered label |
| `PickMode.PickModeState.StartPickMode` | src-tauri/src/lib.rs:76-92 | whatever the prior state, the flag becomes true and `pick-mode-started` is appended; the cursor flag is raised exactly when the custom cursor is installed |
| `PickMode.PickModeState.StopPickMode` | src-tauri/src/lib.rs:94-111 | the flag and the cursor flag become false and only `pick-mode-stopped` is appended |
| `PickMode.PickModeState.PickColorNow` | src-tauri/src/lib.rs:127-148 | the result is the sample at the cursor; a failed sample leaves the flag, the cursor flag and the log unchanged; on success the flag becomes false and exactly one `color-picked` carrying the returned colour is appended |
| `PickMode.PickModeState.HandleShortcut` | src-tauri/src/lib.rs:157-205 | releases change nothing. The pick shortcut while inactive arms and appends `pick-mode-started`. The pick shortcut while active either confirms, appending one `color-picked`, or, if the sample fails, keeps pick mode armed and appends nothing. Escape while active cancels with only `pick-mode-stopped`; Escape while inactive and any other key change nothing |
| `PickMode.PickModeState.TrayMenuEvent` | src-tauri/src/lib.rs:263-285 | "quit" restores the cursor and asks to exit; "pick" arms exactly as `start_pick_mode` does; any other item leaves state and log unchanged |
| `PickMode.PickModeState.Setup` | src-tauri/src/lib.rs:212-262 | the registered shortcut is the first candidate, in list order, whose registration succeeds. If none succeeds, the label is empty and `ACTIVE_SHORTCUT` is unchanged. The tray item and the tooltip are built from that label |
| `PickMode.RedScreenSample` | src-tauri/src/color_picker.rs:60-70 | sampling a pure red screen yields `#FF0000`, rgb (255, 0, 0), at the cursor position |
| `PickMode.PressReleasePress` | src-tauri/src/lib.rs:157-205 | from idle with nothing sent, pick press, release and pick press over a screen that samples to `color` arm in between and leave the log `[pick-mode-started, color-picked(color)]` |
| `PickMode.PickRedExample` | src-tauri/src/lib.rs:169-189 | with the first candidate registered, a press arms, a release does nothing, and a second press over a red pixel leaves the log `[pick-mode-started, color-picked(#FF0000)]` |

## Left out

- Window handling is not modelled: hiding, showing and focusing the main window, and whether that window exists. None of it affects the flag or the events.
- The tray and menu builders, the Quit/Show items' window effects, `app.exit`, and plugin registration are not modelled.
- Emitting is modelled as appending to the log. A failed `app.emit` is ignored by the code, so the model does not represent it.
- Concurrency is not modelled. The `AtomicBool`s and the `Mutex` are plain fields, and every entry point is one atomic step. A poisoned mutex is not modelled; the code then reads "no shortcut".
- The Escape registration in `setup` is not modelled, because its result is only logged. The handler is modelled for any shortcut it is given.
- `restore_default_cursor_force`, which `setup` calls, is not part of this model. Its definition is not among the files of the core.
- Win32 and xcap calls are parameters, not code: `GetCursorPos`, `GetDC`, `GetPixel`, `ReleaseDC`, `CreateDIBSection`, `CreateBitmap`, `CreateIconIndirect`, `SetSystemCursor`, `SystemParametersInfoW`, `Monitor::all` and `capture_image`. So are the PNG and base64 encoding and the icon decoding (`image::load_from_memory`).
- The monochrome AND mask passed to `CreateIconIndirect` is not modelled. Its contents are left to `CreateBitmap`.
- Monitor edges such as `x + w` are computed on unbounded integers. An `i32` overflow there would need a monitor near the 2^31 boundary.
- `SetPickCursor` and `PremultiplyToBgra` require the decoded icon to hold exactly `w * h * 4` bytes. `to_rgba8` always produces such a buffer; the code would panic on a shorter one.
- `PremultiplyToBgra`: `w * h * 4` is taken as an exact length. The embedded icon is 64 by 64, so the `u32` product cannot wrap.
- History storage (`storage.rs`), the 100-entry history rules and the clipboard are not modelled; the history rules are not in the back end at all. The only behaviour there that touches this core is that a missing history file loads as an empty list.
- Console logging is not modelled: the `println!` and `eprintln!` calls in `set_pick_cursor` and `setup`. Nothing in the core depends on them.
- The non-Windows stubs of `color_picker.rs` are not modelled; they only return errors or do nothing.
- The sampling tick loop, DPI mapping and the three-failure escalation are not modelled, because they are not in this code.
