# WinSeek window switcher: a Dafny model of its core

WinSeek is a Windows quick-switcher. A global hotkey (Control+Alt+Space) opens a launcher. The
launcher takes a snapshot of the visible top-level windows, with each window's icon decoded to
RGBA pixels. The user types a query, the snapshot is re-ranked by fuzzy score on every frame,
and the chosen window is brought to the foreground.

This project models the decision logic around the Win32 calls. Each Win32 call is replaced by
its result, given as data:

- `WinShit` (`src/winshit/mod.rs`) covers:
  - the window filter of `enum_window_proc` and the record it appends to the caller's list;
  - the icon-handle fallback, the geometry and the error order of `get_window_icon_data`;
  - the BGRA to RGBA conversion of `convert_to_color_image`;
  - the 32×32 transparent placeholder;
  - the inventory that `EnumWindows` builds;
  - the call sequence of `focus_window`;
  - the file-name sanitiser of `_save_icon_to_bin`.

  A `WindowDescriptor` carries what the platform reports for one window: style bits, ex-style
  bits, text, class name, and an `IconSource`. The `IconSource` holds:
  - the four icon-handle candidates;
  - the result of `GetIconInfo` for each handle;
  - whether `CreateDIBSection` and `GetDIBits` succeed;
  - the bytes the DIB section holds afterwards.
- `App` (`src/app/mod.rs`) covers the in-place stable sort of the snapshot by descending
  fuzzy score in `MyApp::update`, Escape and Enter, the row loop with its top-element flag, and
  the click handling of `window_element`.
  - The fuzzy matcher (`sublime_fuzzy`) is a parameter: `Matcher(query, title)` gives the best
    match's score, or `None` when nothing matches. No match scores 0.
  - `slice::sort_by` is modelled by an insertion-sort definition, `StableSortDesc`. It is proved
    to be the only result that is sorted by non-increasing score and keeps the order of windows
    with equal scores. So it agrees with any stable sort.
- `WinSeek` (`src/main.rs`) covers:
  - the `IS_OPEN` guard of `create_frame`, as a `Launcher` class and a pure `Idle`/`Open`
    state machine;
  - the hotkey listener loop;
  - the consumer loop;
  - the `app_width` arithmetic.

  The two threads are modelled one after the other: the listener is a loop over the messages
  `GetMessageW` returns, and the guard runs over a sequence of open requests and session returns.

Behaviour of the code that the model keeps:

- A title is rejected only when it is empty (`is_empty`, no trimming). A whitespace-only title
  is listed (`WinShit.WhitespaceTitleKept`).
- The error names are the code's own: `NoIcon`, `GetIconInfoFailed`, `CreateDIBSectionFailed`,
  `GetDIBitsFailed`. They are checked in that step order.
- Each `PeekMessageW(PM_REMOVE)` after `GetMessageW` removes the next queued message, if there
  is one, and nothing reads it. As a result, two hotkey presses queued before the listener wakes
  send only one signal (`WinSeek.QueuedPressesCoalesce`). This is listed under Findings.
- The consumer's `create_frame` blocks in `run_native` until its session ends. Signals queued
  during a session are handled afterwards, and each opens its own session
  (`WinSeek.OneSessionPerConsumedSignal`). `IS_OPEN` suppresses only requests that arrive while a
  session is open (`WinSeek.SuppressedWhileOpen`). In the code shown the guard never fires: the
  consumer loop cannot reach it, because `create_frame` blocks in `run_native`, and the only other
  caller, the tray menu's "Open WinSeek" item, is dispatched by the `systray` crate. The one
  dispatch call in the code, `wait_for_message` (src/main.rs:128), comes after the consumer loop
  has ended. When a tray request runs relative to a session depends on that crate, which is not
  part of this model.
- Enter focuses index 0 of the order the previous frame rendered, because the handler runs
  before this frame's sort. Enter on an empty snapshot panics: `Update` returns `Panicked`.
- `xHotspot * 2` is computed in `u32`, so it wraps around in a release build (`Double32`).

## Model

| member | source | states |
|---|---|---|
| WinShit.ReadText | src/winshit/mod.rs:45-51 | the title and class name are the window's text cut to 1023 and 255 units: shorter text is kept whole, longer text keeps exactly its first 1023 or 255 units; the read text is empty exactly when the window text is empty |
| WinShit.RecordsFor | src/winshit/mod.rs:40-87 | a window yields one record iff WS_VISIBLE is set, WS_EX_TOOLWINDOW is clear, the untrimmed title is non-empty and the class is not Windows.UI.Core.CoreWindow; the record carries the window's handle and title; a failed extraction gives the placeholder icon and size (32,32) |
| WinShit.WhitespaceTitleKept | src/winshit/mod.rs:53 | a visible, non-tool window titled " " is recorded: titles are not trimmed |
| WinShit.EnumWindowProc | src/winshit/mod.rs:40-87 | always returns TRUE; the caller's list becomes its old contents followed by this window's record, if any |
| WinShit.FirstNonZero | src/winshit/mod.rs:113-129 | the result is 0 iff every candidate is 0; otherwise it is the first non-zero candidate |
| WinShit.Double32 | src/winshit/mod.rs:136-137 | doubling a u32 hotspot is exact below 2^31 and wraps by 2^32 above |
| WinShit.ReadBack | src/winshit/mod.rs:190-191 | the bytes copied out of the DIB section number width·height·4 and are the surface bytes in order |
| WinShit.IconOutcome | src/winshit/mod.rs:110-198 | on success the buffer length is width·height·4 |
| WinShit.GetWindowIconData | src/winshit/mod.rs:110-198 | NoIcon iff all four candidates are 0; GetIconInfoFailed, CreateDIBSectionFailed, GetDIBitsFailed iff that step is the first to fail, in step order; on success the size is twice the hotspot and the buffer holds width·height·4 surface bytes |
| WinShit.ConvertToColorImage | src/winshit/mod.rs:229-245 | size is [width,height]; there is one pixel per 4 bytes; pixel k is (data[4k+2], data[4k+1], data[4k], data[4k+3]), with alpha unchanged |
| WinShit.DecodeEncode | src/winshit/mod.rs:232-238 | decoding the BGRA encoding of any pixels gives them back |
| WinShit.EncodeDecode | src/winshit/mod.rs:232-238 | re-encoding decoded bytes gives the bytes back: the conversion is a byte permutation |
| WinShit.EncodeBgraAt | src/winshit/mod.rs:232-238 | the BGRA encoding puts pixel k's b, g, r, a at offsets 4k to 4k+3 |
| WinShit.DecodeSample | src/winshit/mod.rs:232-238 | bytes [10,20,30,40] decode to (30,20,10,40) |
| WinShit.DecodedPixelCount | src/winshit/mod.rs:229-244 | a buffer of width·height·4 bytes gives width·height pixels |
| WinShit.Placeholder | src/winshit/mod.rs:68-73 | the placeholder is 32×32 with 1024 transparent pixels |
| WinShit.RecordIcon | src/winshit/mod.rs:61-76 | the record's icon matches its reported size; a failed extraction gives the placeholder and (32,32); otherwise it is the decoded buffer at the extracted size |
| WinShit.Inventory | src/main.rs:25-31 | the list EnumWindows fills through the callback (src/winshit/mod.rs:78-83), in enumeration order: the definition the Inventory lemmas are about; it has no more records than windows |
| WinShit.InventoryAppend | src/winshit/mod.rs:78-86 | appending windows to the enumeration appends their records: earlier entries are unchanged and order is kept |
| WinShit.InventoryRecordsListed | src/winshit/mod.rs:40-86 | there are no more records than windows, and each record is the record of a listed window |
| WinShit.ListedWindowRecorded | src/winshit/mod.rs:40-86 | each listed window's record is in the inventory, after the records of the windows enumerated before it |
| WinShit.InventoryWellFormed | src/winshit/mod.rs:61-83 | every record has a non-empty title and an icon whose pixel count matches its reported size |
| WinShit.InventoryHandlesDistinct | src/winshit/mod.rs:78-83 | distinct window handles give records with distinct handles |
| WinShit.EnumerateWindows | src/main.rs:25-31 | EnumWindows driving the callback into an empty list gives the inventory of the windows, in enumeration order |
| WinShit.FocusWindow | src/winshit/mod.rs:90-100 | ShowWindow(SW_NORMAL) is called iff the window is iconic; an error is logged iff ShowWindow returns FALSE (in Win32 that BOOL reports that the window was hidden before the call, not a failure); SwitchToThisWindow(h, TRUE) is always the last call |
| WinShit.KeptChars | src/winshit/mod.rs:207-210 | every kept character is alphanumeric or a space, and the result is no longer than the name |
| WinShit.SanitizedFileName | src/winshit/mod.rs:207-211 | the file name is the kept characters of the title followed by "_icon.bin" |
| WinShit.KeptCharsMembership | src/winshit/mod.rs:207-210 | a character is kept iff it occurs in the name and is alphanumeric or a space |
| WinShit.KeptCharsAppend | src/winshit/mod.rs:207-210 | the filter keeps characters in order: filtering a concatenation concatenates the filtered parts |
| WinShit.KeptCharsIdempotent | src/winshit/mod.rs:207-210 | sanitising a sanitised name changes nothing |
| App.StableSortDesc | src/app/mod.rs:46-64 | `sort_by` with `b.cmp(a)` on the score: a stable sort by descending key, the definition the sort lemmas are about; it keeps the length |
| App.SortIsSorted | src/app/mod.rs:46-64 | after the sort, scores do not increase from index 0 onward |
| App.SortPermutes | src/app/mod.rs:46 | the sort is a permutation: no window added, dropped or duplicated |
| App.SortIsStable | src/app/mod.rs:46-64 | windows with equal score keep their relative order |
| App.StableSortUnique | src/app/mod.rs:46-64 | two orders that are both sorted by descending score and both keep per-score order are equal |
| App.StableSortCharacterised | src/app/mod.rs:46-64 | any stable sort by descending score equals StableSortDesc, so the model is exactly what sort_by returns |
| App.AllTiedUnchanged | src/app/mod.rs:46-64 | when all scores are equal the order is unchanged |
| App.HighestKeyFirst | src/app/mod.rs:46-64 | the first window after the sort has the highest score of all |
| App.TitleScore | src/app/mod.rs:47-62 | a title with no fuzzy match scores 0; otherwise it scores the best match's score |
| App.RankByScore | src/app/mod.rs:46-64 | the order the windows are shown in for a query: StableSortDesc by TitleScore, the definition RankedNonIncreasing and NoMatchKeepsOrder are about; it keeps the length |
| App.RankedNonIncreasing | src/app/mod.rs:46-64 | the ranked snapshot is a permutation of the snapshot, with scores non-increasing |
| App.NoMatchKeepsOrder | src/app/mod.rs:46-64 | when no title matches the query, the ranking leaves the order unchanged |
| App.WindowElement | src/app/mod.rs:79-101 | a row is highlighted iff it is rendered as the top element; a click focuses exactly this row's handle and answers true, otherwise it answers false |
| App.RenderRows | src/app/mod.rs:65-72 | only the first row is highlighted; a click on row c focuses exactly rows[c] and closes; without a click nothing is focused or closed |
| App.MyApp.constructor | src/main.rs:64-68 | the session starts with the snapshot and an empty query |
| App.MyApp.Update | src/app/mod.rs:19-76 | Escape closes without focusing; Enter focuses windows[0] and closes, or panics on an empty list with the state unchanged; then the query is the edited one, the windows are ranked by score, only row 0 is highlighted, and a clicked row is focused and closes |
| WinSeek.TruncDiv | src/main.rs:42 | the i32 quotient truncates toward zero: the remainder has the sign of the dividend and is smaller than the divisor |
| WinSeek.AppWidth | src/main.rs:42 | the width is at least 400 and at least screen_width / 3, and it is one of the two |
| WinSeek.AppWidthThird | src/main.rs:42 | on a screen at least 1200 wide the width is a third of the screen, rounded down |
| WinSeek.UntilQuit | src/main.rs:91 | the loop runs exactly the turns before the first WM_QUIT |
| WinSeek.HotkeysInAppend | src/main.rs:91-97 | counting hotkey messages distributes over concatenation |
| WinSeek.SignalsAccountForQueue | src/main.rs:91-99 | signals sent plus hotkey messages discarded by PeekMessageW equal the hotkey messages taken off the queue |
| WinSeek.OneSignalPerHotkey | src/main.rs:91-97 | when PeekMessageW discards no hotkey message, exactly one signal is sent per WM_HOTKEY message with wParam == HOTKEY_ID |
| WinSeek.NoneSwallowed | src/main.rs:98 | when no peeked message is a hotkey, PeekMessageW discards no hotkey message |
| WinSeek.QueuedPressesCoalesce | src/main.rs:91-99 | two presses queued together are two hotkey messages but send one signal |
| WinSeek.HotkeyListener | src/main.rs:82-107 | a failed registration sends nothing and returns before the loop; otherwise one signal per matching message before WM_QUIT, then UnregisterHotKey is called iff WM_QUIT arrived (its own success is not modelled) |
| WinSeek.UntilQuitIsPrefix | src/main.rs:91 | the turns the loop runs are the prefix up to the first WM_QUIT |
| WinSeek.MessagesUntilQuit | src/main.rs:91 | the messages taken by a listener that peeks nothing are the prefix before the first WM_QUIT, and none of them is WM_QUIT |
| WinSeek.HotkeyListenerWithoutPeek | src/main.rs:82-107 | the corrected listener (see Findings): one signal per hotkey message it takes off the queue before WM_QUIT, and UnregisterHotKey is called iff WM_QUIT arrived |
| WinSeek.QueuedPressesBothSignal | src/main.rs:91-99 | without the peek, two presses queued together send two signals |
| WinSeek.Step | src/main.rs:18-22 | a session starts iff an open request finds the guard idle; a request leaves it open, and a session's return leaves it idle |
| WinSeek.SessionsBoundedByReturns | src/main.rs:19-73 | a run of events starts no more sessions than it has returns, plus one when it starts idle |
| WinSeek.SessionReturnBetweenStarts | src/main.rs:19-73 | sessions never overlap: between any two events that start a session there is a session return |
| WinSeek.SuppressedWhileOpen | src/main.rs:20-22 | requests that arrive while a session is open start nothing and leave the guard open |
| WinSeek.ConsumerEvents | src/main.rs:124-126 | n received signals give 2n guard events |
| WinSeek.OneSessionPerConsumedSignal | src/main.rs:124-126 | n signals consumed from idle open n sessions, each Idle to Open to Idle, and end idle |
| WinSeek.Launcher.constructor | src/main.rs:18 | IS_OPEN starts false |
| WinSeek.Launcher.CreateFrame | src/main.rs:19-70 | while open: returns at once with no enumeration and no state change; otherwise it enumerates into an empty list, sets IS_OPEN, hands a fresh MyApp the snapshot with an empty query, and returns the launcher width that goes to the window options |
| WinSeek.Launcher.SessionReturned | src/main.rs:71-73 | IS_OPEN is false once run_native returns |
| WinSeek.Launcher.ConsumeSignals | src/main.rs:124-126 | one create_frame per received signal, in receipt order; each opens a session with its own fresh snapshot and an empty query; the guard ends idle |

## Left out

- All Win32 effects are inputs, not modelled: `EnumWindows` invoking the callback, `GetWindowLongW`, `GetWindowTextW`, `GetClassNameW`, `SendMessageW`, `GetClassLongPtrW`, `GetIconInfo`, `CreateCompatibleDC`, `CreateDIBSection`, `SelectObject`, `DrawIconEx`, `GetDIBits`, `IsIconic`, `ShowWindow`, `SwitchToThisWindow`, `RegisterHotKey`, `UnregisterHotKey`, `GetMessageW`, `PeekMessageW` and `GetSystemMetrics`. Their results are parameters or descriptor fields.
- GDI object lifetime is not modelled: the DC and bitmap release calls, and the early error returns that skip them.
- `GetMessageW` returning -1 (an error) is not modelled. A turn is either a message or WM_QUIT.
- Double32: the overflow panic of a debug build is not modelled. The model follows the release build, which wraps.
- The `usize` product `icon_width * icon_height * 4` and the `as i32` casts into the bitmap header are not modelled for overflow. Whether `CreateDIBSection` succeeds is an input.
- The fuzzy scorer `sublime_fuzzy` is foreign code, so it is a parameter (`Matcher`). The model makes no claim about case-insensitivity or empty-query scores.
- Premultiplication in `Color32::from_rgba_unmultiplied` is library arithmetic. Pixels are kept as the unmultiplied `(r, g, b, a)` arguments, and `TRANSPARENT` is `(0, 0, 0, 0)`.
- UTF-16 decoding: titles and class names are opaque strings whose characters stand for UTF-16 units.
- The sanitiser's `char::is_alphanumeric` is Unicode classification, so it is a parameter. The file I/O of `_save_icon_to_bin` is not modelled: the existence check, create and write.
- The thread and the `mpsc` channel are not modelled as concurrency. The listener yields a count of signals. The consumer and tray-menu requests are a sequence of `LaunchEvent`s, or calls on `Launcher`. `create_frame` is split at `run_native`: `CreateFrame` is the part before it, and `SessionReturned` is the moment it returns.
- Presentation is not modelled: `custom_window_frame`, the text edit widget, textures, `clear_color`, layout, `frame.focus()` and how a highlighted row looks. The text edit's effect on the query is the frame input `editedQuery`.
- Also not modelled: the tray menu and its Exit item, loading the logo, logging, the `Debug` output of `WindowInfo`, the `eframe` error that `create_frame().unwrap()` would panic on, and the float window position (`x_center`).

## Findings

| source | as written | input that shows it | evidently intended | confidence | as-written member | corrected member |
|---|---|---|---|---|---|---|
| src/main.rs:98 | after each `GetMessageW` the listener calls `PeekMessageW(..., PM_REMOVE)` and ignores the message it removes, so a hotkey message queued behind another is lost | two WM_HOTKEY messages with wParam 1 queued before the listener wakes, then WM_QUIT: two presses are taken off the queue and one signal is sent | one signal per WM_HOTKEY message with the hotkey's id | medium, not executed | WinSeek.QueuedPressesCoalesce, with WinSeek.SignalsAccountForQueue and WinSeek.HotkeyListener | WinSeek.HotkeyListenerWithoutPeek, with WinSeek.QueuedPressesBothSignal |

The consumer side (`Launcher.ConsumeSignals`, `OneSessionPerConsumedSignal`) takes a number of
signals, so it serves the count either listener produces unchanged. Merging duplicate signals into
one session is the job of the consumer's `IS_OPEN` guard, not of the listener; in the code shown
that guard never fires, so with the corrected listener two queued presses open two sessions, one
after the other.
