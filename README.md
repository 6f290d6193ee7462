# CodePad editor session, modelled in Dafny

CodePad is a small GTK 3 code editor. It has one text buffer, a line-number
gutter, a status bar, a header-bar title, a search bar, light and dark
themes, zoom, and an embedded VTE terminal. This project models the editor's
session: the buffer text and the fields of the `CodeEditor` struct that the
application owns (`current_file`, `is_modified`, `dark_mode`, `zoom_level`,
`terminal_visible`). It covers the signal handlers that change them, the
views derived from them, and the start-up state.

The modules:

- `Session` has one value-level transition function per handler of
  `callbacks.c` (New, Open, Save, Save As, text changed, zoom, the two
  toggles, the close prompt). It also has the properties proved about them,
  singly and over any sequence of events (`Step`, `Run`).
- `Callbacks` has the class `CodeEditor`. Its fields are the struct's fields
  and its methods update them in place, as the handlers do. Each method is
  proved to leave the state its `Session` function specifies. The
  constructor is `main`'s set-up.
- `EditorViews` has the window title (`update_window_title`, with
  `g_path_get_basename`), the gutter text built by the loop of
  `update_line_numbers`, and the four numbers and the text of
  `update_status_bar`.
- `Decimal` has printf's `"%d"` for non-negative values, with a parser that
  reads it back. The parser is used to prove that the status text determines
  its numbers.
- `Search` has the search entry handler `on_search_changed`.
- `Monolithic` has what the single-file build adds: the Ctrl+Q quit, and the
  rule for choosing the terminal's shell. Its copies of the other handlers,
  views and start-up behave the same on the modelled fields as `callbacks.c`,
  `editor.c` and `main.c`, so the same members model both builds. The rows
  below cite both copies where they matter. The copies differ elsewhere:
  - its `on_open_file` offers more file filters (monolithic.c:212-235) and,
    after a successful read, feeds a `cd` line to the terminal
    (monolithic.c:255-263);
  - its `on_window_delete` adds a secondary text and a default response, and
    after "Save" falls through to the single `return FALSE` at the end
    (monolithic.c:569-590), where callbacks.c returns FALSE at once;
  - its `main` builds the widgets inline and creates the terminal with
    `create_terminal_improved` (monolithic.c:884-960);
  - its terminal close button is wired to `on_toggle_terminal`
    (monolithic.c:820), which terminal.c's is not;
  - it wires Ctrl+Q to `on_quit` (monolithic.c:849-850) and connects the
    header-bar buttons (monolithic.c:657-668).

Whatever the outside world answers is an argument of the transition:

- the file chooser's Accept (with the chosen path) or any other response;
- the result of `g_file_get_contents`;
- the result of `g_file_set_contents`;
- the close dialog's response code (`GTK_RESPONSE_YES` = -8, `NO` = -9,
  `CANCEL` = -6, `DELETE_EVENT` = -4);
- the cursor offset;
- the current selection;
- the set of existing paths.

A save returns the write it issued: the path and the text.

The model follows the code where the code is less careful than one might
expect:

- New and Open never ask about unsaved changes.
- `gtk_text_buffer_set_text` emits "changed" whenever the old buffer or the
  new contents are non-empty, and then `is_modified` is set to true before New
  and Open reset it.
- Choosing "Save" in the close prompt lets the window close even when the
  save failed or its file dialog was dismissed.

One might expect a failed save to abort the close. The code does not, and
the model follows the code
(`Session.CloseProceedsAfterFailedSave`, `Session.CloseProceedsAfterCancelledSave`).

## Model

| member | source | states |
|---|---|---|
| Session.Initial | main.c:9-13 | The start state: empty buffer, no file, not modified, dark mode, zoom 12, terminal hidden (the zeroed field). Zoom 12 is even and inside [8, 24]. |
| Callbacks.CodeEditor.constructor | main.c:9-13 | The zeroed struct, followed by main's four assignments, leaves exactly `Session.Initial()`, and the zoom invariant holds. |
| Session.TextChanged | callbacks.c:189-194 | The "changed" handler sets `is_modified` to true and leaves every other field as it was. |
| Callbacks.CodeEditor.OnTextChanged | callbacks.c:189-194 | Updating the field in place gives `TextChanged` of the old state. |
| Session.SetText | callbacks.c:223 | `set_text` leaves the new text; the flag becomes true iff it already was, or the old text or the new text is non-empty (each non-empty delete or insert emits "changed"); file and preferences are unchanged. |
| Callbacks.CodeEditor.SetBufferText | callbacks.c:223 | The delete-then-insert sequence, each step firing the handler when non-empty, gives `SetText` of the old state. |
| Session.Edit | callbacks.c:189-194 | A user edit leaves the new text and a modified buffer, and keeps the file and the preferences. |
| Callbacks.CodeEditor.UserEdit | monolithic.c:426-432 | The in-place edit followed by the handler gives `Edit` of the old state. |
| Session.NewFile | callbacks.c:6-16 | Whatever the prior state: empty text, no file, not modified, preferences kept. It takes no answer from the user, so nothing is asked. |
| Session.NewIsIdempotent | monolithic.c:186-198 | New applied twice gives the same state as New applied once. |
| Callbacks.CodeEditor.OnNewFile | callbacks.c:6-16 | The handler gives `NewFile` of the old state. In between, `set_text` has already made the flag true whenever the old buffer had text. |
| Session.OpenFile | callbacks.c:33-60 | A dismissed chooser or a failed read changes nothing. A successful read leaves the contents as text, the chosen path as file, and the flag false. Preferences are kept. |
| Callbacks.CodeEditor.OnOpenFile | monolithic.c:237-278 | The handler gives `OpenFile` of the old state for every chooser answer and read result. |
| Session.SaveFile | callbacks.c:63-89 | Without a file it is Save As. Otherwise it writes the whole text to the current file, and clears the flag iff the write succeeded. Stated as `SavedAs` of the save target. |
| Session.SaveAsFile | callbacks.c:91-108 | Dismissed: nothing changes and nothing is written. Accepted: the file becomes the chosen path and the text is written there, and the flag is cleared iff the write succeeded. |
| Callbacks.CodeEditor.OnSaveFile | monolithic.c:283-315 | The mutually recursive handler returns the same write and leaves the same state as `SaveFile`. |
| Callbacks.CodeEditor.OnSaveAsFile | monolithic.c:317-337 | Sets the file before calling Save, and ends where `SaveAsFile` does. |
| Session.SaveKeepsDocument | callbacks.c:63-89 | Saving never changes the text or the preferences. With a file name it does not change the file name. |
| Session.SaveWithFileAsksNothing | callbacks.c:64-67 | With a current file the chooser's answer is irrelevant, because no dialog is shown. |
| Session.SaveAsRenamesEvenOnFailure | callbacks.c:100-106 | Save As with a failed write still renames the file, and leaves the flag as it was. |
| Session.SaveRecursionOneLevel | callbacks.c:63-67 | With no file, Save on Accept is exactly a direct Save under the chosen name. The recursion is one level deep. |
| Session.OpenThenSaveWritesBack | callbacks.c:39-43 | Opening a file and then saving writes the opened contents back to the same path. |
| Session.ZoomIn | callbacks.c:151-154 | Exactly `MIN(z + 2, 24)`: the result is at most z + 2 and at most 24, and equals one of them. |
| Session.ZoomOut | callbacks.c:156-159 | Exactly `MAX(z - 2, 8)`: the result is at least z - 2 and at least 8, and equals one of them. |
| Callbacks.CodeEditor.OnZoomIn | monolithic.c:389-393 | The C `MIN` macro changes only the zoom field, to `ZoomIn` of the old one. |
| Callbacks.CodeEditor.OnZoomOut | monolithic.c:395-399 | The C `MAX` macro changes only the zoom field, to `ZoomOut` of the old one. |
| Session.ZoomKeepsRange | callbacks.c:151-159 | From an even level in [8, 24], both zooms stay even and in [8, 24]. |
| Session.ZoomInverses | callbacks.c:151-159 | Zoom in at 24 and zoom out at 8 do nothing. Elsewhere in range, zoom in and zoom out undo each other. |
| Session.ToggleTheme | callbacks.c:161-164 | Negates `dark_mode` and changes nothing else. |
| Session.ToggleTerminal | callbacks.c:166-177 | Negates `terminal_visible` and changes nothing else. |
| Session.TogglesAreInvolutions | callbacks.c:161-177 | Each toggle applied twice is the identity. |
| Callbacks.CodeEditor.OnToggleTheme | monolithic.c:401-405 | The in-place negation gives `ToggleTheme` of the old state. |
| Callbacks.CodeEditor.OnToggleTerminal | monolithic.c:65-84 | The if/else on the flag gives `ToggleTerminal` of the old state. |
| Session.WindowDelete | callbacks.c:196-219 | It vetoes iff the buffer is modified and the response is Cancel. An unmodified buffer closes with no change. Yes runs exactly `SaveFile` and then closes. Any other response closes with no change and no write. |
| Callbacks.CodeEditor.OnWindowDelete | monolithic.c:562-591 | The handler returns the same veto and write, and leaves the same state, as `WindowDelete`. |
| Session.CloseProceedsAfterFailedSave | callbacks.c:211-213 | After Yes and a failed write, the close is not vetoed and the buffer is still modified. |
| Session.CloseProceedsAfterCancelledSave | monolithic.c:581-590 | After Yes, with no file and the Save dialog dismissed, the window closes with nothing written and nothing changed. |
| Session.StepKeepsZoomInvariant | callbacks.c:151-159 | Every handler keeps the zoom level even and in [8, 24]. |
| Session.ReachableZoomInvariant | monolithic.c:389-399 | By induction over any event sequence, the zoom invariant holds after every run that starts where it holds. |
| Session.InitialRunZoom | main.c:11 | Every zoom level reachable from start-up is even and in [8, 24]. |
| Session.ModifiedClearedOnlyBySuccess | callbacks.c:6-108 | A modified flag becomes false only through New, an accepted and successful Open, or a save that has a target and whose write succeeded (Save, Save As, or Yes in the close prompt). An edit, zoom or toggle never clears it. |
| EditorViews.Basename | editor.c:69 | `g_path_get_basename`: "." for an empty path, "/" for a path of separators only, and otherwise the last component after trailing separators are removed; never empty, and either "/" or free of separators. |
| EditorViews.BasenameEdgeCases | editor.c:69 | "/a/b/" has basename "b", and "//" has basename "/". |
| EditorViews.BasenameOfJoin | editor.c:69 | The basename of "dir/name" is "name". |
| EditorViews.WindowTitle | editor.c:66-77 | A modified buffer's title ends with " •". |
| EditorViews.TitleMarkedIffModified | editor.c:70-73 | The title ends with " •" iff the buffer is modified, when the file's own basename does not end with " •". |
| EditorViews.TitleShowsName | monolithic.c:474-489 | With the marker removed, the title is the file's basename, or "Untitled" when there is no file. |
| EditorViews.TitleMarkerAmbiguous | editor.c:70 | Without that proviso the iff fails. An unmodified file named "notes •" gets a title that ends with the marker. |
| Callbacks.TitleAfterNew | callbacks.c:6-16 | After New the title is "Untitled" with no marker. |
| Callbacks.TitleAfterOpen | callbacks.c:39-45 | After a successful Open of "dir/name", the title is "name" with no marker. |
| Callbacks.TitleAfterEdit | callbacks.c:189-191 | After an edit the title carries the marker. |
| Callbacks.TitleAfterSuccessfulSave | callbacks.c:74-76 | After a save with a target and a successful write, the title carries no marker. |
| Callbacks.SaveUntitledScenario | callbacks.c:91-106 | New, typing "hello", then Save with the dialog accepting "/tmp/x.txt" writes "hello" to that path and leaves the buffer unmodified under that name, with the class's `Title()` reading "x.txt". |
| EditorViews.Count | editor.c:37-42 | The number of line breaks in a text is at most its length. |
| EditorViews.CountPresent | editor.c:37 | A text that holds a '\n' counts at least one line break. |
| EditorViews.CountZeroIff | editor.c:37 | A text has zero line breaks iff it holds no '\n'. |
| EditorViews.LineOf | editor.c:37 | `gtk_text_iter_get_line` of an offset: at most the offset, at most the line index of the buffer end, and 0 iff no '\n' comes before the offset. |
| EditorViews.TotalLines | editor.c:40-42 | The end iterator's line plus one, so always at least 1. |
| EditorViews.LineStart | editor.c:38 | The start of the cursor's line: at or before the cursor, with no '\n' between it and the cursor, and either at offset 0 or just after a '\n'. |
| EditorViews.Status | editor.c:32-46 | The line is 1-based and at most the total, and line − 1 is the number of '\n' before the cursor. The total − 1 is the number of '\n' in the buffer. The column is 1-based, at most cursor + 1, and counts back to the line start. The character count is the buffer length. |
| EditorViews.FormatStatus | editor.c:45-46 | The `g_strdup_printf` text begins "Line " and ends " characters". Its four numbers are recovered by `StatusRoundTrip`. |
| EditorViews.StatusMessage | editor.c:32-48 | The message pushed to the status bar parses back to exactly the numbers of `Status` for that buffer and cursor. |
| EditorViews.StatusRoundTrip | editor.c:45-46 | The text "Line L/T, Column C • N characters" parses back to exactly its four numbers. |
| EditorViews.LiteralThenNatDec | monolithic.c:451-452 | A literal followed by a printed number reads back as that number, leaving what followed. |
| EditorViews.CountAppend | editor.c:42 | Counting line breaks distributes over concatenation. |
| EditorViews.CountAbsent | editor.c:59 | A string with no '\n' contributes no line breaks. |
| EditorViews.CountPrefixMonotone | editor.c:37-42 | The cursor's line index is at most the end's line index. |
| EditorViews.Gutter | editor.c:57-60 | The gutter for n lines is at least 2n characters long and, for n > 0, ends with a newline. Its exact newline count and prefix order are `GutterNewlines` and `GutterPrefix`. |
| EditorViews.GutterNewlines | editor.c:58-60 | The gutter for n lines has exactly n newlines. |
| EditorViews.GutterPrefix | monolithic.c:465-468 | Each loop step only appends: the gutter for m lines is a prefix of the gutter for n ≥ m lines. |
| EditorViews.GutterStartsAtOne | editor.c:58-59 | The gutter for n ≥ 1 lines begins "1\n", so it is never empty. |
| EditorViews.LineNumbersLabel | editor.c:52-64 | The loop builds exactly "1\n2\n…T\n" for the buffer's T lines. It has exactly T newlines and starts "1\n". |
| EditorViews.EmptyBufferGutter | editor.c:8 | The empty buffer's gutter is "1\n", the text the gutter label is created with. |
| Decimal.DigitChar | editor.c:59 | A digit value below 10 prints as a decimal digit. |
| Decimal.DigitValue | editor.c:59 | A decimal digit reads back as the value that prints as it. |
| Decimal.Dec | editor.c:59 | `"%d"` of a non-negative value is a non-empty run of digits, with no leading zero except for 0 itself. |
| Decimal.ValueOfDec | editor.c:59 | Reading back the digits `"%d"` printed gives the value. |
| Decimal.DigitRun | editor.c:45-46 | The maximal digit prefix: all digits, and followed by a non-digit or by the end. |
| Decimal.DigitRunOfDigits | editor.c:45-46 | A printed number followed by a non-digit is read exactly to its end. |
| Decimal.ParseNatDec | editor.c:45-46 | A printed number followed by a non-digit parses back to the number and the rest. |
| Decimal.DecInjective | editor.c:45-46 | Distinct numbers print differently. |
| EditorViews.StripTrailingSeparators | editor.c:69 | Removes only trailing '/' characters, and leaves no '/' at the end. |
| EditorViews.LastComponent | editor.c:69 | The longest separator-free suffix, preceded by '/' when it is not the whole path. |
| Search.FindFrom | callbacks.c:142-143 | The first occurrence at or after the start offset, or None exactly when there is no occurrence there. |
| Search.ForwardSearch | monolithic.c:375-380 | For the non-empty query the handler passes, a match is the earliest occurrence and its range has the query's length. None means the query occurs nowhere. |
| Search.SearchChanged | callbacks.c:137-149 | An empty query keeps the selection. A query that occurs selects its earliest occurrence, compared exactly. A query that does not occur keeps the selection. |
| Monolithic.Quit | monolithic.c:339-342 | Ctrl+Q stops the main loop and leaves the state as it is, modified or not. |
| Monolithic.CloseWindow | monolithic.c:943-945 | A window close keeps the program running iff it was running, the buffer is modified, and the answer is Cancel; the state is the one `on_window_delete` leaves (after a save on Yes). |
| Monolithic.QuitBypassesPrompt | monolithic.c:849-850 | From a running, modified session, Ctrl+Q quits with the changes unsaved, where closing the window and answering Cancel would have kept it running. |
| Monolithic.ShellCandidates | monolithic.c:759-765 | Five candidates, and the first is $SHELL (None when unset). |
| Monolithic.FirstUsable | monolithic.c:768-773 | None iff no candidate is non-null and existing. Otherwise it is an existing candidate with no usable candidate before it. |
| Monolithic.ChosenShell | monolithic.c:767-777 | The shell is an existing path or the "/bin/sh" fallback, and it is an existing path whenever some candidate is usable. |
| Monolithic.SelectShell | monolithic.c:767-777 | The loop with its break, and the "/bin/sh" fallback, returns `ChosenShell`. |
| Monolithic.ChosenShellIsFirstExisting | monolithic.c:759-777 | The shell is the first existing candidate, or "/bin/sh" when no candidate exists. |
| Monolithic.ExistingShellEnvWins | monolithic.c:760 | An existing $SHELL is always chosen. |
| Monolithic.BashIsFirstFallback | monolithic.c:761 | With $SHELL unset or missing, an existing /bin/bash is chosen. |
| Monolithic.ChosenShellIsACandidate | monolithic.c:759-777 | The chosen shell is always one of the candidates, because "/bin/sh" is itself the third. |

## Left out

- ui.c and `apply_theme`: widget construction and the CSS text. The zoom level is only printed into it as a font size.
- Terminal creation (terminal.c, `create_terminal`, `create_terminal_improved` apart from its shell choice): the VTE/PTY spawn, the asynchronous spawn callbacks and their retry fallback. This is process management. terminal.c is not part of this model, except for its resetting `terminal_visible` to false, which agrees with the zeroed start state.
- The `cd '<dir>'` line that monolithic.c feeds to the terminal after a successful Open. It is I/O to a child process.
- Real file I/O and every dialog. Their answers are arguments of the transitions, and error dialogs have no effect on the state.
- The file chooser (`Session.Chooser`): Accept is assumed to yield a path. `gtk_file_chooser_get_filename` returns NULL for a non-local file, and that case is not modelled. In Open, `g_file_get_contents(NULL, …)` then fails without setting `error`, and the error dialog dereferences it (callbacks.c:39-53), so the program crashes. In Save As, `current_file` becomes NULL, dropping any earlier name (callbacks.c:101-105), and `on_save_file` opens Save As again (callbacks.c:64-66). So `Session.SaveRecursionOneLevel` ("one level deep") holds only under this assumption.
- Session.SaveRecursionOneLevel: proved for a chooser whose Accept yields a path; with the NULL name described above, Save As would recurse once more.
- The event sequences of `Session.Run` over-approximate the ones that can happen. `on_save_as_file` is connected to no button or accelerator in either build and is reached only through Save. `on_toggle_theme` is connected only in monolithic.c (monolithic.c:665). The modular build connects none of the header-bar buttons. Whatever `Run` is proved to keep holds a fortiori for the sequences that can actually happen.
- Clipboard cut and paste (callbacks.c:114-127, monolithic.c:344-360) are not modelled as operations of their own. They change the buffer text, which emits "changed" and sets `is_modified`, so each is a user edit, covered by `Session.Edit` and the `UserEdit` event. Only copy and `on_find`'s search-bar toggle leave the modelled state alone.
- Signal and accelerator wiring, the about dialog, the header bar, and `setup_editor`. The wiring appears only as the "changed" handler inside `SetText` and as `Monolithic.CloseWindow`.
- The modular build wires no Ctrl+Q, so `Monolithic.Quit` belongs to the single-file build only.
- Line breaks: GTK also ends lines at "\r", "\r\n" and U+2029. The model counts '\n' only, and that is an assumption.
- Characters: GTK counts characters, and the model counts elements of `string`.
- Invalid UTF-8 read from a file is not modelled, so `set_text` is treated as always succeeding.
- `int` overflow of the line, column and character counts, which needs more than 2^31 characters. The model's counts are unbounded.
- The terminal toggle's button label and focus side effects. Only the `terminal_visible` flag is modelled. The modular build never creates `terminal_button`.
- Where the cursor lands after `set_text`, and the scrolling to a search match. The cursor and the selection are GTK buffer state, so they are inputs of `EditorViews.Status` and `Search.SearchChanged`.
- EditorViews.WindowTitle: the title, the gutter and the status text are what `update_window_title`, `update_line_numbers` and `update_status_bar` compute when they are called, not what the widgets show at every moment. The handlers refresh the title only after New (callbacks.c:13, monolithic.c:195), a successful Open (callbacks.c:45, monolithic.c:251), a successful write in Save (callbacks.c:76, monolithic.c:299) and a "changed" signal (callbacks.c:191, monolithic.c:429). A failed write does not refresh it (callbacks.c:78-87). So after a Save As whose write fails, `current_file` holds the new path while the header still shows the old name: "Untitled •" where `CodeEditor.Title()` gives "x.txt •". At start-up the header reads "Code Editor with Terminal" (ui.c:12, monolithic.c:597), not "Untitled", until the first refresh. The status bar is refreshed at the same points and at start-up (main.c:23, monolithic.c:952), but not when the cursor moves, so it shows the cursor as of its last refresh.
- EditorViews.TitleMarkedIffModified: the iff is proved only for files whose basename does not itself end with " •". `EditorViews.TitleMarkerAmbiguous` shows that the code's title cannot tell the two cases apart.
- Monolithic.CloseWindow: the window's "destroy" signal ending the main loop is modelled as the program stopping. Widget teardown is not modelled.
