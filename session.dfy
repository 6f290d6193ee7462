/**
  The editor's session state machine as value-level transition functions, one
  per callback of callbacks.c (monolithic.c's copies behave the same on these
  fields). Each takes what the outside world answers -- the file chooser, the
  file read, the file write, the close dialog -- as arguments, so a transition
  is a function of the old state and those answers.

  The class CodeEditor (module Callbacks) updates its fields in place and is
  proved against these functions; the properties of the session are proved
  here, about the functions.
 */
module Session {
  import opened Wrappers

  // GtkResponseType values returned by gtk_dialog_run.
  const ResponseDeleteEvent: int := -4
  const ResponseCancel: int := -6
  const ResponseYes: int := -8
  const ResponseNo: int := -9

  const MinZoom: int := 8
  const MaxZoom: int := 24
  const ZoomStep: int := 2
  const InitialZoom: int := 12

  /**
    A file-chooser answer: Accept with the chosen file, or any other response.
    Accept is taken to yield a local path; the NULL name the chooser gives for
    a non-local file is not modelled.
   */
  datatype Chooser = Accepted(filename: string) | Dismissed

  /** The answer of g_file_get_contents. */
  datatype ReadResult = ReadOk(contents: string) | ReadFailed(message: string)

  /** The answer of g_file_set_contents. */
  datatype WriteResult = WriteOk | WriteFailed(message: string)

  /** A call of g_file_set_contents: the path written and the text written to it. */
  datatype FileWrite = FileWrite(path: string, contents: string)

  /** The part of the CodeEditor struct the application owns, and the buffer text. */
  datatype EditorState = EditorState(
    text: string,
    currentFile: Option<string>,
    isModified: bool,
    darkMode: bool,
    zoomLevel: int,
    terminalVisible: bool)

  /** The state after a save, and the file write it issued, if any. */
  datatype Saved = Saved(after: EditorState, written: Option<FileWrite>)

  /** The state after the close handler, whether it vetoed the close, and the write it issued. */
  datatype Closing = Closing(after: EditorState, veto: bool, written: Option<FileWrite>)

  /** Theme, zoom and terminal pane, which the document operations leave alone. */
  predicate SamePreferences(s: EditorState, r: EditorState) {
    r.darkMode == s.darkMode && r.zoomLevel == s.zoomLevel && r.terminalVisible == s.terminalVisible
  }

  /** Every zoom level the editor can reach: even and within [8, 24]. */
  predicate ZoomInvariant(s: EditorState) {
    MinZoom <= s.zoomLevel <= MaxZoom && s.zoomLevel % 2 == 0
  }

  /** The state main sets up: a zeroed struct, then dark mode, zoom 12, unmodified, no file. */
  function Initial(): (s: EditorState)
    ensures s.text == [] && s.currentFile.None? && !s.isModified
    ensures s.darkMode && s.zoomLevel == InitialZoom && !s.terminalVisible
    ensures ZoomInvariant(s)
  {
    EditorState([], None, false, true, InitialZoom, false)
  }

  // ---------------------------------------------------------------------------
  // Buffer changes
  // ---------------------------------------------------------------------------

  /** on_text_changed: the buffer's "changed" signal marks the document modified. */
  function TextChanged(s: EditorState): (r: EditorState)
    ensures r.isModified
    ensures r.(isModified := s.isModified) == s
  {
    s.(isModified := true)
  }

  /**
    gtk_text_buffer_set_text: deletes the old text, then inserts the new one.
    A delete or an insert of a non-empty range emits "changed", which is
    connected to on_text_changed.
   */
  function SetText(s: EditorState, t: string): (r: EditorState)
    ensures r.text == t
    ensures r.isModified <==> s.isModified || s.text != [] || t != []
    ensures r.currentFile == s.currentFile && SamePreferences(s, r)
  {
    if s.text == [] && t == [] then s else TextChanged(s.(text := t))
  }

  /** A user edit that leaves the buffer holding `t`. */
  function Edit(s: EditorState, t: string): (r: EditorState)
    ensures r.text == t && r.isModified
    ensures r.currentFile == s.currentFile && SamePreferences(s, r)
  {
    TextChanged(s.(text := t))
  }

  // ---------------------------------------------------------------------------
  // New and Open
  // ---------------------------------------------------------------------------

  /** on_new_file: clears the buffer and the file name; asks nothing. */
  function NewFile(s: EditorState): (r: EditorState)
    ensures r.text == [] && r.currentFile.None? && !r.isModified
    ensures SamePreferences(s, r)
  {
    SetText(s, []).(currentFile := None, isModified := false)
  }

  /** New twice is New once. */
  lemma NewIsIdempotent(s: EditorState)
    ensures NewFile(NewFile(s)) == NewFile(s)
  {
  }

  /** on_open_file: loads the chosen file when the read succeeds; asks nothing about unsaved changes. */
  function OpenFile(s: EditorState, chooser: Chooser, read: ReadResult): (r: EditorState)
    ensures chooser.Dismissed? ==> r == s
    ensures chooser.Accepted? && read.ReadFailed? ==> r == s
    ensures chooser.Accepted? && read.ReadOk? ==>
              r.text == read.contents && r.currentFile == Some(chooser.filename) && !r.isModified
    ensures SamePreferences(s, r)
  {
    match chooser
    case Dismissed => s
    case Accepted(filename) =>
      match read
      case ReadFailed(_) => s
      case ReadOk(contents) => SetText(s, contents).(currentFile := Some(filename), isModified := false)
  }

  // ---------------------------------------------------------------------------
  // Save and Save As
  // ---------------------------------------------------------------------------

  /** The file a save writes to: the current file, else the one chosen in the Save dialog. */
  function SaveTarget(s: EditorState, chooser: Chooser): Option<string> {
    if s.currentFile.Some? then s.currentFile
    else if chooser.Accepted? then Some(chooser.filename)
    else None
  }

  /** What a save with target `target` leaves behind. */
  predicate SavedAs(s: EditorState, target: Option<string>, write: WriteResult, r: Saved) {
    match target
    case None => r == Saved(s, None)
    case Some(path) =>
      && r.written == Some(FileWrite(path, s.text))
      && r.after == s.(currentFile := Some(path), isModified := s.isModified && write.WriteFailed?)
  }

  /**
    on_save_file: without a file name it runs Save As; otherwise it writes the
    buffer to the current file and clears the modified flag if the write succeeded.
   */
  function SaveFile(s: EditorState, chooser: Chooser, write: WriteResult): (r: Saved)
    ensures SavedAs(s, SaveTarget(s, chooser), write, r)
    decreases if s.currentFile.None? then 2 else 0
  {
    if s.currentFile.None? then SaveAsFile(s, chooser, write)
    else
      var path := s.currentFile.value;
      Saved(if write.WriteOk? then s.(isModified := false) else s, Some(FileWrite(path, s.text)))
  }

  /**
    on_save_as_file: on Accept, sets the file name first and then runs Save,
    which now has a file name and writes directly.
   */
  function SaveAsFile(s: EditorState, chooser: Chooser, write: WriteResult): (r: Saved)
    ensures SavedAs(s, if chooser.Accepted? then Some(chooser.filename) else None, write, r)
    decreases 1
  {
    match chooser
    case Dismissed => Saved(s, None)
    case Accepted(filename) => SaveFile(s.(currentFile := Some(filename)), chooser, write)
  }

  /** Saving never changes the text, the preferences, or (with a file name) the file name. */
  lemma SaveKeepsDocument(s: EditorState, chooser: Chooser, write: WriteResult)
    ensures SaveFile(s, chooser, write).after.text == s.text
    ensures SamePreferences(s, SaveFile(s, chooser, write).after)
    ensures s.currentFile.Some? ==> SaveFile(s, chooser, write).after.currentFile == s.currentFile
  {
  }

  /** With a file name, Save shows no dialog: the chooser answer is never consulted. */
  lemma SaveWithFileAsksNothing(s: EditorState, c1: Chooser, c2: Chooser, write: WriteResult)
    requires s.currentFile.Some?
    ensures SaveFile(s, c1, write) == SaveFile(s, c2, write)
  {
  }

  /**
    Save As sets the file name before writing, so the name changes even when
    the write fails; the flag stays as it was.
   */
  lemma SaveAsRenamesEvenOnFailure(s: EditorState, filename: string, message: string)
    ensures SaveAsFile(s, Accepted(filename), WriteFailed(message)).after
         == s.(currentFile := Some(filename))
  {
  }

  /**
    The Save / Save As recursion is one level deep: from a state without a file
    name, Save runs Save As once, which runs a Save that writes directly.
   */
  lemma SaveRecursionOneLevel(s: EditorState, filename: string, write: WriteResult)
    requires s.currentFile.None?
    ensures SaveFile(s, Accepted(filename), write)
         == SaveFile(s.(currentFile := Some(filename)), Dismissed, write)
  {
  }

  /** Opening a file and saving it straight away writes the same text back to the same file. */
  lemma OpenThenSaveWritesBack(s: EditorState, filename: string, contents: string,
                               chooser: Chooser, write: WriteResult)
    ensures SaveFile(OpenFile(s, Accepted(filename), ReadOk(contents)), chooser, write).written
         == Some(FileWrite(filename, contents))
  {
  }

  // ---------------------------------------------------------------------------
  // View preferences
  // ---------------------------------------------------------------------------

  /** on_zoom_in: MIN(zoom + 2, 24). */
  function ZoomIn(z: int): (r: int)
    ensures r <= MaxZoom && r <= z + ZoomStep
    ensures r == z + ZoomStep || r == MaxZoom
  {
    if z + ZoomStep < MaxZoom then z + ZoomStep else MaxZoom
  }

  /** on_zoom_out: MAX(zoom - 2, 8). */
  function ZoomOut(z: int): (r: int)
    ensures r >= MinZoom && r >= z - ZoomStep
    ensures r == z - ZoomStep || r == MinZoom
  {
    if z - ZoomStep > MinZoom then z - ZoomStep else MinZoom
  }

  /** From an even level in [8, 24], zooming keeps the level even and in range. */
  lemma ZoomKeepsRange(z: int)
    requires MinZoom <= z <= MaxZoom && z % 2 == 0
    ensures MinZoom <= ZoomIn(z) <= MaxZoom && ZoomIn(z) % 2 == 0
    ensures MinZoom <= ZoomOut(z) <= MaxZoom && ZoomOut(z) % 2 == 0
  {
  }

  /** Zooming in at 24 and out at 8 change nothing; elsewhere in range each undoes the other. */
  lemma ZoomInverses(z: int)
    ensures ZoomIn(MaxZoom) == MaxZoom && ZoomOut(MinZoom) == MinZoom
    ensures MinZoom <= z <= MaxZoom - ZoomStep ==> ZoomOut(ZoomIn(z)) == z
    ensures MinZoom + ZoomStep <= z <= MaxZoom ==> ZoomIn(ZoomOut(z)) == z
  {
  }

  /** on_toggle_theme. */
  function ToggleTheme(s: EditorState): (r: EditorState)
    ensures r.darkMode != s.darkMode
    ensures r.(darkMode := s.darkMode) == s
  {
    s.(darkMode := !s.darkMode)
  }

  /** on_toggle_terminal, as far as the terminal_visible flag goes. */
  function ToggleTerminal(s: EditorState): (r: EditorState)
    ensures r.terminalVisible != s.terminalVisible
    ensures r.(terminalVisible := s.terminalVisible) == s
  {
    if s.terminalVisible then s.(terminalVisible := false) else s.(terminalVisible := true)
  }

  /** Each toggle applied twice is the identity. */
  lemma TogglesAreInvolutions(s: EditorState)
    ensures ToggleTheme(ToggleTheme(s)) == s
    ensures ToggleTerminal(ToggleTerminal(s)) == s
  {
  }

  // ---------------------------------------------------------------------------
  // Closing the window
  // ---------------------------------------------------------------------------

  /**
    on_window_delete: returns the veto (TRUE keeps the window open). Only a
    modified buffer prompts; only Cancel vetoes; Save runs on_save_file and
    lets the close go ahead whatever the save did; any other answer closes
    without saving.
   */
  function WindowDelete(s: EditorState, response: int, chooser: Chooser, write: WriteResult): (r: Closing)
    ensures r.veto <==> s.isModified && response == ResponseCancel
    ensures !s.isModified ==> r == Closing(s, false, None)
    ensures s.isModified && response == ResponseYes ==>
              Saved(r.after, r.written) == SaveFile(s, chooser, write)
    ensures s.isModified && response != ResponseYes ==> r.after == s && r.written.None?
  {
    if s.isModified then
      if response == ResponseYes then
        var saved := SaveFile(s, chooser, write);
        Closing(saved.after, false, saved.written)
      else if response == ResponseCancel then Closing(s, true, None)
      else Closing(s, false, None)
    else Closing(s, false, None)
  }

  /**
    Choosing Save lets the window close even when the write failed: the
    buffer is still modified and the close is not vetoed.
   */
  lemma CloseProceedsAfterFailedSave(s: EditorState, chooser: Chooser, message: string)
    requires s.isModified
    ensures !WindowDelete(s, ResponseYes, chooser, WriteFailed(message)).veto
    ensures WindowDelete(s, ResponseYes, chooser, WriteFailed(message)).after.isModified
  {
  }

  /** Likewise when there is no file name and the Save dialog is dismissed: nothing is written. */
  lemma CloseProceedsAfterCancelledSave(s: EditorState, write: WriteResult)
    requires s.isModified && s.currentFile.None?
    ensures WindowDelete(s, ResponseYes, Dismissed, write) == Closing(s, false, None)
  {
  }

  // ---------------------------------------------------------------------------
  // Sequences of events
  // ---------------------------------------------------------------------------

  /** The callbacks that change the session, with the answers each receives. */
  datatype Event =
    | New
    | Open(chooser: Chooser, read: ReadResult)
    | Save(chooser: Chooser, write: WriteResult)
    | SaveAs(chooser: Chooser, write: WriteResult)
    | UserEdit(text: string)
    | ZoomInPressed
    | ZoomOutPressed
    | ThemeToggled
    | TerminalToggled
    | DeleteWindow(response: int, chooser: Chooser, write: WriteResult)

  function Step(s: EditorState, e: Event): EditorState {
    match e
    case New => NewFile(s)
    case Open(c, rd) => OpenFile(s, c, rd)
    case Save(c, w) => SaveFile(s, c, w).after
    case SaveAs(c, w) => SaveAsFile(s, c, w).after
    case UserEdit(t) => Edit(s, t)
    case ZoomInPressed => s.(zoomLevel := ZoomIn(s.zoomLevel))
    case ZoomOutPressed => s.(zoomLevel := ZoomOut(s.zoomLevel))
    case ThemeToggled => ToggleTheme(s)
    case TerminalToggled => ToggleTerminal(s)
    case DeleteWindow(resp, c, w) => WindowDelete(s, resp, c, w).after
  }

  /**
    The state after handling `events` in order. A close that is not vetoed
    ends the program; continuing past it only adds states, so what holds for
    every run holds for every run the program can make.
   */
  function Run(s: EditorState, events: seq<Event>): EditorState
    decreases |events|
  {
    if events == [] then s else Run(Step(s, events[0]), events[1..])
  }

  lemma StepKeepsZoomInvariant(s: EditorState, e: Event)
    requires ZoomInvariant(s)
    ensures ZoomInvariant(Step(s, e))
  {
    ZoomKeepsRange(s.zoomLevel);
    match e
    case Save(c, w) => SaveKeepsDocument(s, c, w);
    case SaveAs(c, w) =>
    case DeleteWindow(resp, c, w) => SaveKeepsDocument(s, c, w);
    case _ =>
  }

  /** Every zoom level reachable from the initial state is even and within [8, 24]. */
  lemma {:induction false} ReachableZoomInvariant(s: EditorState, events: seq<Event>)
    requires ZoomInvariant(s)
    ensures ZoomInvariant(Run(s, events))
    decreases |events|
  {
    if events != [] {
      StepKeepsZoomInvariant(s, events[0]);
      ReachableZoomInvariant(Step(s, events[0]), events[1..]);
    }
  }

  /** The zoom level of any run from the initial state. */
  lemma InitialRunZoom(events: seq<Event>)
    ensures ZoomInvariant(Run(Initial(), events))
  {
    ReachableZoomInvariant(Initial(), events);
  }

  /**
    Once the buffer is modified, the flag is cleared only by New, by a
    successful Open, or by a save (Save, Save As, or Save in the close dialog)
    whose write succeeded; an edit never clears it.
   */
  lemma ModifiedClearedOnlyBySuccess(s: EditorState, e: Event)
    requires s.isModified
    requires !Step(s, e).isModified
    ensures match e
      case New => true
      case Open(c, rd) => c.Accepted? && rd.ReadOk?
      case Save(c, w) => SaveTarget(s, c).Some? && w.WriteOk?
      case SaveAs(c, w) => c.Accepted? && w.WriteOk?
      case DeleteWindow(resp, c, w) => resp == ResponseYes && SaveTarget(s, c).Some? && w.WriteOk?
      case _ => false
  {
  }
}
