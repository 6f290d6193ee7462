/**
  The editor object: the fields of the CodeEditor struct the application owns,
  updated in place by the signal handlers of callbacks.c (the same handlers
  appear in monolithic.c). Each handler is proved against the transition
  function of module Session that specifies it, and the lemmas at the end tie
  the handlers to the views of editor.c.
 */
module Callbacks {
  import opened Wrappers
  import opened Session
  import EditorViews

  class CodeEditor {
    /** The text of the GTK buffer. */
    var text: string
    var terminalVisible: bool
    var currentFile: Option<string>
    var isModified: bool
    var darkMode: bool
    var zoomLevel: int

    function State(): EditorState
      reads this
    {
      EditorState(text, currentFile, isModified, darkMode, zoomLevel, terminalVisible)
    }

    /** The window title update_window_title sets from the current fields. */
    function Title(): string
      reads this
    {
      EditorViews.WindowTitle(currentFile, isModified)
    }

    /**
      main: the struct is allocated zeroed, then dark mode, zoom level 12, not
      modified and no file are set one after another. The terminal pane starts
      hidden (setup_terminal sets the flag false again, and main hides the
      container before entering the main loop).
     */
    constructor ()
      ensures State() == Initial()
      ensures ZoomInvariant(State())
    {
      text := [];
      terminalVisible := false;
      currentFile := None;
      isModified := false;
      darkMode := false;
      zoomLevel := 0;
      new;
      darkMode := true;
      zoomLevel := InitialZoom;
      isModified := false;
      currentFile := None;
    }

    /** on_text_changed, the handler of the buffer's "changed" signal. */
    method OnTextChanged()
      modifies this`isModified
      ensures State() == TextChanged(old(State()))
    {
      isModified := true;
    }

    /**
      gtk_text_buffer_set_text: delete the old text, insert the new one; each
      non-empty change emits "changed", whose handler sets the modified flag.
     */
    method SetBufferText(t: string)
      modifies this
      ensures State() == SetText(old(State()), t)
    {
      if text != [] {
        text := [];
        OnTextChanged();
      }
      if t != [] {
        text := t;
        OnTextChanged();
      }
    }

    /** A user edit: GTK changes the buffer, then emits "changed". */
    method UserEdit(t: string)
      modifies this
      ensures State() == Edit(old(State()), t)
    {
      text := t;
      OnTextChanged();
    }

    /** on_new_file. */
    method OnNewFile()
      modifies this
      ensures State() == NewFile(old(State()))
    {
      var hadText := text != [];
      SetBufferText([]);
      // The "changed" signal has already marked the buffer modified.
      assert hadText ==> isModified;
      currentFile := None;
      isModified := false;
    }

    /** on_open_file, given the chooser's answer and the result of reading the chosen file. */
    method OnOpenFile(chooser: Chooser, read: ReadResult)
      modifies this
      ensures State() == OpenFile(old(State()), chooser, read)
    {
      if chooser.Accepted? {
        var filename := chooser.filename;
        match read {
          case ReadOk(contents) =>
            SetBufferText(contents);
            currentFile := Some(filename);
            isModified := false;
          case ReadFailed(_) =>
        }
      }
    }

    /**
      on_save_file, given the Save dialog's answer (used only when there is no
      file name) and the result of the write; returns the write issued.
     */
    method OnSaveFile(chooser: Chooser, write: WriteResult) returns (written: Option<FileWrite>)
      modifies this
      ensures Saved(State(), written) == SaveFile(old(State()), chooser, write)
      decreases if currentFile.None? then 2 else 0
    {
      if currentFile.None? {
        written := OnSaveAsFile(chooser, write);
        return;
      }
      var contents := text;
      written := Some(FileWrite(currentFile.value, contents));
      if write.WriteOk? {
        isModified := false;
      }
    }

    /** on_save_as_file: on Accept, set the file name, then save. */
    method OnSaveAsFile(chooser: Chooser, write: WriteResult) returns (written: Option<FileWrite>)
      modifies this
      ensures Saved(State(), written) == SaveAsFile(old(State()), chooser, write)
      decreases 1
    {
      written := None;
      if chooser.Accepted? {
        currentFile := Some(chooser.filename);
        written := OnSaveFile(chooser, write);
      }
    }

    /** on_zoom_in: MIN(zoom_level + 2, 24). */
    method OnZoomIn()
      modifies this`zoomLevel
      ensures State() == old(State()).(zoomLevel := ZoomIn(old(zoomLevel)))
    {
      zoomLevel := if zoomLevel + ZoomStep < MaxZoom then zoomLevel + ZoomStep else MaxZoom;
    }

    /** on_zoom_out: MAX(zoom_level - 2, 8). */
    method OnZoomOut()
      modifies this`zoomLevel
      ensures State() == old(State()).(zoomLevel := ZoomOut(old(zoomLevel)))
    {
      zoomLevel := if zoomLevel - ZoomStep > MinZoom then zoomLevel - ZoomStep else MinZoom;
    }

    /** on_toggle_theme. */
    method OnToggleTheme()
      modifies this`darkMode
      ensures State() == ToggleTheme(old(State()))
    {
      darkMode := !darkMode;
    }

    /** on_toggle_terminal (the flag; showing and hiding the pane is left to GTK). */
    method OnToggleTerminal()
      modifies this`terminalVisible
      ensures State() == ToggleTerminal(old(State()))
    {
      if terminalVisible {
        terminalVisible := false;
      } else {
        terminalVisible := true;
      }
    }

    /**
      on_window_delete, given the close dialog's response code and the answers
      a save may need; `veto` is the handler's return value (TRUE keeps the
      window open).
     */
    method OnWindowDelete(response: int, chooser: Chooser, write: WriteResult)
      returns (veto: bool, written: Option<FileWrite>)
      modifies this
      ensures Closing(State(), veto, written) == WindowDelete(old(State()), response, chooser, write)
    {
      written := None;
      if isModified {
        if response == ResponseYes {
          written := OnSaveFile(chooser, write);
          return false, written;
        } else if response == ResponseCancel {
          return true, None;
        }
      }
      return false, None;
    }
  }

  // ---------------------------------------------------------------------------
  // The handlers as seen in the window title
  // ---------------------------------------------------------------------------

  /** After New the title is "Untitled", unmarked. */
  lemma TitleAfterNew(s: EditorState)
    ensures EditorViews.WindowTitle(NewFile(s).currentFile, NewFile(s).isModified) == EditorViews.Untitled
  {
  }

  /** After a successful Open the title is the file's basename, unmarked. */
  lemma TitleAfterOpen(s: EditorState, dir: string, name: string, contents: string)
    requires name != [] && '/' !in name
    ensures var r := OpenFile(s, Accepted(dir + "/" + name), ReadOk(contents));
            EditorViews.WindowTitle(r.currentFile, r.isModified) == name
  {
    EditorViews.BasenameOfJoin(dir, name);
  }

  /** After an edit the title carries the modified marker. */
  lemma TitleAfterEdit(s: EditorState, t: string)
    ensures var r := Edit(s, t);
            EditorViews.EndsWith(EditorViews.WindowTitle(r.currentFile, r.isModified), EditorViews.Marker)
  {
  }

  /** A save whose write succeeded removes the marker (for a name that does not itself end in it). */
  lemma TitleAfterSuccessfulSave(s: EditorState, chooser: Chooser)
    requires SaveTarget(s, chooser).Some?
    requires EditorViews.Unambiguous(SaveTarget(s, chooser))
    ensures var r := SaveFile(s, chooser, WriteOk).after;
            !EditorViews.EndsWith(EditorViews.WindowTitle(r.currentFile, r.isModified), EditorViews.Marker)
  {
    var r := SaveFile(s, chooser, WriteOk).after;
    EditorViews.TitleMarkedIffModified(r.currentFile, r.isModified);
  }

  /** A client of the class: an untitled buffer typed into and saved under a chosen name. */
  method SaveUntitledScenario() returns (editor: CodeEditor, written: Option<FileWrite>)
    ensures written == Some(FileWrite("/tmp/x.txt", "hello"))
    ensures editor.currentFile == Some("/tmp/x.txt") && !editor.isModified
    ensures editor.Title() == "x.txt"
  {
    editor := new CodeEditor();
    editor.OnNewFile();
    editor.UserEdit("hello");
    assert editor.isModified && editor.currentFile.None?;
    written := editor.OnSaveFile(Accepted("/tmp/x.txt"), WriteOk);
    assert "/tmp/x.txt" == "/tmp" + "/" + "x.txt";
    EditorViews.BasenameOfJoin("/tmp", "x.txt");
  }
}
