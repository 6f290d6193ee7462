/**
  What the single-file build monolithic.c adds to the shared handlers: a
  Ctrl+Q quit that ends the main loop without looking at the modified flag,
  and the rule that chooses the shell started in the terminal pane. Whether a
  path exists (g_file_test with G_FILE_TEST_EXISTS) is read from a snapshot of
  the existing paths.
 */
module Monolithic {
  import opened Wrappers
  import opened Session

  // ---------------------------------------------------------------------------
  // Quitting
  // ---------------------------------------------------------------------------

  /** The editor state, and whether gtk_main is still running. */
  datatype App = App(state: EditorState, running: bool)

  /** on_quit, bound to Ctrl+Q: gtk_main_quit, with no prompt. */
  function Quit(app: App): (r: App)
    ensures !r.running && r.state == app.state
  {
    app.(running := false)
  }

  /**
    A delete-event on the window: on_window_delete runs; unless it vetoes, the
    window is destroyed and its "destroy" handler quits the main loop.
   */
  function CloseWindow(app: App, response: int, chooser: Chooser, write: WriteResult): (r: App)
    ensures r.running <==> app.running && app.state.isModified && response == ResponseCancel
    ensures r.state == WindowDelete(app.state, response, chooser, write).after
  {
    var closing := WindowDelete(app.state, response, chooser, write);
    App(closing.after, app.running && closing.veto)
  }

  /**
    Ctrl+Q ends the program with unsaved changes still unsaved, where closing
    the window and answering Cancel would have kept it running.
   */
  lemma QuitBypassesPrompt(app: App, chooser: Chooser, write: WriteResult)
    requires app.running && app.state.isModified
    ensures !Quit(app).running && Quit(app).state.isModified
    ensures CloseWindow(app, ResponseCancel, chooser, write).running
  {
  }

  // ---------------------------------------------------------------------------
  // Shell selection (create_terminal_improved)
  // ---------------------------------------------------------------------------

  const LastResortShell: string := "/bin/sh"

  /** $SHELL (NULL when unset), then the fixed list, in the order they are tried. */
  function ShellCandidates(shellEnv: Option<string>): (c: seq<Option<string>>)
    ensures |c| == 5 && c[0] == shellEnv
  {
    [shellEnv, Some("/bin/bash"), Some("/bin/sh"), Some("/usr/bin/bash"), Some("/bin/zsh")]
  }

  /** A candidate that is not NULL and names an existing path. */
  predicate Usable(candidate: Option<string>, existing: set<string>) {
    candidate.Some? && candidate.value in existing
  }

  /** The first usable candidate, if any. */
  function FirstUsable(candidates: seq<Option<string>>, existing: set<string>): (r: Option<string>)
    ensures r.None? <==> forall j | 0 <= j < |candidates| :: !Usable(candidates[j], existing)
    ensures r.Some? ==> r.value in existing
    ensures r.Some? ==> exists i | 0 <= i < |candidates| ::
              candidates[i] == r && forall j | 0 <= j < i :: !Usable(candidates[j], existing)
  {
    if candidates == [] then None
    else if Usable(candidates[0], existing) then candidates[0]
    else
      var r := FirstUsable(candidates[1..], existing);
      assert r.Some? ==> exists i | 1 <= i < |candidates| ::
               candidates[i] == r && forall j | 0 <= j < i :: !Usable(candidates[j], existing) by {
        if r.Some? {
          var k :| 0 <= k < |candidates| - 1 && candidates[1..][k] == r
                   && forall j | 0 <= j < k :: !Usable(candidates[1..][j], existing);
          assert forall j | 1 <= j < k + 1 :: candidates[j] == candidates[1..][j - 1];
        }
      }
      r
  }

  /** The shell the terminal is started with. */
  function ChosenShell(shellEnv: Option<string>, existing: set<string>): (shell: string)
    ensures shell in existing || shell == LastResortShell
    ensures (exists j | 0 <= j < 5 :: Usable(ShellCandidates(shellEnv)[j], existing)) ==> shell in existing
  {
    match FirstUsable(ShellCandidates(shellEnv), existing)
    case Some(shell) => shell
    case None => LastResortShell
  }

  /** The loop of create_terminal_improved: try the candidates in order, else "/bin/sh". */
  method SelectShell(shellEnv: Option<string>, existing: set<string>) returns (shell: string)
    ensures shell == ChosenShell(shellEnv, existing)
  {
    var shells := ShellCandidates(shellEnv);
    var selected: Option<string> := None;
    for i := 0 to 5
      invariant selected.None?
      invariant FirstUsable(shells, existing) == FirstUsable(shells[i..], existing)
    {
      if shells[i].Some? && shells[i].value in existing {
        selected := shells[i];
        break;
      }
      assert shells[i..][1..] == shells[i + 1..];
    }
    if selected.None? {
      selected := Some(LastResortShell);
    }
    shell := selected.value;
  }

  /** The shell is the first candidate that exists, or "/bin/sh" when none does. */
  lemma ChosenShellIsFirstExisting(shellEnv: Option<string>, existing: set<string>)
    ensures var c := ShellCandidates(shellEnv);
            var shell := ChosenShell(shellEnv, existing);
            || (shell in existing && exists i | 0 <= i < 5 ::
                  c[i] == Some(shell) && forall j | 0 <= j < i :: !Usable(c[j], existing))
            || (shell == LastResortShell && forall j | 0 <= j < 5 :: !Usable(c[j], existing))
  {
  }

  /** An existing $SHELL always wins. */
  lemma ExistingShellEnvWins(shell: string, existing: set<string>)
    requires shell in existing
    ensures ChosenShell(Some(shell), existing) == shell
  {
  }

  /** With $SHELL unset or missing, /bin/bash is chosen whenever it exists. */
  lemma BashIsFirstFallback(shellEnv: Option<string>, existing: set<string>)
    requires !Usable(shellEnv, existing)
    requires "/bin/bash" in existing
    ensures ChosenShell(shellEnv, existing) == "/bin/bash"
  {
    var c := ShellCandidates(shellEnv);
    assert Usable(c[1], existing);
    assert FirstUsable(c, existing) == FirstUsable(c[1..], existing);
  }

  /** The chosen shell is $SHELL or one of the fixed candidates. */
  lemma ChosenShellIsACandidate(shellEnv: Option<string>, existing: set<string>)
    ensures Some(ChosenShell(shellEnv, existing)) in ShellCandidates(shellEnv)
  {
    ChosenShellIsFirstExisting(shellEnv, existing);
  }
}
