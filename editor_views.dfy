/**
  The views editor.c derives from the editor state: the window title
  (update_window_title), the line-number gutter (update_line_numbers) and the
  numbers and text of the status message (update_status_bar).

  Lines are counted by '\n' only. GTK's own line iterator also ends a line at
  "\r", "\r\n" and U+2029; that is an assumption of this model, not a property
  of the code.
 */
module EditorViews {
  import opened Wrappers
  import opened Decimal

  /** The marker appended to the title of a modified buffer: a space and U+2022. */
  const Marker: string := " \U{2022}"
  const Untitled: string := "Untitled"

  predicate EndsWith(s: string, suffix: string) {
    |suffix| <= |s| && s[|s| - |suffix|..] == suffix
  }

  // ---------------------------------------------------------------------------
  // g_path_get_basename on a POSIX system ('/' is the only separator)
  // ---------------------------------------------------------------------------

  function StripTrailingSeparators(p: string): (r: string)
    ensures r <= p
    ensures r == [] || r[|r| - 1] != '/'
    ensures forall i | |r| <= i < |p| :: p[i] == '/'
  {
    if p != [] && p[|p| - 1] == '/' then StripTrailingSeparators(p[..|p| - 1]) else p
  }

  /** The longest suffix of `p` that holds no separator. */
  function LastComponent(p: string): (r: string)
    ensures |r| <= |p| && p[|p| - |r|..] == r
    ensures '/' !in r
    ensures |r| < |p| ==> p[|p| - |r| - 1] == '/'
  {
    if p == [] || p[|p| - 1] == '/' then []
    else LastComponent(p[..|p| - 1]) + [p[|p| - 1]]
  }

  /**
    The last component of a path, ignoring trailing separators; "/" when the
    path is made of separators only, "." when it is empty.
   */
  function Basename(path: string): (r: string)
    ensures r != []
    ensures r == "/" || '/' !in r
    ensures path == [] ==> r == "."
    ensures path != [] && StripTrailingSeparators(path) == [] ==> r == "/"
    ensures StripTrailingSeparators(path) != [] ==> r == LastComponent(StripTrailingSeparators(path))
  {
    if path == [] then "."
    else
      var trimmed := StripTrailingSeparators(path);
      if trimmed == [] then "/" else LastComponent(trimmed)
  }

  lemma {:induction false} LastComponentOfJoin(dir: string, name: string)
    requires '/' !in name
    ensures LastComponent(dir + "/" + name) == name
    decreases |name|
  {
    var p := dir + "/" + name;
    if name != [] {
      var init := name[..|name| - 1];
      assert name[|name| - 1] in name;
      assert p[..|p| - 1] == dir + "/" + init;
      assert '/' !in init by {
        forall i | 0 <= i < |init| ensures init[i] != '/' {
          assert init[i] == name[i];
        }
      }
      LastComponentOfJoin(dir, init);
      assert name == init + [name[|name| - 1]];
    }
  }

  /** Trailing separators are ignored, and a path of separators only is "/". */
  lemma BasenameEdgeCases()
    ensures Basename("/a/b/") == "b"
    ensures Basename("//") == "/"
  {
    var p := "/a/b/";
    assert p[..|p| - 1] == "/a/b";
    assert StripTrailingSeparators("/a/b") == "/a/b";
    var q := "/a/b";
    assert q[..|q| - 1] == "/a/";
    assert LastComponent("/a/") == [];
    var s := "//";
    assert s[..|s| - 1] == "/";
    assert "/"[..0] == [];
  }

  /** The basename of "dir/name" is "name", whatever the directory. */
  lemma BasenameOfJoin(dir: string, name: string)
    requires name != [] && '/' !in name
    ensures Basename(dir + "/" + name) == name
  {
    var p := dir + "/" + name;
    assert p[|p| - 1] == name[|name| - 1];
    assert name[|name| - 1] in name;
    assert StripTrailingSeparators(p) == p;
    LastComponentOfJoin(dir, name);
  }

  // ---------------------------------------------------------------------------
  // Window title (update_window_title)
  // ---------------------------------------------------------------------------

  /** The header-bar title for the given current file and modified flag. */
  function WindowTitle(currentFile: Option<string>, isModified: bool): (t: string)
    ensures isModified ==> EndsWith(t, Marker)
  {
    var name := match currentFile
      case Some(f) => Basename(f)
      case None => Untitled;
    name + (if isModified then Marker else "")
  }

  /** The name a title shows: the title with its trailing marker, if any, removed. */
  function ShownName(title: string): string {
    if EndsWith(title, Marker) then title[..|title| - |Marker|] else title
  }

  /** A name the marker cannot be confused with. */
  predicate Unambiguous(currentFile: Option<string>) {
    currentFile.None? || !EndsWith(Basename(currentFile.value), Marker)
  }

  /**
    The title ends with the marker exactly when the buffer is modified, provided
    the file's own name does not already end with " •".
   */
  lemma TitleMarkedIffModified(currentFile: Option<string>, isModified: bool)
    requires Unambiguous(currentFile)
    ensures EndsWith(WindowTitle(currentFile, isModified), Marker) <==> isModified
  {
    if currentFile.None? && !isModified {
      assert WindowTitle(currentFile, isModified) == Untitled;
      assert Untitled[|Untitled| - 1] != Marker[|Marker| - 1];
    }
  }

  /** The title names the file (or "Untitled"), whether or not it is marked. */
  lemma TitleShowsName(currentFile: Option<string>, isModified: bool)
    requires Unambiguous(currentFile)
    ensures ShownName(WindowTitle(currentFile, isModified))
         == (if currentFile.Some? then Basename(currentFile.value) else Untitled)
  {
    var t := WindowTitle(currentFile, isModified);
    TitleMarkedIffModified(currentFile, isModified);
    if isModified {
      assert t[..|t| - |Marker|] == (if currentFile.Some? then Basename(currentFile.value) else Untitled);
    }
  }

  /** Without the proviso the equivalence fails: an unmodified file named "notes •" reads as modified. */
  lemma TitleMarkerAmbiguous()
    ensures EndsWith(WindowTitle(Some("/tmp/notes" + Marker), false), Marker)
  {
    var f := "/tmp/notes" + Marker;
    assert f == "/tmp" + "/" + ("notes" + Marker);
    assert '/' !in "notes" + Marker;
    BasenameOfJoin("/tmp", "notes" + Marker);
  }

  // ---------------------------------------------------------------------------
  // Lines, columns and the status message (update_status_bar)
  // ---------------------------------------------------------------------------

  /** Number of occurrences of `c` in `s`. */
  function Count(s: string, c: char): (n: nat)
    ensures n <= |s|
  {
    if s == [] then 0 else Count(s[..|s| - 1], c) + (if s[|s| - 1] == c then 1 else 0)
  }

  lemma {:induction false} CountAppend(a: string, b: string, c: char)
    ensures Count(a + b, c) == Count(a, c) + Count(b, c)
    decreases |b|
  {
    if b != [] {
      assert (a + b)[..|a + b| - 1] == a + b[..|b| - 1];
      CountAppend(a, b[..|b| - 1], c);
    } else {
      assert a + b == a;
    }
  }

  lemma {:induction false} CountAbsent(s: string, c: char)
    requires c !in s
    ensures Count(s, c) == 0
    decreases |s|
  {
    if s != [] {
      assert s[|s| - 1] in s;
      assert forall x | x in s[..|s| - 1] :: x in s;
      CountAbsent(s[..|s| - 1], c);
    }
  }

  /** A character that occurs is counted at least once. */
  lemma {:induction false} CountPresent(s: string, c: char)
    requires c in s
    ensures Count(s, c) > 0
    decreases |s|
  {
    if s[|s| - 1] != c {
      assert s == s[..|s| - 1] + [s[|s| - 1]];
      CountPresent(s[..|s| - 1], c);
    }
  }

  lemma CountZeroIff(s: string, c: char)
    ensures Count(s, c) == 0 <==> c !in s
  {
    if c in s {
      CountPresent(s, c);
    } else {
      CountAbsent(s, c);
    }
  }

  /** Occurrences in a prefix never exceed those in a longer prefix. */
  lemma {:induction false} CountPrefixMonotone(s: string, i: nat, j: nat, c: char)
    requires i <= j <= |s|
    ensures Count(s[..i], c) <= Count(s[..j], c)
    decreases j - i
  {
    if i < j {
      assert s[..j][..j - 1] == s[..j - 1];
      CountPrefixMonotone(s, i, j - 1, c);
    }
  }

  /** Zero-based line of an offset (gtk_text_iter_get_line), counting '\n' before it. */
  function LineOf(text: string, offset: nat): (line: nat)
    requires offset <= |text|
    ensures line <= offset
    ensures line <= Count(text, '\n')
    ensures line == 0 <==> '\n' !in text[..offset]
  {
    CountPrefixMonotone(text, offset, |text|, '\n');
    assert text[..|text|] == text;
    CountZeroIff(text[..offset], '\n');
    Count(text[..offset], '\n')
  }

  /** Offset of the first character of the line holding `offset`. */
  function LineStart(text: string, offset: nat): (k: nat)
    requires offset <= |text|
    ensures k <= offset
    ensures '\n' !in text[k..offset]
    ensures k == 0 || text[k - 1] == '\n'
  {
    if offset == 0 then 0
    else if text[offset - 1] == '\n' then offset
    else
      var k := LineStart(text, offset - 1);
      assert text[k..offset] == text[k..offset - 1] + [text[offset - 1]];
      k
  }

  /** The number of lines of the buffer: the end iterator's line plus one. */
  function TotalLines(text: string): (n: nat)
    ensures n >= 1
  {
    LineOf(text, |text|) + 1
  }

  /** The four numbers of the status message. */
  datatype StatusNumbers = StatusNumbers(line: nat, total: nat, column: nat, chars: nat)

  /**
    The numbers update_status_bar reports for the insert cursor at `cursor`:
    one-based line and column, the line total and the character count.
   */
  function Status(text: string, cursor: nat): (r: StatusNumbers)
    requires cursor <= |text|
    ensures 1 <= r.line <= r.total
    ensures r.line - 1 == Count(text[..cursor], '\n')
    ensures r.total - 1 == Count(text, '\n')
    ensures 1 <= r.column <= cursor + 1
    ensures '\n' !in text[cursor - (r.column - 1)..cursor]
    ensures r.column == cursor + 1 || text[cursor - r.column] == '\n'
    ensures r.chars == |text|
  {
    CountPrefixMonotone(text, cursor, |text|, '\n');
    assert text[..|text|] == text;
    var line := LineOf(text, cursor) + 1;
    var col := cursor - LineStart(text, cursor) + 1;
    StatusNumbers(line, TotalLines(text), col, |text|)
  }

  /** The status text: "Line L/T, Column C • N characters". */
  function FormatStatus(n: StatusNumbers): (msg: string)
    ensures "Line " <= msg
    ensures EndsWith(msg, " characters")
  {
    "Line " + (Dec(n.line) + ("/" + (Dec(n.total) + (", Column " + (Dec(n.column)
      + (" \U{2022} " + (Dec(n.chars) + " characters")))))))
  }

  /** The status text for the cursor at `cursor`; it determines the four numbers it shows. */
  function StatusMessage(text: string, cursor: nat): (msg: string)
    requires cursor <= |text|
    ensures ParseStatus(msg) == Some(Status(text, cursor))
  {
    StatusRoundTrip(Status(text, cursor));
    FormatStatus(Status(text, cursor))
  }

  /** Reads the literal `lit` and then a decimal number off the front of `s`. */
  function LiteralThenNat(s: string, lit: string): Option<(nat, string)> {
    if lit <= s then ParseNat(s[|lit|..]) else None
  }

  lemma LiteralThenNatDec(lit: string, n: nat, rest: string)
    requires rest == [] || !IsDigit(rest[0])
    ensures LiteralThenNat(lit + (Dec(n) + rest), lit) == Some((n, rest))
  {
    assert (lit + (Dec(n) + rest))[|lit|..] == Dec(n) + rest;
    ParseNatDec(n, rest);
  }

  /** Recovers the four numbers from a status text; None when the text is not one. */
  function ParseStatus(msg: string): Option<StatusNumbers> {
    match LiteralThenNat(msg, "Line ")
    case None => None
    case Some((line, r1)) =>
      match LiteralThenNat(r1, "/")
      case None => None
      case Some((total, r2)) =>
        match LiteralThenNat(r2, ", Column ")
        case None => None
        case Some((column, r3)) =>
          match LiteralThenNat(r3, " \U{2022} ")
          case None => None
          case Some((chars, r4)) =>
            if r4 == " characters" then Some(StatusNumbers(line, total, column, chars)) else None
  }

  /** The status text determines its four numbers: formatting loses nothing. */
  lemma StatusRoundTrip(n: StatusNumbers)
    ensures ParseStatus(FormatStatus(n)) == Some(n)
  {
    var r4 := " characters";
    var r3 := " \U{2022} " + (Dec(n.chars) + r4);
    var r2 := ", Column " + (Dec(n.column) + r3);
    var r1 := "/" + (Dec(n.total) + r2);
    LiteralThenNatDec("Line ", n.line, r1);
    LiteralThenNatDec("/", n.total, r2);
    LiteralThenNatDec(", Column ", n.column, r3);
    LiteralThenNatDec(" \U{2022} ", n.chars, r4);
  }

  // ---------------------------------------------------------------------------
  // Line-number gutter (update_line_numbers)
  // ---------------------------------------------------------------------------

  /** "1\n2\n...n\n": one decimal line number per line. */
  function Gutter(n: nat): (g: string)
    ensures |g| >= 2 * n
    ensures n > 0 ==> g[|g| - 1] == '\n'
  {
    if n == 0 then "" else Gutter(n - 1) + Dec(n) + "\n"
  }

  lemma {:induction false} GutterNewlines(n: nat)
    ensures Count(Gutter(n), '\n') == n
  {
    if n > 0 {
      var prev, digits := Gutter(n - 1), Dec(n);
      GutterNewlines(n - 1);
      assert '\n' !in digits by {
        forall i | 0 <= i < |digits| ensures digits[i] != '\n' {
          assert IsDigit(digits[i]);
        }
      }
      CountAbsent(digits, '\n');
      CountAppend(prev, digits, '\n');
      CountAppend(prev + digits, "\n", '\n');
      assert Count("\n", '\n') == 1 by {
        assert "\n"[..0] == [];
      }
      assert Gutter(n) == prev + digits + "\n";
    }
  }

  /** A shorter gutter is a prefix of a longer one. */
  lemma {:induction false} GutterPrefix(m: nat, n: nat)
    requires m <= n
    ensures Gutter(m) <= Gutter(n)
    decreases n - m
  {
    if m < n {
      GutterPrefix(m, n - 1);
    }
  }

  /** A non-empty buffer of lines always gives a gutter that starts with "1\n". */
  lemma GutterStartsAtOne(n: nat)
    requires n >= 1
    ensures "1\n" <= Gutter(n)
  {
    assert Dec(1) == "1";
    assert Gutter(1) == "1\n";
    GutterPrefix(1, n);
  }

  /** The gutter text for a buffer: one numbered line per buffer line. */
  method LineNumbersLabel(text: string) returns (gutter: string)
    ensures gutter == Gutter(TotalLines(text))
    ensures Count(gutter, '\n') == TotalLines(text)
    ensures "1\n" <= gutter
  {
    var totalLines := LineOf(text, |text|) + 1;
    gutter := "";
    var i := 1;
    while i <= totalLines
      invariant 1 <= i <= totalLines + 1
      invariant gutter == Gutter(i - 1)
    {
      gutter := gutter + Dec(i) + "\n";
      i := i + 1;
    }
    GutterNewlines(totalLines);
    GutterStartsAtOne(totalLines);
  }

  /** The empty buffer's gutter is the "1\n" text the gutter widget is created with. */
  lemma EmptyBufferGutter()
    ensures Gutter(TotalLines("")) == "1\n"
  {
    assert Dec(1) == "1";
  }
}
