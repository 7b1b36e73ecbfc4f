/**
 * The document state of the script editor window (fiji/scripting/TextEditor.java)
 * and the pure helpers around it. The window is reduced to its text, the dirty
 * flag `fileChanged`, the `isFileUnnamed` flag, the current file (a path, or
 * None for Java's null) and the title last shown. Every dialog the editor
 * opens becomes an input: the answer the user gave, the name picked in a
 * file chooser, whether the chosen file exists, the file contents read.
 */
module TextEditor {
  import opened Wrappers
  import opened JavaString
  import ScriptTasks

  /** `JFileChooser.APPROVE_OPTION`: the save went through. */
  const APPROVE_OPTION: int := 0
  /** What `saveasaction` and `saveAs` return when nothing was written. */
  const NOT_SAVED: int := -1
  /** The base name shown for a document that has no file yet. */
  const UNNAMED_TITLE: string := "New_"

  /** The answer of a `JOptionPane` confirmation; `Closed` is the window's close box. */
  datatype Answer = Yes | No | Cancel | Closed

  datatype EditorState = EditorState(
    text: string,
    fileChanged: bool,
    isFileUnnamed: bool,
    file: Option<string>,
    title: string)

  /** An operation's return code together with the state it leaves. */
  datatype Step = Step(code: int, state: EditorState)

  // ---------------------------------------------------------------------------
  // Names and paths

  /**
   * `java.io.File.getName()` for a path: everything after the last separator.
   * The separator is taken to be '/'; File's normalisation of the path is not
   * modelled.
   */
  function FileName(path: string): (r: string)
    ensures '/' !in r
    ensures |r| <= |path| && path == path[..|path| - |r|] + r
    ensures |r| < |path| ==> path[|path| - |r| - 1] == '/'
  {
    var slash := LastIndexOf(path, '/');
    SuffixWithout(path, '/', slash + 1);
    path[slash + 1..]
  }

  /** A suffix whose every position differs from `c` holds no `c`. */
  lemma SuffixWithout(s: string, c: char, start: nat)
    requires start <= |s|
    requires forall j :: start <= j < |s| ==> s[j] != c
    ensures c !in s[start..]
    ensures s == s[..start] + s[start..]
  {
    var t := s[start..];
    assert forall k :: 0 <= k < |t| ==> t[k] == s[start + k];
  }

  /**
   * `getExtension`: empty when the name has no '.', otherwise the suffix
   * that starts at the last '.', dot included.
   */
  function GetExtension(fileName: string): (r: string)
    ensures '.' !in fileName ==> r == ""
    ensures '.' in fileName ==> 0 < |r| && r[0] == '.' && '.' !in r[1..]
    ensures |r| <= |fileName| && fileName == fileName[..|fileName| - |r|] + r
  {
    var dot := LastIndexOf(fileName, '.');
    if dot < 0 then ""
    else
      var r := fileName[dot..];
      assert forall k :: 0 <= k < |r| ==> r[k] == fileName[dot + k];
      assert fileName == fileName[..dot] + r;
      r
  }

  /** Any stem followed by a dot-led suffix without another dot has that suffix as extension. */
  lemma ExtensionOfSuffix(stem: string, ext: string)
    requires 0 < |ext| && ext[0] == '.' && '.' !in ext[1..]
    ensures GetExtension(stem + ext) == ext
  {
    var s := stem + ext;
    var dot := LastIndexOf(s, '.');
    assert s[|stem|] == '.';
    assert forall j :: |stem| < j < |s| ==> s[j] == ext[1..][j - |stem| - 1];
    assert dot == |stem|;
    assert s[dot..] == ext;
  }

  /**
   * The "full path" test of the Open command: an absolute Unix or UNC path,
   * a drive-letter path such as `C:\x`, or an http URL.
   */
  predicate IsFullPath(path: string)
  {
    || StartsWith(path, "/")
    || StartsWith(path, "\\")
    || IndexOf(path, ":\\") == 1
    || StartsWith(path, "http://")
  }

  /** `indexOf(":\\") == 1` is the same as ":\\" sitting at index 1. */
  lemma DriveSeparatorAtOne(path: string)
    ensures IndexOf(path, ":\\") == 1 <==> 3 <= |path| && path[1] == ':' && path[2] == '\\'
  {
    if 3 <= |path| && path[1] == ':' && path[2] == '\\' {
      assert OccursAt(path, ":\\", 1);
      assert path[0..2][1] == ':';
      assert !OccursAt(path, ":\\", 0);
    }
    assert |":\\"| == 2;
  }

  /**
   * The path Open reads: directory and name joined, and the working directory
   * put in front only when the result is not a full path and a working
   * directory is known. A cancelled dialog (no name) opens nothing.
   */
  function ResolveOpenPath(directory: string, name: Option<string>, workingDir: Option<string>): (r: Option<string>)
    ensures name.None? <==> r.None?
    ensures name.Some? && IsFullPath(directory + name.value) ==> r == Some(directory + name.value)
    ensures name.Some? && !IsFullPath(directory + name.value) && workingDir.Some? ==>
              r == Some(workingDir.value + (directory + name.value))
    ensures name.Some? && workingDir.None? ==> r == Some(directory + name.value)
  {
    match name
    case None => None
    case Some(n) =>
      var path := directory + n;
      if IsFullPath(path) || workingDir.None? then Some(path)
      else Some(workingDir.value + path)
  }

  /** A full path stays full when anything is appended to it. */
  lemma FullPathExtends(p: string, q: string)
    requires IsFullPath(p)
    ensures IsFullPath(p + q)
  {
    var s := p + q;
    assert p == s[..|p|];
    if IndexOf(p, ":\\") == 1 {
      DriveSeparatorAtOne(p);
      DriveSeparatorAtOne(s);
    }
  }

  /** With a full working directory, whatever Open resolves is a full path. */
  lemma ResolvedPathIsFull(directory: string, name: string, workingDir: string)
    requires IsFullPath(workingDir)
    ensures ResolveOpenPath(directory, Some(name), Some(workingDir)).Some?
    ensures IsFullPath(ResolveOpenPath(directory, Some(name), Some(workingDir)).value)
  {
    FullPathExtends(workingDir, directory + name);
  }

  // ---------------------------------------------------------------------------
  // Reading a file line by line

  predicate IsLineBreak(c: char)
  {
    c == '\n' || c == '\r'
  }

  /** Index of the first '\n' or '\r' in `s`, or `|s|` when there is none. */
  function LineEnd(s: string): (r: nat)
    ensures r <= |s|
    ensures forall i :: 0 <= i < r ==> !IsLineBreak(s[i])
    ensures r < |s| ==> IsLineBreak(s[r])
  {
    if |s| == 0 || IsLineBreak(s[0]) then 0 else 1 + LineEnd(s[1..])
  }

  /**
   * The lines `BufferedReader.readLine` returns for the contents `s`: a line
   * ends at "\n", "\r" or "\r\n", and a last line without terminator counts.
   */
  function ReadLines(s: string): seq<string>
    decreases |s|
  {
    if |s| == 0 then []
    else
      var i := LineEnd(s);
      if i == |s| then [s]
      else if s[i] == '\r' && i + 1 < |s| && s[i + 1] == '\n' then [s[..i]] + ReadLines(s[i + 2..])
      else [s[..i]] + ReadLines(s[i + 1..])
  }

  /** The text `open` builds: every line followed by "\n". */
  function JoinLines(lines: seq<string>): string
  {
    if |lines| == 0 then "" else lines[0] + "\n" + JoinLines(lines[1..])
  }

  /** The lines read back never contain a line break. */
  lemma {:induction false} ReadLinesHaveNoBreaks(s: string)
    ensures forall k, j :: 0 <= k < |ReadLines(s)| && 0 <= j < |ReadLines(s)[k]| ==> !IsLineBreak(ReadLines(s)[k][j])
    decreases |s|
  {
    if |s| > 0 {
      var i := LineEnd(s);
      if i < |s| {
        if s[i] == '\r' && i + 1 < |s| && s[i + 1] == '\n' {
          ReadLinesHaveNoBreaks(s[i + 2..]);
        } else {
          ReadLinesHaveNoBreaks(s[i + 1..]);
        }
      }
    }
  }

  /** Splitting a joined text gives the lines back, when no line holds a break. */
  lemma {:induction false} ReadJoinedLines(lines: seq<string>)
    requires forall k, j :: 0 <= k < |lines| && 0 <= j < |lines[k]| ==> !IsLineBreak(lines[k][j])
    ensures ReadLines(JoinLines(lines)) == lines
    decreases |lines|
  {
    if |lines| > 0 {
      var s := JoinLines(lines);
      var rest := JoinLines(lines[1..]);
      assert s == lines[0] + "\n" + rest;
      var i := LineEnd(s);
      assert forall j :: 0 <= j < |lines[0]| ==> s[j] == lines[0][j];
      assert s[|lines[0]|] == '\n';
      assert i == |lines[0]|;
      assert s[..i] == lines[0];
      assert s[i + 1..] == rest;
      ReadJoinedLines(lines[1..]);
    }
  }

  /**
   * Opening a file whose contents use "\n" only and end with a line break
   * (or are empty) shows exactly those contents.
   */
  lemma {:induction false} JoinReadLines(s: string)
    requires '\r' !in s
    requires |s| == 0 || s[|s| - 1] == '\n'
    ensures JoinLines(ReadLines(s)) == s
    decreases |s|
  {
    if |s| > 0 {
      var i := LineEnd(s);
      FirstLineEndsAtNewline(s);
      var line, rest := s[..i], s[i + 1..];
      LineSuffix(s, i + 1);
      JoinReadLines(rest);
      JoinLinesCons(line, ReadLines(rest));
      calc {
        JoinLines(ReadLines(s));
        JoinLines([line] + ReadLines(rest));
        line + "\n" + JoinLines(ReadLines(rest));
        line + "\n" + rest;
      }
    }
  }

  lemma JoinLinesCons(line: string, lines: seq<string>)
    ensures JoinLines([line] + lines) == line + "\n" + JoinLines(lines)
  {
  }

  /** In such a text the first line ends at a '\n', and reading continues right after it. */
  lemma FirstLineEndsAtNewline(s: string)
    requires '\r' !in s && 0 < |s| && s[|s| - 1] == '\n'
    ensures LineEnd(s) < |s| && s[LineEnd(s)] == '\n'
    ensures ReadLines(s) == [s[..LineEnd(s)]] + ReadLines(s[LineEnd(s) + 1..])
    ensures s == s[..LineEnd(s)] + "\n" + s[LineEnd(s) + 1..]
  {
    var i := LineEnd(s);
    LineEndsAtNewline(s);
    SplitAround(s, i);
  }

  lemma LineEndsAtNewline(s: string)
    requires '\r' !in s && 0 < |s| && s[|s| - 1] == '\n'
    ensures LineEnd(s) < |s| && s[LineEnd(s)] == '\n'
  {
    var i := LineEnd(s);
    assert IsLineBreak(s[|s| - 1]);
    assert s[i] in s;
  }

  lemma SplitAround(s: string, i: nat)
    requires i < |s|
    ensures s == s[..i] + [s[i]] + s[i + 1..]
  {
  }

  /** A suffix of a text without '\r' that ends with '\n' has the same two properties. */
  lemma LineSuffix(s: string, k: nat)
    requires '\r' !in s && 0 < |s| && s[|s| - 1] == '\n' && k <= |s|
    ensures '\r' !in s[k..]
    ensures |s[k..]| == 0 || s[k..][|s[k..]| - 1] == '\n'
  {
  }

  // ---------------------------------------------------------------------------
  // The title and the well-formed states

  /** The title `setTitle()` computes from the dirty flag and the current file. */
  function TitleOf(fileChanged: bool, file: Option<string>): string
  {
    var name := match file case None => UNNAMED_TITLE case Some(p) => FileName(p);
    (if fileChanged then "*" else "") + name
  }

  /**
   * The clean title is the file's name, or "New_" without a file; the dirty
   * title is the clean one with a leading '*'.
   */
  lemma DirtyTitleMarksCleanTitle(file: Option<string>)
    ensures TitleOf(false, file) == if file.None? then UNNAMED_TITLE else FileName(file.value)
    ensures TitleOf(true, file) == "*" + TitleOf(false, file)
  {
  }

  /**
   * The title tells whether the document is dirty, as long as the file's own
   * name does not begin with '*'.
   */
  lemma TitleRevealsDirty(fileChanged: bool, file: Option<string>)
    requires file.Some? ==> |FileName(file.value)| == 0 || FileName(file.value)[0] != '*'
    ensures (|TitleOf(fileChanged, file)| > 0 && TitleOf(fileChanged, file)[0] == '*') <==> fileChanged
  {
  }

  /** The title shown is the one the current flags and file call for. */
  predicate TitleCurrent(st: EditorState)
  {
    st.title == TitleOf(st.fileChanged, st.file)
  }

  /** The states the editor can reach: title current, and a named document has a file. */
  predicate Wf(st: EditorState)
  {
    TitleCurrent(st) && (!st.isFileUnnamed ==> st.file.Some?)
  }

  /** `st` with its title refreshed, as every `setTitle()` call does. */
  function Retitled(st: EditorState): (r: EditorState)
    ensures TitleCurrent(r)
  {
    st.(title := TitleOf(st.fileChanged, st.file))
  }

  // ---------------------------------------------------------------------------
  // Transitions

  /** The window as the constructor leaves it before any file is opened. */
  function Blank(): (st: EditorState)
    ensures Wf(st) && st.isFileUnnamed && !st.fileChanged && st.file.None?
    ensures st.text == "" && st.title == UNNAMED_TITLE
  {
    Retitled(EditorState("", false, true, None, ""))
  }

  /** `createNewDocument`: empty text, no file, unnamed, clean, retitled. */
  function NewDocument(st: EditorState): (r: EditorState)
    ensures r.text == "" && r.file.None? && r.isFileUnnamed && !r.fileChanged
    ensures r.title == UNNAMED_TITLE && Wf(r)
  {
    Retitled(st.(text := "", file := None, isFileUnnamed := true, fileChanged := false))
  }

  /** An edit of the document, as its listener sees it. */
  datatype DocEvent =
    | Insert(offset: int, s: string)
    | Remove(offset: int, length: int)
    | AttributeChange

  /**
   * Whether the document reports the edit to its listeners: the offsets must
   * be in range and an insert or removal must not be empty (the document
   * rejects or ignores the rest without an event). Attribute changes are
   * always reported.
   */
  predicate Fires(text: string, e: DocEvent)
  {
    match e
    case Insert(offset, s) => 0 <= offset <= |text| && |s| > 0
    case Remove(offset, length) => 0 <= offset && 0 < length && offset + length <= |text|
    case AttributeChange => true
  }

  function ApplyEdit(text: string, e: DocEvent): string
    requires Fires(text, e)
  {
    match e
    case Insert(offset, s) => text[..offset] + s + text[offset..]
    case Remove(offset, length) => text[..offset] + text[offset + length..]
    case AttributeChange => text
  }

  /**
   * A document event: `insertUpdate` and `removeUpdate` mark the document
   * dirty and retitle it (`updateStatusOnChange`); `changedUpdate` does nothing.
   */
  function Edit(st: EditorState, e: DocEvent): (r: EditorState)
    ensures !Fires(st.text, e) || e.AttributeChange? ==> r == st
    ensures Fires(st.text, e) && !e.AttributeChange? ==>
              && r.fileChanged
              && r.text == ApplyEdit(st.text, e)
              && r.file == st.file && r.isFileUnnamed == st.isFileUnnamed
    ensures Wf(st) ==> Wf(r)
  {
    if !Fires(st.text, e) || e.AttributeChange? then st
    else Retitled(st.(text := ApplyEdit(st.text, e), fileChanged := true))
  }

  /** Typing a string and deleting it again restores the text but leaves the document dirty. */
  lemma InsertThenRemove(st: EditorState, offset: int, s: string)
    requires 0 <= offset <= |st.text| && |s| > 0
    ensures Edit(Edit(st, Insert(offset, s)), Remove(offset, |s|)).text == st.text
    ensures Edit(Edit(st, Insert(offset, s)), Remove(offset, |s|)).fileChanged
  {
  }

  /**
   * `open(path)`: the file becomes current, the document clean and named, and
   * the title is refreshed before reading. When the contents can be read they
   * replace the text, line by line; when reading fails the old text stays.
   * The document listener is detached meanwhile, so loading does not dirty it.
   */
  function Open(st: EditorState, path: string, contents: Option<string>): (r: EditorState)
    ensures r.file == Some(path) && !r.fileChanged && !r.isFileUnnamed && Wf(r)
    ensures contents.None? ==> r.text == st.text
    ensures contents.Some? ==> r.text == JoinLines(ReadLines(contents.value))
  {
    var named := Retitled(st.(file := Some(path), fileChanged := false, isFileUnnamed := false));
    match contents
    case None => named
    case Some(c) => named.(text := JoinLines(ReadLines(c)))
  }

  /** The editor as launched with a path: opened when the path is non-empty. */
  function Launch(path: Option<string>, contents: Option<string>): (st: EditorState)
    ensures Wf(st) && !st.fileChanged
    ensures path.None? || path == Some("") ==> st == Blank()
    ensures path.Some? && path != Some("") ==> st.file == path && !st.isFileUnnamed
    ensures path.Some? && path != Some("") ==>
              st.text == if contents.Some? then JoinLines(ReadLines(contents.value)) else ""
  {
    if path.Some? && path.value != "" then Open(Blank(), path.value, contents) else Blank()
  }

  /**
   * `saveAs(path, ifReplaceFile)` with the file assigned only once the write is
   * approved: an existing file is replaced only after a YES. On approval the
   * text is written (`writeToFile` clears the dirty flag whether or not the
   * write succeeds) and the file becomes the current, named one.
   */
  function SaveAs(st: EditorState, path: string, ifReplaceFile: bool, replace: Answer): (r: Step)
    ensures r.code == APPROVE_OPTION <==> !ifReplaceFile || replace == Yes
    ensures r.code != APPROVE_OPTION ==> r.code == NOT_SAVED && r.state == st
    ensures r.code == APPROVE_OPTION ==>
              && r.state.file == Some(path) && !r.state.fileChanged && !r.state.isFileUnnamed
              && r.state.text == st.text
    ensures Wf(st) ==> Wf(r.state)
  {
    if ifReplaceFile && replace != Yes then Step(NOT_SAVED, st)
    else Step(APPROVE_OPTION, Retitled(st.(file := Some(path), fileChanged := false, isFileUnnamed := false)))
  }

  /**
   * `saveAs(path, ifReplaceFile)` as written: `file` is assigned before the
   * replace confirmation, so a declined replace still changes it.
   */
  function SaveAsAsWritten(st: EditorState, path: string, ifReplaceFile: bool, replace: Answer): (r: Step)
    ensures r.code == SaveAs(st, path, ifReplaceFile, replace).code
    ensures r.code == APPROVE_OPTION ==> r.state == SaveAs(st, path, ifReplaceFile, replace).state
    ensures r.state.file == Some(path)
    ensures r.code != APPROVE_OPTION ==>
              && r.state.text == st.text && r.state.fileChanged == st.fileChanged
              && r.state.isFileUnnamed == st.isFileUnnamed && r.state.title == st.title
  {
    var retargeted := st.(file := Some(path));
    if ifReplaceFile && replace != Yes then Step(NOT_SAVED, retargeted)
    else Step(APPROVE_OPTION, Retitled(retargeted.(fileChanged := false, isFileUnnamed := false)))
  }

  /**
   * A dirty named document: "Save as" onto an existing file, answering NO to
   * the replace question. As written, the title still shows the old file but
   * the next Save writes the text over the file the user refused to replace.
   */
  lemma DeclinedReplaceRetargetsSave()
    ensures Wf(EditorState("x", true, false, Some("/a"), "*a"))
    ensures SaveAsAsWritten(EditorState("x", true, false, Some("/a"), "*a"), "/b", true, No).code == NOT_SAVED
    ensures !TitleCurrent(SaveAsAsWritten(EditorState("x", true, false, Some("/a"), "*a"), "/b", true, No).state)
    ensures Save(SaveAsAsWritten(EditorState("x", true, false, Some("/a"), "*a"), "/b", true, No).state,
                 SaveDialog(None, "", false, No)).state.file == Some("/b")
  {
    assert LastIndexOf("/", '/') == 0;
    assert LastIndexOf("/a", '/') == 0;
    assert LastIndexOf("/b", '/') == 0;
    assert FileName("/a") == "a";
    assert FileName("/b") == "b";
    assert TitleOf(true, Some("/b")) == "*b";
    assert "*a"[1] != "*b"[1];
  }

  /**
   * For every well-formed document: declining the replace onto a path whose
   * title would differ leaves, as written, a title that no longer matches the
   * current file.
   */
  lemma DeclinedReplaceLeavesStaleTitle(st: EditorState, path: string, replace: Answer)
    requires Wf(st) && replace != Yes
    requires TitleOf(st.fileChanged, Some(path)) != st.title
    ensures SaveAsAsWritten(st, path, true, replace).code == NOT_SAVED
    ensures !TitleCurrent(SaveAsAsWritten(st, path, true, replace).state)
  {
  }

  /** With the corrected save-as, declining the replace leaves the editor exactly as it was. */
  lemma DeclinedReplaceChangesNothing(st: EditorState, path: string, replace: Answer)
    requires replace != Yes
    ensures SaveAs(st, path, true, replace) == Step(NOT_SAVED, st)
  {
  }

  /** What the "Save as" file chooser returned, and the replace confirmation's answer. */
  datatype SaveDialog = SaveDialog(name: Option<string>, directory: string, fileExists: bool, replace: Answer)

  /** `saveasaction`: nothing when the chooser is cancelled, else save to directory + name. */
  function SaveAsAction(st: EditorState, dlg: SaveDialog): (r: Step)
    ensures r.code == APPROVE_OPTION <==> dlg.name.Some? && (!dlg.fileExists || dlg.replace == Yes)
    ensures r.code != APPROVE_OPTION ==> r.code == NOT_SAVED && r.state == st
    ensures r.code == APPROVE_OPTION ==>
              && r.state.file == Some(dlg.directory + dlg.name.value)
              && !r.state.fileChanged && !r.state.isFileUnnamed && r.state.text == st.text
    ensures Wf(st) ==> Wf(r.state)
  {
    match dlg.name
    case None => Step(NOT_SAVED, st)
    case Some(n) => SaveAs(st, dlg.directory + n, dlg.fileExists, dlg.replace)
  }

  /**
   * `save`: an unnamed document goes through "Save as"; a named one is
   * written to its file, marked clean and retitled, and the save is approved.
   */
  function Save(st: EditorState, dlg: SaveDialog): (r: Step)
    ensures st.isFileUnnamed ==> r == SaveAsAction(st, dlg)
    ensures !st.isFileUnnamed ==> r.code == APPROVE_OPTION && r.state.file == st.file
    ensures r.code == APPROVE_OPTION || r.code == NOT_SAVED
    ensures r.code == APPROVE_OPTION ==>
              !r.state.fileChanged && !r.state.isFileUnnamed && r.state.text == st.text
    ensures r.code != APPROVE_OPTION ==> r.state == st
    ensures Wf(st) ==> Wf(r.state)
  {
    if st.isFileUnnamed then SaveAsAction(st, dlg)
    else Step(APPROVE_OPTION, Retitled(st.(fileChanged := false)))
  }

  /** Saving a named document twice is the same as saving it once. */
  lemma SaveNamedIdempotent(st: EditorState, dlg: SaveDialog, dlg2: SaveDialog)
    requires !st.isFileUnnamed
    ensures Save(Save(st, dlg).state, dlg2) == Save(st, dlg)
  {
  }

  /**
   * `handleUnsavedChanges`: 1 means the caller may go on and drop the text.
   * A clean document always gives 1. A dirty one asks; NO gives 1, YES gives 1
   * only if the save is approved, and CANCEL, a closed dialog or a failed
   * save give 0.
   */
  function HandleUnsavedChanges(st: EditorState, answer: Answer, dlg: SaveDialog): (r: Step)
    ensures r.code == 0 || r.code == 1
    ensures !st.fileChanged ==> r.code == 1 && r.state == st
    ensures st.fileChanged ==>
              (r.code == 1 <==> answer == No || (answer == Yes && Save(st, dlg).code == APPROVE_OPTION))
    ensures answer != Yes || !st.fileChanged ==> r.state == st
    ensures st.fileChanged && answer == Yes ==> r.state == Save(st, dlg).state
    ensures r.code == 1 ==> !r.state.fileChanged || answer == No
    ensures r.state.text == st.text
    ensures Wf(st) ==> Wf(r.state)
  {
    if !st.fileChanged then Step(1, st)
    else match answer
      case Cancel => Step(0, st)
      case Yes =>
        var saved := Save(st, dlg);
        if saved.code != APPROVE_OPTION then Step(0, saved.state) else Step(1, saved.state)
      case No => Step(1, st)
      case Closed => Step(0, st)
  }

  /**
   * The "New" command: a fresh document, unless `handleUnsavedChanges`
   * says 0, in which case the (possibly saved) document stays.
   */
  function NewCommand(st: EditorState, answer: Answer, dlg: SaveDialog): (r: EditorState)
    ensures HandleUnsavedChanges(st, answer, dlg).code == 1 ==>
              && r.text == "" && r.file.None? && r.isFileUnnamed && !r.fileChanged
              && r.title == UNNAMED_TITLE
    ensures HandleUnsavedChanges(st, answer, dlg).code == 0 ==> r == HandleUnsavedChanges(st, answer, dlg).state
    ensures Wf(st) ==> Wf(r)
  {
    var h := HandleUnsavedChanges(st, answer, dlg);
    if h.code == 0 then h.state else NewDocument(h.state)
  }

  /**
   * Unsaved changes are dropped by "New" only when the user said NO: if the
   * document was dirty and the answer was not NO, either the text survives or
   * it was saved first.
   */
  lemma NewCommandKeepsUnsavedText(st: EditorState, answer: Answer, dlg: SaveDialog)
    requires st.fileChanged && answer != No
    ensures var r := NewCommand(st, answer, dlg);
            r.text == st.text || (answer == Yes && Save(st, dlg).code == APPROVE_OPTION)
  {
  }

  /** What the Open dialog returned. */
  datatype OpenDialog = OpenDialog(directory: string, name: Option<string>)

  /**
   * The "Open..." command: after `handleUnsavedChanges` allows it and the
   * user picked a file, the resolved path is opened with the given contents.
   */
  function OpenCommand(st: EditorState, answer: Answer, dlg: SaveDialog, od: OpenDialog,
                       workingDir: Option<string>, contents: Option<string>): (r: EditorState)
    ensures Wf(st) ==> Wf(r)
    ensures HandleUnsavedChanges(st, answer, dlg).code == 0 || od.name.None? ==>
              r == HandleUnsavedChanges(st, answer, dlg).state
    ensures HandleUnsavedChanges(st, answer, dlg).code == 1 && od.name.Some? ==>
              r.file == ResolveOpenPath(od.directory, od.name, workingDir) && !r.fileChanged
    ensures HandleUnsavedChanges(st, answer, dlg).code == 1 && od.name.Some? ==>
              && !r.isFileUnnamed
              && (contents.Some? ==> r.text == JoinLines(ReadLines(contents.value)))
              && (contents.None? ==> r.text == st.text)
  {
    var h := HandleUnsavedChanges(st, answer, dlg);
    if h.code == 0 then h.state
    else match ResolveOpenPath(od.directory, od.name, workingDir)
      case None => h.state
      case Some(path) => Open(h.state, path, contents)
  }

  /** The outcome of "Compile and Run": whether `runSavedScript` is reached, and the state after. */
  datatype RunGate = RunGate(runs: bool, state: EditorState)

  /**
   * `runScript`: a dirty or unnamed document must be saved first. The YES/NO
   * question is asked; only YES followed by an approved save lets the script
   * run. A clean, named document runs at once.
   */
  function RunScript(st: EditorState, answer: Answer, dlg: SaveDialog): (r: RunGate)
    ensures r.runs <==>
              (!st.fileChanged && !st.isFileUnnamed) || (answer == Yes && Save(st, dlg).code == APPROVE_OPTION)
    ensures r.runs ==> !r.state.fileChanged && !r.state.isFileUnnamed && r.state.text == st.text
    ensures !r.runs ==> r.state == st
    ensures r.runs && !st.fileChanged && !st.isFileUnnamed ==> r.state == st
    ensures r.runs && (st.fileChanged || st.isFileUnnamed) ==> r.state == Save(st, dlg).state
    ensures Wf(st) ==> Wf(r.state)
    ensures Wf(st) && r.runs ==> r.state.file.Some?
  {
    if st.fileChanged || st.isFileUnnamed then
      if answer != Yes then RunGate(false, st)
      else
        var saved := Save(st, dlg);
        if saved.code != APPROVE_OPTION then RunGate(false, st) else RunGate(true, saved.state)
    else RunGate(true, st)
  }

  /** The state of the editor window together with its running scripts. */
  datatype Session = Session(editor: EditorState, tasks: ScriptTasks.Registry)

  /**
   * "Compile and Run": the `runScript` gate, then `runSavedScript`, which
   * starts a task when an interpreter is registered for the file's extension
   * and reports an error otherwise. `hasInterpreter` stands for the language
   * registry.
   */
  function CompileAndRun(s: Session, answer: Answer, dlg: SaveDialog, hasInterpreter: string -> bool): (r: Session)
    requires Wf(s.editor)
    ensures r.editor == RunScript(s.editor, answer, dlg).state
    ensures Wf(r.editor)
    ensures ScriptTasks.Wf(s.tasks) ==> ScriptTasks.Wf(r.tasks)
    ensures r.tasks == s.tasks || r.tasks == ScriptTasks.Start(s.tasks)
    ensures r.tasks != s.tasks ==>
              && RunScript(s.editor, answer, dlg).runs
              && !r.editor.fileChanged && !r.editor.isFileUnnamed && r.editor.text == s.editor.text
              && hasInterpreter(GetExtension(FileName(r.editor.file.value)))
    ensures RunScript(s.editor, answer, dlg).runs && hasInterpreter(GetExtension(FileName(r.editor.file.value))) ==>
              r.tasks == ScriptTasks.Start(s.tasks)
  {
    var gate := RunScript(s.editor, answer, dlg);
    if !gate.runs then Session(gate.state, s.tasks)
    else
      var ext := GetExtension(FileName(gate.state.file.value));
      if hasInterpreter(ext) then Session(gate.state, ScriptTasks.Start(s.tasks))
      else Session(gate.state, s.tasks)
  }
}
