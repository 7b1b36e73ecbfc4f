# Script editor core, modelled in Dafny

This project models the pure logic inside a Swing script-editor plugin and its
interpreter window, and proves properties of it. Four pieces are modelled.

- **The editor document** (`fiji/scripting/TextEditor.java`, module `TextEditor`).
  The state is the text, the dirty flag `fileChanged`, the `isFileUnnamed`
  flag, the current file and the window title. The transitions are new
  document, document edits, open, save and save-as, the "save changes?"
  decision and the "Compile and Run" gate. The helpers are `getExtension`,
  the full-path test and path resolution of Open, and the line joining of
  `open`. Every dialog is an input: the answer given (YES, NO, CANCEL or a
  closed dialog), the name picked in a file chooser, whether that file exists,
  and the file contents read.
- **The running-script registry** (the `Executer` thread groups and
  `chooseTaskToKill` in the same file, module `ScriptTasks`). A task is an
  identity that is registered when it starts. It is removed when it finishes
  or is killed. The kill dialog picks either every task or exactly the
  chosen one.
- **The interpreter window** (`InterpreterWindow.java`, module
  `InterpreterWindow`). It drops compiled languages and sorts the rest by
  name. It selects a tab by language name, reports the active language,
  persists it, and routes printed messages.
- **The completion index entry** (`ClassName.java`, module `Completion`).
  It holds a key, a complete name in '/'-form and a set of methods. It is
  ordered by key alone.

The Java `String` operations these rely on live in module `JavaString`:
`compareTo` (exact Java result), `lastIndexOf`, `indexOf`, `startsWith` and
`replace`. Java `null` is `Wrappers.Option.None`.

Design choices:
- The editor state stores the title it last showed. `TextEditor.Wf` says that
  this title is the one the flags and file call for, and that a named document
  has a file. Every transition is proved to keep `Wf`.
- `JOptionPane` answers are the datatype `Answer`. `JFileChooser.APPROVE_OPTION`
  is 0, and the "not saved" code is -1, as in TextEditor.java.
- `writeToFile` clears the dirty flag before writing and swallows I/O
  errors. So a save that is approved always leaves the document clean. The
  model does the same: the write's success is not an input.
- The document listener only sees edits that the document accepts: offsets in
  range, and a non-empty insert or removal. `changedUpdate` does nothing. The
  input-method callbacks would also mark the document dirty, but they are
  never registered. The listener field `l` passed to
  `addInputMethodListener` (TextEditor.java:83, 104) is never assigned, so
  those callbacks are not modelled as transitions.
- `File.getName()` is the text after the last '/'.

## Model

| member | source | states |
|---|---|---|
| JavaString.CompareTo | src/main/java/org/scijava/ui/swing/script/InterpreterWindow.java:131 | Java's `String.compareTo` is 0 exactly when the strings are equal |
| JavaString.CompareToAntisymmetric | src-plugins/Script_Editor/fiji/scripting/ClassName.java:29-32 | swapping the operands of `compareTo` negates the result exactly |
| JavaString.CompareToTransitive | src/main/java/org/scijava/ui/swing/script/InterpreterWindow.java:127-134 | "compares at most 0" is transitive, so the name comparator is a valid sort order |
| JavaString.CompareToTotal | src/main/java/org/scijava/ui/swing/script/InterpreterWindow.java:127-134 | any two names are ordered one way or the other |
| JavaString.LastIndexOf | fiji/scripting/TextEditor.java:514 | -1 exactly when the character is absent; otherwise that character's index, with no occurrence after it |
| JavaString.IndexOf | fiji/scripting/TextEditor.java:303 | never below -1; -1 exactly when the pattern never occurs; otherwise the first index where it occurs |
| JavaString.Replace | src-plugins/Script_Editor/fiji/scripting/ClassName.java:26 | same length; each position holds the replacement where the original held the replaced char, else the original char |
| JavaString.ReplaceIdempotent | src-plugins/Script_Editor/fiji/scripting/ClassName.java:26 | replacing a char twice gives the same result as once |
| TextEditor.FileName | fiji/scripting/TextEditor.java:540 | the file name is the suffix of the path after its last '/', and contains no '/' |
| TextEditor.GetExtension | fiji/scripting/TextEditor.java:513-516 | "" when the name has no '.'; otherwise a suffix of the name that starts with '.' and holds no other '.' |
| TextEditor.ExtensionOfSuffix | fiji/scripting/TextEditor.java:513-516 | any stem followed by a dot-led suffix with no other dot has exactly that suffix as its extension |
| TextEditor.DriveSeparatorAtOne | fiji/scripting/TextEditor.java:303 | `indexOf(":\\") == 1` holds exactly when ":\\" sits at index 1 |
| TextEditor.ResolveOpenPath | fiji/scripting/TextEditor.java:297-309 | a cancelled Open gives no path; a full path is used as is; only a non-full path gets the working directory in front, and only when one is known |
| TextEditor.FullPathExtends | fiji/scripting/TextEditor.java:303 | appending anything to a full path leaves it full |
| TextEditor.ResolvedPathIsFull | fiji/scripting/TextEditor.java:303-308 | when the working directory is a full path, the path Open uses is always full |
| TextEditor.LineEnd | fiji/scripting/TextEditor.java:428 | a line runs up to its first '\n' or '\r', or to the end of the text |
| TextEditor.ReadLinesHaveNoBreaks | fiji/scripting/TextEditor.java:426-430 | no line that `readLine` returns contains a line break |
| TextEditor.ReadJoinedLines | fiji/scripting/TextEditor.java:426-430 | reading back a text joined with "\n" gives the original lines |
| TextEditor.JoinReadLines | fiji/scripting/TextEditor.java:426-430 | a file that uses only "\n" and ends with one (or is empty) is shown exactly as stored |
| TextEditor.DirtyTitleMarksCleanTitle | fiji/scripting/TextEditor.java:539-543 | the clean title is the file's name, or "New_" when there is no file; the dirty title is "*" followed by the clean title |
| TextEditor.TitleRevealsDirty | fiji/scripting/TextEditor.java:539-543 | the title starts with '*' exactly when the document is dirty, provided the file name does not start with '*' |
| TextEditor.Blank | fiji/scripting/TextEditor.java:79-81 | a fresh window is clean, unnamed, without file, titled "New_", and well formed |
| TextEditor.NewDocument | fiji/scripting/TextEditor.java:251-260 | a new document has empty text, no file, is unnamed and clean, is titled "New_", and is well formed |
| TextEditor.Edit | fiji/scripting/TextEditor.java:721-732 | an accepted insert or removal changes the text as the edit says and marks the document dirty; nothing else changes; other events change nothing |
| TextEditor.InsertThenRemove | fiji/scripting/TextEditor.java:721-732 | typing a string and deleting it restores the text, but the document stays dirty |
| TextEditor.Open | fiji/scripting/TextEditor.java:412-450 | the opened file becomes current, named and clean; the text is the file's lines, each followed by "\n", or the old text when reading fails |
| TextEditor.Launch | fiji/scripting/TextEditor.java:239-240 | the window opens the given path only when it is non-null and non-empty; it then shows the file's lines joined with "\n", or an empty text when reading fails |
| TextEditor.SaveAs | fiji/scripting/TextEditor.java:474-488 | the save is approved exactly when no replace is needed or it was confirmed; approval makes the path current, named and clean; otherwise nothing changes |
| TextEditor.SaveAsAsWritten | fiji/scripting/TextEditor.java:474-488 | the source's save-as returns the same codes, but always retargets the current file, even when the replace is declined; a declined replace leaves the text, both flags and the stored title as they were |
| TextEditor.DeclinedReplaceRetargetsSave | fiji/scripting/TextEditor.java:475-481 | as written, declining a replace leaves a stale title, and the next Save writes to the declined file |
| TextEditor.DeclinedReplaceLeavesStaleTitle | fiji/scripting/TextEditor.java:475-481 | for every well-formed document, declining a replace onto a path with a different title leaves, as written, a title that no longer matches the file |
| TextEditor.DeclinedReplaceChangesNothing | fiji/scripting/TextEditor.java:477-481 | with the correction, a declined replace leaves the editor exactly as it was |
| TextEditor.SaveAsAction | fiji/scripting/TextEditor.java:452-462 | a cancelled chooser saves nothing; otherwise the save goes to directory + name, approved exactly when it needs no replace or the replace is confirmed |
| TextEditor.Save | fiji/scripting/TextEditor.java:490-498 | an unnamed document delegates to save-as; a named one keeps its file, becomes clean and is approved; under the corrected save-as (see Findings), a failed save changes nothing |
| TextEditor.SaveNamedIdempotent | fiji/scripting/TextEditor.java:490-498 | saving a named document twice has the same effect as saving it once |
| TextEditor.HandleUnsavedChanges | fiji/scripting/TextEditor.java:262-277 | 1 when the document is clean; when dirty, 1 exactly on NO or on YES with an approved save; 0 on CANCEL, a closed dialog or a failed save; going on implies clean or NO; after YES the state is the one `save()` leaves, and otherwise it is unchanged |
| TextEditor.NewCommand | fiji/scripting/TextEditor.java:287-293 | when the unsaved-changes step says 1, the result is an empty, unnamed, clean document without a file and titled "New_"; when it says 0, the state that step left stays; under the corrected save-as (see Findings), the editor stays well formed |
| TextEditor.NewCommandKeepsUnsavedText | fiji/scripting/TextEditor.java:287-293 | New discards a dirty text only after NO or an approved save |
| TextEditor.OpenCommand | fiji/scripting/TextEditor.java:294-312 | Open does nothing beyond the unsaved-changes step when that step says 0 or the chooser is cancelled; otherwise the resolved path is current, named and clean, and the text is the file's lines joined with "\n", or the old text when reading fails |
| TextEditor.RunScript | fiji/scripting/TextEditor.java:545-557 | the script runs exactly when the document is clean and named, or on YES with an approved save; then it is clean, named and has a file, and the state is unchanged if it was already clean and named, otherwise the state `save()` left |
| TextEditor.CompileAndRun | fiji/scripting/TextEditor.java:678-692 | a task is started only after the run gate passed and an interpreter exists for the saved file's extension, and then always |
| ScriptTasks.Start | fiji/scripting/TextEditor.java:564-569 | a new task goes at the end of the registry under a fresh identity, and the registry stays well formed |
| ScriptTasks.RemoveTask | fiji/scripting/TextEditor.java:581 | removal splices out exactly the first occurrence of the task, so the other tasks keep their order; an absent task changes nothing; with distinct tasks the task is gone |
| ScriptTasks.Finish | fiji/scripting/TextEditor.java:575-583 | a finished task leaves the registry by that ordered removal; every other task stays, and the next identity is unchanged |
| ScriptTasks.TasksToKill | fiji/scripting/TextEditor.java:625-654 | nothing when no task runs or the dialog is cancelled; all tasks with "Kill all"; otherwise exactly the chosen one |
| ScriptTasks.ObliterateRemovesExactly | fiji/scripting/TextEditor.java:608-619 | obliterating a list of tasks removes exactly those tasks from a registry of distinct tasks |
| ScriptTasks.KillRemovesPicked | fiji/scripting/TextEditor.java:647-673 | after a kill the registry holds exactly the tasks not picked, and stays well formed |
| ScriptTasks.ObliterateEverything | fiji/scripting/TextEditor.java:648-651 | obliterating every task in registry order empties the list |
| ScriptTasks.KillAllEmptiesRegistry | fiji/scripting/TextEditor.java:648-651 | "Kill all" leaves no task running |
| ScriptTasks.KillOneKeepsOthers | fiji/scripting/TextEditor.java:652-654 | a single kill removes the chosen task and keeps every other one |
| ScriptTasks.KillOnEmptyRegistry | fiji/scripting/TextEditor.java:625-628 | with no task running nothing is killed |
| InterpreterWindow.Interpretable | src/main/java/org/scijava/ui/swing/script/InterpreterWindow.java:120-125 | no compiled language survives, and each interpreted language keeps its multiplicity |
| InterpreterWindow.InsertByName | src/main/java/org/scijava/ui/swing/script/InterpreterWindow.java:127-134 | inserting into a name-sorted list keeps it sorted and adds exactly that language |
| InterpreterWindow.SortByName | src/main/java/org/scijava/ui/swing/script/InterpreterWindow.java:127-134 | the result is sorted by name and is a permutation of the input |
| InterpreterWindow.Languages | src/main/java/org/scijava/ui/swing/script/InterpreterWindow.java:116-136 | no compiled language; every interpreted input language, with its multiplicity; sorted by name |
| InterpreterWindow.FirstTab | src/main/java/org/scijava/ui/swing/script/InterpreterWindow.java:193-200 | the lowest matching tab index at or after the start, or -1 exactly when none matches |
| InterpreterWindow.SetActiveLanguage | src/main/java/org/scijava/ui/swing/script/InterpreterWindow.java:192-201 | the lowest tab with that name gets selected; with no match, or a null name, the selection is unchanged |
| InterpreterWindow.GetActiveLanguage | src/main/java/org/scijava/ui/swing/script/InterpreterWindow.java:184-189 | null exactly when nothing is selected; otherwise the selected tab's name |
| InterpreterWindow.SetThenGetActiveLanguage | src/main/java/org/scijava/ui/swing/script/InterpreterWindow.java:184-201 | after selecting a language that has a tab, the active language is that language |
| InterpreterWindow.SetActiveLanguageToActive | src/main/java/org/scijava/ui/swing/script/InterpreterWindow.java:184-201 | selecting the active language again keeps it active |
| InterpreterWindow.Create | src/main/java/org/scijava/ui/swing/script/InterpreterWindow.java:74-92 | one tab per entry of `languages()`, with a valid selection that is empty only when there are no tabs; the selected tab is the first one named by the stored preference (`readState`), or the first tab when the preference names none |
| InterpreterWindow.WriteState | src/main/java/org/scijava/ui/swing/script/InterpreterWindow.java:175-177 | the preference becomes the active language only when there is one; otherwise the stored value stays |
| InterpreterWindow.ReopenRestoresActiveLanguage | src/main/java/org/scijava/ui/swing/script/InterpreterWindow.java:164-181 | reopening the window over the same languages restores the language that was active when it closed |
| InterpreterWindow.Print | src/main/java/org/scijava/ui/swing/script/InterpreterWindow.java:204-212 | a message goes to standard output exactly when no tab is selected; otherwise only to the selected tab, whose language is the active one |
| Completion.Create | src-plugins/Script_Editor/fiji/scripting/ClassName.java:16-23 | the constructor stores key and name unchanged, so `getName` returns the key; there are no methods yet |
| Completion.GetCompleteName | src-plugins/Script_Editor/fiji/scripting/ClassName.java:25-27 | the same length as the stored name, with no '/', and equal to it at each position except that '/' became '.' |
| Completion.CompleteNameRewriteIdempotent | src-plugins/Script_Editor/fiji/scripting/ClassName.java:26 | applying the '/' to '.' rewrite to a complete name changes nothing |
| Completion.DottedNameUnchanged | src-plugins/Script_Editor/fiji/scripting/ClassName.java:26 | a name without '/' comes back unchanged |
| Completion.CompareTo | src-plugins/Script_Editor/fiji/scripting/ClassName.java:29-32 | two entries compare as 0 exactly when their keys are equal |
| Completion.CompareToSeesOnlyKeys | src-plugins/Script_Editor/fiji/scripting/ClassName.java:29-32 | the comparison depends only on the two keys, never on complete names or methods |
| Completion.CompareToAntisymmetric | src-plugins/Script_Editor/fiji/scripting/ClassName.java:29-32 | `a.compareTo(b)` is the negation of `b.compareTo(a)`, so the signs are opposite |
| Completion.CompareToTotalPreorder | src-plugins/Script_Editor/fiji/scripting/ClassName.java:29-32 | the order is total and transitive, as a sorted set needs |
| Completion.SetMethodNames | src-plugins/Script_Editor/fiji/scripting/ClassName.java:34-42 | every given method is added; no entry is removed; nothing else is added; the size grows by at most the number of methods |

## Findings

| source | as written | input that shows it | evidently intended | confidence | as-written member | corrected member |
|---|---|---|---|---|---|---|
| fiji/scripting/TextEditor.java:475-481 | `saveAs` assigns `file = new File(path)` before it asks whether to replace an existing file, and returns -1 on a NO without restoring it | a dirty document with file `/a`; "Save as..." onto the existing `/b`; answer NO to the replace question; then "Save" | declining the replace leaves the current file, and the title naming it, alone | high, not executed | TextEditor.SaveAsAsWritten, TextEditor.DeclinedReplaceRetargetsSave | TextEditor.SaveAs, TextEditor.DeclinedReplaceChangesNothing |

In the scenario above, the title still reads `*a` after the NO. But the next
Save writes the text over `/b`, the file the user refused to replace.
`Save`, `HandleUnsavedChanges`, `RunScript` and the commands all use the
corrected `SaveAs`.

## Left out

- Swing construction: menus, accelerators, split panes, the gutter, tooltips, the syntax styles, and the divider listener in `syncTabs`. This is widget wiring over libraries that are not modelled.
- Dialogs and file I/O: `OpenDialog`, `SaveDialog`, `JOptionPane`, `GenericDialog`, file reading and writing, and the existence check. Only their results are modelled, as inputs.
- Threads: `interrupt`, `stop`, `getAllThreads` and the three-second grace period before `obliterate`. The model keeps only which tasks are registered and which are picked. The task names built from the date, and the dialog's default choice of the newest task, are not modelled.
- The debugger (`StartDebugging`, `BreakpointManager`), find and replace, and the autocompletion and syntax-highlighting frameworks. These are foreign or not available.
- `setLanguageByExtension` and the `Languages` registry, which are not available. In `CompileAndRun`, the registry's answer is the parameter `hasInterpreter`.
- `windowClosing`, the Quit, Cut, Copy, Paste, Undo and Redo commands, and `setFindAndReplace`. They are not part of the document state machine modelled here.
- Interpreter histories and the preference store: `readHistory`, `writeHistory` and `prefs.get` / `prefs.put`. Only the value that `writeState` would store is modelled.
- InterpreterWindow.SortByName: the stability of `Collections.sort` is not stated. The contract allows languages with equal names in any relative order.
- Completion.SetMethodNames: assumes that `ClassMethod` comparison tells methods apart by their `toString()` text. `ClassMethod.java` is not part of this model. Under that assumption its TreeSet is modelled as a set.
- The no-argument `ClassName()` constructor leaves both strings null. It is not modelled.
- `Item`: `compareTo` is modelled between two `ClassName` entries only.
- JavaString.CompareTo: compares characters by code point. Java compares UTF-16 code units, and the two orders differ only for characters outside the Basic Multilingual Plane.
- TextEditor.FileName: uses '/' as the only separator, and does not model `java.io.File`'s normalisation of redundant separators.
- Out-of-range edits are modelled as changing nothing, because the document rejects them without notifying its listener.
- TextEditor.SaveAsAction: a declined replace is modelled by the corrected save-as and leaves the state unchanged. The program instead leaves `file` pointing at the declined path (see Findings).
- TextEditor.Save: for an unnamed document with a declined replace, the contract's "a failed save changes nothing" describes the corrected save-as. The program retargets `file` there.
- TextEditor.HandleUnsavedChanges: after YES and a declined replace, the program's state has a retargeted `file` with a stale title. The model's state after YES is `Save`'s, which follows the corrected save-as, so a declined replace leaves the state unchanged and well formed.
- TextEditor.RunScript: `!r.runs ==> r.state == st` holds for the corrected save-as. In the program, a declined replace during the YES path leaves `file` retargeted.
- TextEditor.NewCommand: after YES and a declined replace, the state and its well-formedness follow the corrected save-as. The program instead retargets `file` and leaves the title stale.
- TextEditor.OpenCommand: after YES and a declined replace, the state kept on code 0 and its well-formedness follow the corrected save-as. The program instead retargets `file` and leaves the title stale.
- TextEditor.CompileAndRun: `Wf(r.editor)` after YES and a declined replace follows the corrected save-as. The program instead retargets `file` and leaves the title stale.
- A kill index outside the list cannot occur, because the dialog offers only listed tasks. `TasksToKill` requires a valid index.
