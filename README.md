# WriteBox in Dafny

WriteBox is a tabbed plain-text editor written in Python on PyQt6
(`writebox.py`). This project models the parts of it that hold logic rather
than widgets, and proves what they do:

- **Find/Replace dialog** (`search.dfy`, module `Search`). FindNext keeps a
  session cursor. It folds case when Match Case is off. It searches with
  `str.find`, with a hand-written whole-word loop, or with a regular
  expression, and it offers to wrap around to the start. ReplaceAll uses
  `str.replace`, a whole-word splice loop, or `re.sub`.
- **Spell & Grammar Check dialog** (`grammar.dfy`, module `Grammar`). It keeps
  the list of issues, the index of the issue on show and the first-check flag.
  Ignore, Ignore All, Replace and Replace All are modelled, including Replace
  All's splicing of every issue with the same rule, last one first.
- **Undo commands** (`undo.dfy`, module `Undo`). The history label of an edit
  is modelled, and so is what undo and redo do to the editor's text and cursor.
- **Tabs and documents** (`tabs.dfy`, module `Tabs`). A document has a title, a
  modified flag, Save and its choice of encoding, and the "Save changes?"
  answer. The main window maps tab indices to documents. Closing a tab
  re-indexes that map. Save All, the text-changed flag and closing the window
  are modelled too. The map is walked in ascending key order, where Python walks
  a dict in insertion order. The two agree: AddTab always inserts the largest
  key, and CloseTab rebuilds the map in ascending order.
- **Link under a Shift+click** (`link_span.dfy`, module `Links`). The
  whitespace-delimited span around the clicked position is modelled.
- `text_ops.dfy` (module `TextOps`) holds the Python string operations the
  editor relies on: `str.lower`, `str.find`, `str.replace`, `isalnum`,
  `isspace` and clamped slicing. `wrappers.dfy` holds `Option`.

Things outside the program become parameters:
- The regular-expression engine is a function `search` or `substitute`.
- The grammar checker is the dialog's `check` function.
- The file system is a `Disk`: whether a path exists, and the encoding
  detected for a file.
- The user's answers to dialogs are parameters, such as `clicked`, `choice`
  and `replies`.

Python's `str.lower`, `isalnum` and `isspace` are read on ASCII. Strings are
`seq<char>`. A missing file path (`None`) is the empty string, since the
source only ever tests it for truth.

## Model

Some functions are the specifications of the methods in the table and are not listed on their own: `Search.Locate` (of LocateNext), `Grammar.LoadNotices` and `Grammar.ShowNotices` (of LoadErrors, ShowNextError and the methods built on them), and `Tabs.TabInfo.SaveOutcome`, `Tabs.MainWindow.SavedWrites`, `Tabs.MainWindow.CloseTabWrites`, `Tabs.MainWindow.CloseDecision` and `Tabs.MainWindow.CloseWrites` (of Save, SaveAllTabs, CloseTab and CloseRequested).

| member | source | states |
|---|---|---|
| TextOps.Lower | writebox.py:1444-1446 | lower-casing keeps the length and lower-cases each character in place |
| TextOps.LowerIdempotent | writebox.py:1444-1446 | lower-casing an already lower-cased text changes nothing |
| TextOps.LowerKeepsOccurrence | writebox.py:1444-1446 | every case-sensitive occurrence is still an occurrence after both texts are lower-cased |
| TextOps.OccursAtIsSlice | writebox.py:1470 | the character-wise occurrence test is exactly slice equality with the pattern |
| TextOps.Find | writebox.py:1479 | `str.find`: -1 or a start at or after `from` where the pattern fits; FindIsFirst gives its meaning |
| TextOps.FindIsFirst | writebox.py:1479 | `str.find` returns an occurrence at or after the start with none before it, and -1 exactly when there is none |
| TextOps.Replace | writebox.py:1558 | `str.replace`, left to right without overlap; ReplaceAtFirst states its meaning |
| TextOps.ReplaceAtFirst | writebox.py:1558 | `str.replace` keeps the text before the first occurrence `str.find` reports, puts the replacement there and carries on after that occurrence; with no occurrence the text is unchanged |
| TextOps.ReplaceAbsent | writebox.py:1558 | `str.replace` of a pattern that never occurs returns the text unchanged |
| TextOps.ReplaceBySelf | writebox.py:1558 | replacing a pattern by itself returns the text unchanged |
| TextOps.Take | writebox.py:1283 | a clamped prefix slice has length min(k, len) and is a prefix of the text |
| TextOps.TakeDrop | writebox.py:1283 | `s[:k] + s[k:] == s` for every k |
| Search.Fold | writebox.py:1444-1446 | case folding keeps the length and is the identity with Match Case on |
| Search.ScanFrom | writebox.py:1466-1477 | the final (Index, StartIndex) pair of the whole-word loop; ScanSound, WholeWordScanMeaning and ScanKeepsEndCandidate give its meaning |
| Search.ScanSound | writebox.py:1466-1477 | the whole-word loop yields -1 or an occurrence; a candidate that fails the boundary test is yielded only when it ends at the end of the text, and the loop has then stopped there |
| Search.ScanMissesNoWholeWord | writebox.py:1466-1477 | for a pattern made of letters and digits, the loop skips no whole-word occurrence |
| Search.WholeWordScanMeaning | writebox.py:1466-1477 | whole-word search from a start: the index is at or after the start, it is a whole-word occurrence unless it ends the text, and for word patterns it is the first whole-word occurrence |
| Search.ScanKeepsEndCandidate | writebox.py:1466-1477 | a first candidate that fails the boundary test but ends the text is kept by the loop and returned as the match, with StartIndex at the end of the text |
| Search.ScanWholeWord | writebox.py:1466-1477 | the loop computes the final (Index, StartIndex) pair of the whole-word scan |
| Search.PassNext | writebox.py:1550-1556 | one step of the whole-word replace loop leaves everything after the candidate untouched, and resumes the search right where that untouched text begins |
| Search.WholeWordPass | writebox.py:1544-1556 | the whole-word replace loop on its own state (NewText, StartIndex); ReplaceWholeWords, WholeWordReplaceMeaning and ReplacedFromBySelf give its meaning |
| Search.ReplaceWholeWords | writebox.py:1542-1556 | the whole-word replace loop computes the pass over the growing text |
| Search.WholeWordReplaceMeaning | writebox.py:1542-1556 | for patterns made of letters and digits, the pass over the growing text equals a replacement of each whole-word occurrence of the original text, judged on the original text |
| Search.WholeWordPassSeesReplacements | writebox.py:1544-1556 | for a pattern not made of letters and digits the pass can differ from replacing the original whole words: on ".a.a" it replaces both ".a" although the second follows a letter |
| Search.ReplacedFromBySelf | writebox.py:1542-1556 | whole-word replacement of a pattern by itself returns the text unchanged |
| Search.LocateNext | writebox.py:1448-1479 | one search step picks the regular-expression match on the text after the cursor, the whole-word scan or `str.find` by the options |
| Search.FindOutcome | writebox.py:1419-1498 | FindNext's selected match and new cursor, with the wraparound retries; FindNextCursor, PlainFindIsFirstOccurrence, WholeWordFindIsFirstWholeWord and WholeWordWrapAsksAgain give its meaning |
| Search.FindNextCursor | writebox.py:1481-1498 | after FindNext the cursor is the match start plus the search text's length; a literal match is an occurrence of the folded pattern; without a match the cursor is unchanged or, after a confirmed wraparound, 0 |
| Search.PlainFindIsFirstOccurrence | writebox.py:1478-1486 | when no wraparound is accepted, plain literal FindNext selects exactly the first occurrence at or after the cursor, and nothing exactly when there is none |
| Search.PlainWrapFindsFirstFromStart | writebox.py:1478-1498 | when plain literal FindNext finds nothing from the cursor and the wraparound is accepted, it selects the first occurrence in the whole scope, possibly before the cursor, and nothing only when there is none |
| Search.WholeWordFindIsFirstWholeWord | writebox.py:1466-1486 | when no wraparound is accepted, whole-word FindNext selects an occurrence at or after the cursor, a whole-word one unless it ends the scope, and the first whole-word one for word patterns |
| Search.WholeWordSelectsEndCandidate | writebox.py:1466-1486 | whole-word FindNext selects the next occurrence even though it fails the boundary test when it ends the scope, and moves the cursor to the end of the scope |
| Search.WholeWordWrapAsksAgain | writebox.py:1466-1498 | when only rejected candidates exist, a whole-word FindNext from 0 still offers wraparound, and accepting it repeats the same search |
| Search.LiteralReplaceAll | writebox.py:1529-1558 | what literal ReplaceAll writes back: the folded text through the whole-word pass or `str.replace`; LiteralReplaceAllAbsent and LiteralReplaceAllBySelf give its meaning |
| Search.LiteralReplaceAllAbsent | writebox.py:1529-1558 | when the folded pattern never occurs, literal ReplaceAll still writes back the folded text, which is lower-cased with Match Case off |
| Search.LiteralReplaceAllBySelf | writebox.py:1541-1558 | with Match Case on, replacing the search text by itself writes back the scope unchanged |
| Search.FindReplaceDialog.constructor | writebox.py:1416 | a new dialog's search cursor is 0 |
| Search.FindReplaceDialog.FindNext | writebox.py:1419-1498 | the selected match and the new cursor are those of the FindNext outcome from the old cursor, including the wraparound retries |
| Search.FindReplaceDialog.ReplaceAll | writebox.py:1506-1563 | an empty search text writes nothing; the literal paths write the folded replaced text and reset the cursor; the regex path writes what `re.sub` returns and resets the cursor unless the pattern was rejected |
| Grammar.Splice | writebox.py:1276-1284 | `text[:offset] + replacement + text[offset + length:]` with clamped slices; SpliceShape and SpliceUndo give its meaning |
| Grammar.SpliceShape | writebox.py:1276-1284 | an in-bounds splice keeps the text before and after the span and puts the replacement between them |
| Grammar.SpliceUndo | writebox.py:1276-1284 | splicing the original characters back over the replacement restores the text |
| Grammar.WithoutRule | writebox.py:1271-1274 | Ignore All's filtered list is no longer than the original |
| Grammar.WithoutRuleMembers | writebox.py:1271-1274 | an issue survives Ignore All exactly when it was listed and has a different rule |
| Grammar.WithoutRuleAppend | writebox.py:1271-1274 | the filter works element by element and keeps order |
| Grammar.IgnoreAllShrinks | writebox.py:1271-1274 | Ignore All removes at least the current issue |
| Grammar.SameRuleSpansMembers | writebox.py:1252-1256 | Replace All collects the span of exactly the issues that have the current rule |
| Grammar.SameRuleSpans | writebox.py:1252-1256 | the spans Replace All collects, in list order; SameRuleSpansMembers and SpansAndSurvivorsPartition give its meaning |
| Grammar.SpansAndSurvivorsPartition | writebox.py:1252-1256 | the collected spans and the issues Ignore All would keep together account for every issue |
| Grammar.SpliceInReverse | writebox.py:1258-1260 | the reverse loop splices the spans last one first |
| Grammar.SplicedBackward | writebox.py:1258-1260 | the collected spans spliced last one first; ReplaceAllKeepsOutside and ReplaceAllLength give its meaning |
| Grammar.ReplaceAllKeepsOutside | writebox.py:1258-1260 | for spans in increasing, non-overlapping order, splicing last one first equals rebuilding the text left to right: the text between spans kept, each span replaced |
| Grammar.ReplaceAllLength | writebox.py:1258-1260 | for spans in increasing, non-overlapping order, the length after Replace All is the old length minus the spans' lengths plus one replacement per span |
| Grammar.CheckShowsOneThing | writebox.py:1213-1239 | a check followed by showing the first issue shows exactly one thing: the first issue, or "No Errors" on the first check, or "Reached End of Document" later |
| Grammar.GrammarSession.constructor | writebox.py:1134-1176 | a new dialog has no issues, index 0, first-check flag up and buttons disabled |
| Grammar.GrammarSession.LoadErrors | writebox.py:1213-1226 | the issues are the checker's result; an empty first result shows "No Errors", calls close() and disables the buttons |
| Grammar.GrammarSession.ShowNextError | writebox.py:1228-1239 | shows the issue at the index and lowers the first-check flag, or shows the end box and closes unless still on the first check; the flag is up exactly until an issue has been shown |
| Grammar.GrammarSession.StartCheck | writebox.py:1199-1211 | enables the buttons, checks and shows the issue at the index; the buttons end disabled exactly when the first check finds nothing, and close() has been called then, or when a later check has no issue at the index |
| Grammar.GrammarSession.Ignore | writebox.py:1267-1269 | steps the index by one and shows what is there; past the last issue it shows the end box and closes unless still on the first check; the buttons stay as they were |
| Grammar.GrammarSession.IgnoreAll | writebox.py:1271-1274 | drops every issue with the current rule, keeps the index and shows what is there now; with no issue left at the index it shows the end box and closes; the buttons stay as they were |
| Grammar.GrammarSession.Recheck | writebox.py:1286-1288 | rechecks the text, resets the index to 0 and shows the first issue; with no issue left the dialog closes, and on the first check the buttons are disabled too |
| Grammar.GrammarSession.Replace | writebox.py:1241-1244 | with a suggestion selected, splices it over the current issue's span and rechecks, closing the dialog when no issue is left; without one nothing about the dialog changes |
| Grammar.GrammarSession.ReplaceAll | writebox.py:1246-1265 | with a suggestion selected, splices it over every span of the current rule, last one first, and rechecks, closing the dialog when no issue is left; without one nothing about the dialog changes |
| Undo.EditCommand.Undo | writebox.py:1027-1033 | undo restores the old text and puts the cursor at the end of its first line |
| Undo.EditCommand.Redo | writebox.py:1035-1041 | redo restores the new text and the saved cursor position; a position past the end leaves the cursor at 0 |
| Undo.AddedText | writebox.py:1020-1025 | the added text is the new text past the old length, empty when the text did not grow |
| Undo.AddedTextRoundTrip | writebox.py:1020-1025 | when the old text is a prefix of the new one, old text plus added text is the new text |
| Undo.Label | writebox.py:1012-1014 | the history label of an edit; LabelMeaning gives its meaning |
| Undo.LabelMeaning | writebox.py:1012-1014 | the label is "Removed text" exactly when the text did not grow; otherwise it is `Typed '...'` quoting exactly the characters past the old length |
| Undo.NewEditCommand | writebox.py:1012-1018 | a pushed command holds the tab's saved content, the editor text and the cursor; its label is "Removed text" when the text did not grow and otherwise `Typed '...'` quoting the characters past the old length |
| Undo.EndOfFirstBlock | writebox.py:1030-1031 | the cursor lands on the first line break at or after the start, or the end of the text |
| Undo.PushLeavesEditorAlone | writebox.py:803-806 | pushing a command runs its redo, which leaves the editor's text and cursor as they were |
| Undo.UndoThenRedoRestores | writebox.py:1027-1041 | undoing a pushed command restores the saved content, and redoing it then restores the editor's text and cursor |
| Tabs.Basename | writebox.py:1073 | the base name is the suffix after the last '/', and has no '/' |
| Tabs.TabInfo.constructor | writebox.py:1044-1051 | a new document is empty, untitled, unmodified, not loading, has no encoding and an empty history |
| Tabs.TabInfo.Title | writebox.py:1072-1074 | the tab title, `GetTitle`; TitleMarksModified gives its meaning |
| Tabs.TitleMarksModified | writebox.py:1072-1074 | the title ends in "*" when modified and is the bare base title otherwise; without a file it is "Untitled" or "Untitled*" |
| Tabs.TabInfo.Save | writebox.py:1076-1092 | writes the content to the tab's path, or through Save As to the chosen path; nothing when that is cancelled; the modified flag and cached encoding never change |
| Tabs.TabInfo.SaveToPath | writebox.py:1081-1092 | the write goes to the tab's path with its content, in UTF-16 for a new file, else the cached encoding, else the detected one |
| Tabs.SaveEncoding | writebox.py:1081-1090 | Save's choice of encoding: UTF-16 for a path not on disk, else the cached encoding, else the detected one; SaveToPath uses it |
| Tabs.TabInfo.SaveAs | writebox.py:1094-1102 | takes the chosen path and saves there; a cancelled dialog changes nothing |
| Tabs.TabInfo.AskSave | writebox.py:1104-1124 | an unmodified tab answers NoSave without asking; a modified one answers the button clicked |
| Tabs.ShiftDown | writebox.py:716-725 | for tabs keyed 0..n-1, deleting `index` and shifting leaves keys 0..n-2, each holding the document from the same key below `index` or from the next key at or above it |
| Tabs.MainWindow.constructor | writebox.py:123-125 | the window opens with one fresh document at index 0: empty, untitled, unmodified, cursor at 0, not loading, no encoding, no history |
| Tabs.MainWindow.AddTab | writebox.py:808-811 | a fresh document (empty, untitled, unmodified, cursor at 0, not loading, no encoding, no history) is added at the next index and the others keep theirs |
| Tabs.MainWindow.SaveAllTabs | writebox.py:730-733 | Save All writes the tabs with a path, in tab order, and changes no tab |
| Tabs.SavedWritesAreNamedTabs | writebox.py:730-733 | Save All writes exactly the tabs that have a path, each with its own path and content; untitled tabs are not written |
| Tabs.MainWindow.RemoveTab | writebox.py:713-725 | after removal the keys are again 0..n-2 and the documents above `index` have moved down one |
| Tabs.MainWindow.CloseTab | writebox.py:702-728 | the last tab never closes; Cancel keeps every tab; otherwise the writes follow the answer (Save All, this tab, or nothing), the tab is dropped and the keys stay 0..n-1; no other document changes, and the closed one changes only by the path Save As gives it |
| Tabs.MainWindow.TextChanged | writebox.py:880-891 | the current tab becomes modified unless it is loading, and records the cursor |
| Tabs.MainWindow.PushUndo | writebox.py:803-806 | appends the command from the saved content to the editor text, which becomes the saved content |
| Tabs.MainWindow.FirstAnswer | writebox.py:170-183 | the first tab whose answer is not NoSave: every earlier tab answered NoSave |
| Tabs.MainWindow.CloseRequested | writebox.py:169-185 | the first answer other than NoSave decides: Cancel keeps the window, Save writes that tab, Save All writes every tab with a path; otherwise the window quits with nothing written; no document changes except the one saved, which only gets the path Save As gives it |
| Links.LinkSpanAt | writebox.py:985-995 | the span holds the click, has no whitespace, and is bounded by whitespace or the ends of the text |
| Links.TokenAroundUnique | writebox.py:985-995 | the span is determined by the word clicked: a click anywhere in it finds the same span |

## Left out

- Widgets, layouts, menus, toolbars, zoom, printing, themes, fonts, status bar and the tab bar's drawing: they hold no logic beyond Qt calls.
- Reading a file into a tab (`TabInfo.LoadFile`, and `Open`, which adds a tab for it): file reading and chardet's detection are I/O. The document loaded is not modelled, so `isLoading` only matters through TextChanged.
- The grammar checker runs on a background thread (LanguageTool loading and its signals). It is modelled only as the `check` function and as `StartCheck`, which runs when the checker is ready.
- `IsLink` and `webbrowser.open` after a Shift+click: URL parsing and the browser are outside the program. Only the span is modelled.
- The regular-expression engine (`re.search`, `re.sub`) is a function parameter. Nothing is proved about what a pattern matches.
- Python's `str.lower`, `str.isalnum` and `str.isspace` are read on ASCII. Letters and spaces outside ASCII are not modelled.
- Dialog answers are parameters. FindNext's repeated wraparound prompts are a finite list of replies; once it runs out, a prompt counts as declined.
- The QUndoStack is a history sequence of commands. Undo and redo are modelled as values (`EditCommand.Undo`/`Redo` on an `Editor`); walking the stack (index, canUndo/canRedo) is not modelled.
- TabSelected (writebox.py:825-831) copies the selected tab's content into the editor and moves the editor's cursor to the tab's saved position. The editor widget is not part of this model, so switching tabs is not modelled; TextChanged and PushUndo take the current index and the editor's text and cursor as parameters.
- The undo timer (writebox.py:127-129, 880-886) decides when PushUndo runs: a single-shot timer restarted on each change, so a burst of typing becomes one command. Its timing is not modelled; PushUndo is modelled as the step the timer fires.
- ToggleCloseButtons and the window title: display updates around the modelled state.
- The tab bar's own removals and moves are not modelled: middle-click removal and the context menu's Close Tab and Close Other Tabs (`CustomTabBar`, writebox.py:914-938) remove tabs without touching the document map, and `setMovable(True)` (writebox.py:82) lets the user reorder tabs while the map keeps its keys. After any of these the tab index no longer names the same document; the model's invariant (keys exactly 0..n-1, in tab order) holds only for the main window's own operations.
- The `Disk` does not change across the writes of one Save All or one window close. In the source, a Save that creates a file makes its path exist for any later write in the same run, such as a second tab with the same path, which would then detect the encoding instead of choosing UTF-16.
- A failing file write is not modelled: every write succeeds. In the source, `open`/`write` raising in Save (writebox.py:1091-1092) stops SaveAllTabs, CloseTab and closeEvent part way, with the earlier tabs written and the rest not.
- Choosing the search scope (Document, Paragraph, Current Line or Selection) is left to the caller: FindNext and ReplaceAll take the scope text as a parameter.
- Tabs.Basename: splits at '/' only, as `posixpath.basename` does. On Windows, `os.path.basename` is `ntpath.basename`, which also splits at `\` and after a drive letter such as `C:`. The program is evidently meant for Windows too: its command line takes '/'-prefixed switches (writebox.py:143). The Windows separators are not modelled.
- Tabs.MainWindow.CloseTab: requires `index` to be a valid tab index, as the tab bar only ever sends one.
- Tabs.TabInfo.Save: requires a chosen Save As path to be non-empty, as the file dialog only accepts a selected file.
- Grammar.GrammarSession.LoadErrors: `closed` records that `close()` was called, not that the dialog is gone. When the checker has already loaded (its loader thread starts with the main window, writebox.py:48-57, 73), the dialog's constructor runs StartCheck itself (writebox.py:1196-1197) before `exec()` shows it (writebox.py:444). An empty first check then calls `close()` on a dialog not yet shown, and `exec()` opens it anyway: empty, with its four buttons disabled. Showing the dialog with `exec()` is not modelled.
- Grammar.GrammarSession.IgnoreAll: requires the index to be on an issue. The source raises IndexError otherwise. That state is reached in two ways: Ignore steps past the last issue, which shows the end box and closes the dialog; or the first check finds nothing, which disables the four buttons. Either way Ignore All cannot be clicked there.
- Grammar.GrammarSession.Replace: requires the index to be on an issue when a suggestion is selected, as suggestions are only listed for the issue on show.
- Grammar.GrammarSession.ReplaceAll: requires the index to be on an issue when a suggestion is selected, for the same reason.
- Grammar.ReplaceAllKeepsOutside: proved for spans in increasing, non-overlapping order only. What Replace All does to unordered or overlapping spans is modelled (SplicedBackward) but not characterised.
- Links.LinkSpanAt: requires the click position to lie within the text, as Qt's cursor position always does.
- Grammar.ReplaceAllLength: the length is stated for spans in increasing, non-overlapping order only, as for ReplaceAllKeepsOutside.
- Search.WholeWordReplaceMeaning: proved for patterns made of letters and digits only. The loop judges the character before a candidate in the text it is rewriting, so with other patterns a replacement can expose a later whole-word match that the original text does not have (Search.WholeWordPassSeesReplacements).
- Search.WholeWordFindIsFirstWholeWord: "first whole-word occurrence" is proved for patterns made of letters and digits only. With other characters in the pattern, the loop can jump over a whole-word occurrence that overlaps a rejected candidate.
