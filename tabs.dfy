/**
 * Document and tab bookkeeping of the main window: each open document's
 * state (TabInfo), the map from tab index to document, closing a tab with
 * its save prompt and the re-indexing that follows, Save All, and the
 * answers to the prompts when the window closes.
 * The file system is a parameter: whether a path exists and what encoding
 * detection reports for it. User answers to dialogs are parameters too.
 */
module Tabs {
  import opened Wrappers
  import opened Undo

  /** The four answers of the "Unsaved Changes" box. */
  datatype AskSaveResult = SaveAll | SaveCurrent | NoSave | Cancel

  /** One write of a document to disk: where, in which encoding, what. */
  datatype FileWrite = FileWrite(path: seq<char>, encoding: seq<char>, content: seq<char>)

  /** The file system as Save consults it: os.path.exists, and the encoding detected from a file's bytes. */
  datatype Disk = Disk(present: seq<char> -> bool, detect: seq<char> -> seq<char>)

  /** A write that may not happen, as a list of zero or one writes. */
  function AsSeq(w: Option<FileWrite>): seq<FileWrite> {
    if w.Some? then [w.value] else []
  }

  /** os.path.basename on POSIX: what follows the last '/'; a backslash is an ordinary character. */
  function Basename(path: seq<char>): (r: seq<char>)
    ensures |r| <= |path| && r == path[|path| - |r|..]
    ensures forall i :: 0 <= i < |r| ==> r[i] != '/'
    ensures |r| < |path| ==> path[|path| - |r| - 1] == '/'
    decreases |path|
  {
    if path == [] || path[|path| - 1] == '/' then []
    else Basename(path[..|path| - 1]) + [path[|path| - 1]]
  }

  /** Save's encoding: UTF-16 for a path not on disk, else the one the tab was loaded with, else the detected one. */
  function SaveEncoding(present: bool, cached: Option<seq<char>>, detected: seq<char>): seq<char> {
    if !present then "utf-16"
    else if cached.None? then detected
    else cached.value
  }

  /** One open document. An empty filePath stands for "no file yet". */
  class TabInfo {
    var content: seq<char>
    var filePath: seq<char>
    var modified: bool
    var cursorPos: nat
    var isLoading: bool
    var encoding: Option<seq<char>>
    /** The commands pushed on the tab's undo stack, oldest first. */
    var history: seq<EditCommand>

    /** A new, empty, untitled document. */
    constructor ()
      ensures content == [] && filePath == [] && !modified && cursorPos == 0
      ensures !isLoading && encoding == None && history == []
    {
      content := [];
      filePath := [];
      modified := false;
      cursorPos := 0;
      isLoading := false;
      encoding := None;
      history := [];
    }

    /** The file name, or "Untitled" without a file. */
    function BaseTitle(): seq<char>
      reads this
    {
      if filePath != [] then Basename(filePath) else "Untitled"
    }

    /** The tab's title: the base title, with "*" appended while modified. */
    function Title(): seq<char>
      reads this
    {
      BaseTitle() + (if modified then "*" else "")
    }

    /** The write a Save to `path` performs. */
    function WriteTo(disk: Disk, path: seq<char>): FileWrite
      reads this
    {
      FileWrite(path, SaveEncoding(disk.present(path), encoding, disk.detect(path)), content)
    }

    /**
     * What Save writes: to the tab's own path, or to the path chosen in the
     * Save As dialog when there is none, or nothing when that is cancelled.
     */
    function SaveOutcome(disk: Disk, choice: Option<seq<char>>): Option<FileWrite>
      reads this
    {
      if filePath != [] then Some(WriteTo(disk, filePath))
      else if choice.Some? then Some(WriteTo(disk, choice.value))
      else None
    }

    /**
     * Save. Without a path it goes through Save As; `choice` is the path the
     * Save As dialog returns (None: cancelled). The modified flag and the
     * cached encoding are left as they were.
     */
    method Save(disk: Disk, choice: Option<seq<char>>) returns (written: Option<FileWrite>)
      requires choice != Some([])
      modifies this
      ensures written == old(SaveOutcome(disk, choice))
      ensures filePath == if old(filePath) == [] && choice.Some? then choice.value else old(filePath)
      ensures old(filePath) != [] ==> unchanged(this)
      ensures content == old(content) && modified == old(modified) && encoding == old(encoding)
      ensures cursorPos == old(cursorPos) && isLoading == old(isLoading) && history == old(history)
      decreases if filePath == [] then 2 else 0
    {
      if filePath == [] {
        written := SaveAs(disk, choice);
        return;
      }
      var w := SaveToPath(disk);
      written := Some(w);
    }

    /**
     * Save's work once the tab has a path: pick the encoding and write the
     * content there. Nothing about the tab changes.
     */
    method SaveToPath(disk: Disk) returns (w: FileWrite)
      requires filePath != []
      ensures w.path == filePath && w.content == content
      ensures w.encoding == SaveEncoding(disk.present(filePath), encoding, disk.detect(filePath))
    {
      var e: seq<char>;
      if !disk.present(filePath) {
        e := "utf-16";
      } else if encoding.None? {
        e := disk.detect(filePath);
      } else {
        e := encoding.value;
      }
      w := FileWrite(filePath, e, content);
    }

    /** Save As: take the chosen path and save there; nothing happens when the dialog is cancelled. */
    method SaveAs(disk: Disk, choice: Option<seq<char>>) returns (written: Option<FileWrite>)
      requires choice != Some([])
      modifies this
      ensures written == if choice.Some? then Some(old(WriteTo(disk, choice.value))) else None
      ensures filePath == if choice.Some? then choice.value else old(filePath)
      ensures content == old(content) && modified == old(modified) && encoding == old(encoding)
      ensures cursorPos == old(cursorPos) && isLoading == old(isLoading) && history == old(history)
      decreases 1
    {
      written := None;
      if choice.Some? {
        filePath := choice.value;
        written := Save(disk, None);
      }
    }

    /** The answer to "Save changes?": the button clicked, or NoSave without asking when unmodified. */
    function AskSave(clicked: AskSaveResult): (r: AskSaveResult)
      reads this
      ensures !modified ==> r == NoSave
      ensures modified ==> r == clicked
    {
      if modified then clicked else NoSave
    }
  }

  /**
   * The title ends in "*" whenever the tab is modified and is the bare base
   * title otherwise; without a file it is exactly "Untitled" or "Untitled*".
   * A file name that itself ends in "*" makes the mark ambiguous, so the
   * converse needs a base title without a trailing "*".
   */
  lemma TitleMarksModified(t: TabInfo)
    ensures t.modified ==> |t.Title()| > 0 && t.Title()[|t.Title()| - 1] == '*'
    ensures !t.modified ==> t.Title() == t.BaseTitle()
    ensures t.filePath == [] ==> t.Title() == (if t.modified then "Untitled*" else "Untitled")
    ensures (|t.BaseTitle()| == 0 || t.BaseTitle()[|t.BaseTitle()| - 1] != '*') ==>
      (t.modified <==> |t.Title()| > 0 && t.Title()[|t.Title()| - 1] == '*')
  {
  }

  /** The key a tab gets after the tab at `index` is removed: the key it had, or one less above `index`. */
  function Source(k: int, index: int): int {
    if k >= index then k + 1 else k
  }

  /**
   * CloseTab's re-indexing, for a map keyed by 0..n-1: the entry at `index`
   * is deleted, then the remaining entries are visited in key order, those
   * above `index` moving down one key and those below keeping theirs.
   */
  method ShiftDown(m: map<int, TabInfo>, index: int, n: nat) returns (updated: map<int, TabInfo>)
    requires 0 <= index < n && forall k :: k in m <==> 0 <= k < n
    ensures forall k :: k in updated <==> 0 <= k < n - 1
    ensures forall k :: k in updated ==> updated[k] == m[Source(k, index)]
  {
    updated := map[];
    for key := 0 to n
      invariant forall k :: k in updated <==> 0 <= k && Source(k, index) < key
      invariant forall k :: k in updated ==> updated[k] == m[Source(k, index)]
    {
      if key > index {
        updated := updated[key - 1 := m[key]];
      } else if key < index {
        updated := updated[key := m[key]];
      }
    }
  }

  /** The main window's tab bookkeeping. */
  class MainWindow {
    /** Tab index to document. */
    var openTabs: map<int, TabInfo>
    /** The number of tabs in the tab bar. */
    var tabCount: nat

    /** The documents are keyed by exactly the tab bar's indices. */
    ghost predicate Valid()
      reads this
    {
      forall k :: k in openTabs <==> 0 <= k < tabCount
    }

    /** The window opens with one empty tab. */
    constructor ()
      ensures Valid() && tabCount == 1 && 0 in openTabs && fresh(openTabs[0])
      ensures var t := openTabs[0];
        && t.content == [] && t.filePath == [] && !t.modified && t.cursorPos == 0
        && !t.isLoading && t.encoding == None && t.history == []
    {
      var t := new TabInfo();
      openTabs := map[0 := t];
      tabCount := 1;
    }

    /** A new empty tab at the end of the tab bar. */
    method AddTab() returns (t: TabInfo)
      requires Valid()
      modifies this
      ensures Valid()
      ensures fresh(t) && tabCount == old(tabCount) + 1 && openTabs == old(openTabs)[old(tabCount) := t]
      ensures t.content == [] && t.filePath == [] && !t.modified && t.cursorPos == 0
      ensures !t.isLoading && t.encoding == None && t.history == []
    {
      t := new TabInfo();
      openTabs := openTabs[tabCount := t];
      tabCount := tabCount + 1;
    }

    /** The writes Save All performs for the first `n` tabs: one per tab that has a path, in tab order. */
    function SavedWrites(disk: Disk, n: nat): seq<FileWrite>
      reads this, openTabs.Values
      requires Valid() && n <= tabCount
    {
      if n == 0 then []
      else
        var t := openTabs[n - 1];
        SavedWrites(disk, n - 1) + (if t.filePath != [] then [t.WriteTo(disk, t.filePath)] else [])
    }

    /** Save All: saves every tab that has a path, in tab order; untitled tabs are skipped and no tab changes. */
    method SaveAllTabs(disk: Disk) returns (writes: seq<FileWrite>)
      requires Valid()
      ensures writes == SavedWrites(disk, tabCount)
    {
      writes := [];
      for k := 0 to tabCount
        invariant writes == SavedWrites(disk, k)
      {
        var tab := openTabs[k];
        if tab.filePath != [] {
          var w := tab.SaveToPath(disk);
          writes := writes + [w];
        }
      }
    }

    /** What closing the tab at `index` writes: all tabs with a path for Save All, this tab for Save. */
    function CloseTabWrites(index: int, clicked: AskSaveResult, disk: Disk, choice: Option<seq<char>>): seq<FileWrite>
      reads this, openTabs.Values
      requires Valid() && 0 <= index < tabCount
    {
      var answer := openTabs[index].AskSave(clicked);
      if tabCount <= 1 then []
      else if answer == SaveAll then SavedWrites(disk, tabCount)
      else if answer == SaveCurrent then AsSeq(openTabs[index].SaveOutcome(disk, choice))
      else []
    }

    /** Drop the document at `index` and move the tabs above it down one index. */
    method RemoveTab(index: int)
      requires Valid() && 0 <= index < tabCount
      modifies this
      ensures Valid() && tabCount == old(tabCount) - 1
      ensures forall k :: k in openTabs ==> openTabs[k] == old(openTabs)[Source(k, index)]
    {
      var shifted := ShiftDown(openTabs, index, tabCount);
      openTabs, tabCount := shifted, tabCount - 1;
    }

    /**
     * Close the tab at `index` (only when more than one is open). `clicked`
     * is the user's answer if asked; `choice` the Save As path if needed.
     * A Cancel keeps everything; otherwise the document is dropped and the
     * tabs above it move down one index. An unmodified tab closes unasked.
     */
    method CloseTab(index: int, clicked: AskSaveResult, disk: Disk, choice: Option<seq<char>>)
      returns (writes: seq<FileWrite>)
      requires Valid() && 0 <= index < tabCount && choice != Some([])
      modifies this, openTabs.Values
      ensures Valid()
      ensures writes == old(CloseTabWrites(index, clicked, disk, choice))
      ensures old(tabCount) <= 1 || old(openTabs[index].AskSave(clicked)) == Cancel ==>
        openTabs == old(openTabs) && tabCount == old(tabCount)
      ensures old(tabCount) > 1 && old(openTabs[index].AskSave(clicked)) != Cancel ==>
        && tabCount == old(tabCount) - 1
        && forall k :: k in openTabs ==> openTabs[k] == old(openTabs)[Source(k, index)]
      ensures forall t :: t in old(openTabs.Values) && t != old(openTabs[index]) ==> unchanged(t)
      ensures var t := old(openTabs[index]);
        && t.content == old(t.content) && t.modified == old(t.modified) && t.encoding == old(t.encoding)
        && t.cursorPos == old(t.cursorPos) && t.isLoading == old(t.isLoading) && t.history == old(t.history)
        && t.filePath == if old(tabCount) > 1 && old(t.AskSave(clicked)) == SaveCurrent && old(t.filePath) == [] && choice.Some?
                         then choice.value else old(t.filePath)
    {
      writes := [];
      if tabCount > 1 {
        var tab := openTabs[index];
        var res := tab.AskSave(clicked);
        if res == Cancel {
          return;
        } else if res == SaveAll {
          writes := SaveAllTabs(disk);
        } else if res == SaveCurrent {
          var w := tab.Save(disk, choice);
          writes := AsSeq(w);
        }
        RemoveTab(index);
      }
    }

    /** The editor text changed: the current tab becomes modified unless it is loading, and records the cursor. */
    method TextChanged(current: int, cursor: nat)
      requires Valid() && 0 <= current < tabCount
      modifies openTabs[current]
      ensures var t := openTabs[current];
        && t.modified == (old(t.modified) || !t.isLoading)
        && t.cursorPos == cursor
        && t.content == old(t.content) && t.filePath == old(t.filePath) && t.isLoading == old(t.isLoading)
        && t.encoding == old(t.encoding) && t.history == old(t.history)
    {
      var t := openTabs[current];
      if !t.isLoading {
        t.modified := true;
      }
      t.cursorPos := cursor;
    }

    /**
     * The undo timer fired: push a command from the tab's saved content to
     * the editor text, which becomes the new saved content.
     */
    method PushUndo(current: int, editorText: seq<char>, cursor: nat)
      requires Valid() && 0 <= current < tabCount
      modifies openTabs[current]
      ensures var t := openTabs[current];
        && t.history == old(t.history) + [NewEditCommand(old(t.content), editorText, cursor)]
        && t.content == editorText
        && t.filePath == old(t.filePath) && t.modified == old(t.modified) && t.cursorPos == old(t.cursorPos)
        && t.isLoading == old(t.isLoading) && t.encoding == old(t.encoding)
    {
      var t := openTabs[current];
      t.history := t.history + [NewEditCommand(t.content, editorText, cursor)];
      t.content := editorText;
    }

    /** The first tab from `from` on whose prompt answer is not NoSave, or tabCount. */
    function FirstAnswer(ask: int -> AskSaveResult, from: nat): (k: nat)
      reads this, openTabs.Values
      requires Valid() && from <= tabCount
      ensures from <= k <= tabCount
      ensures forall j :: from <= j < k ==> openTabs[j].AskSave(ask(j)) == NoSave
      ensures k < tabCount ==> openTabs[k].AskSave(ask(k)) != NoSave
      decreases tabCount - from
    {
      if from == tabCount || openTabs[from].AskSave(ask(from)) != NoSave then from
      else FirstAnswer(ask, from + 1)
    }

    /** The answer that decides the close: the first one that is not NoSave, or NoSave. */
    function CloseDecision(ask: int -> AskSaveResult): AskSaveResult
      reads this, openTabs.Values
      requires Valid()
    {
      var k := FirstAnswer(ask, 0);
      if k < tabCount then openTabs[k].AskSave(ask(k)) else NoSave
    }

    /** What closing the window writes: the deciding tab for Save, every tab with a path for Save All. */
    function CloseWrites(ask: int -> AskSaveResult, disk: Disk, choice: int -> Option<seq<char>>): seq<FileWrite>
      reads this, openTabs.Values
      requires Valid()
    {
      var k := FirstAnswer(ask, 0);
      var decision := CloseDecision(ask);
      if decision == SaveAll then SavedWrites(disk, tabCount)
      else if decision == SaveCurrent then AsSeq(openTabs[k].SaveOutcome(disk, choice(k)))
      else []
    }

    /**
     * The window is closing: ask about each tab in order (unmodified tabs
     * answer NoSave unasked). The first other answer decides: Save saves that
     * tab and quits without asking about the rest, Save All saves every tab
     * that has a path and quits, Cancel keeps the window open. All NoSave quits.
     */
    method CloseRequested(ask: int -> AskSaveResult, disk: Disk, choice: int -> Option<seq<char>>)
      returns (quit: bool, writes: seq<FileWrite>)
      requires Valid() && forall k :: choice(k) != Some([])
      modifies openTabs.Values
      ensures quit == (old(CloseDecision(ask)) != Cancel)
      ensures writes == old(CloseWrites(ask, disk, choice))
      ensures forall t ::
        (t in old(openTabs.Values) && (old(CloseDecision(ask)) != SaveCurrent || t != old(openTabs[FirstAnswer(ask, 0)])))
        ==> unchanged(t)
      ensures old(CloseDecision(ask)) == SaveCurrent ==>
        var k := old(FirstAnswer(ask, 0));
        var t := old(openTabs[k]);
        && t.content == old(t.content) && t.modified == old(t.modified) && t.encoding == old(t.encoding)
        && t.cursorPos == old(t.cursorPos) && t.isLoading == old(t.isLoading) && t.history == old(t.history)
        && t.filePath == if old(t.filePath) == [] && choice(k).Some? then choice(k).value else old(t.filePath)
    {
      quit, writes := true, [];
      var k := 0;
      while k < tabCount
        invariant 0 <= k <= tabCount
        invariant unchanged(openTabs.Values)
        invariant FirstAnswer(ask, 0) == FirstAnswer(ask, k)
      {
        var tab := openTabs[k];
        var res := tab.AskSave(ask(k));
        if res == SaveCurrent {
          var w := tab.Save(disk, choice(k));
          writes := AsSeq(w);
          return;
        } else if res == SaveAll {
          writes := SaveAllTabs(disk);
          return;
        } else if res == Cancel {
          quit := false;
          return;
        }
        k := k + 1;
      }
    }
  }

  /**
   * Save All writes exactly the tabs that have a path, each with its own
   * path and content: an untitled tab, however modified, is not written.
   */
  lemma {:induction false} SavedWritesAreNamedTabs(w: MainWindow, disk: Disk, n: nat)
    requires w.Valid() && n <= w.tabCount
    ensures forall x :: x in w.SavedWrites(disk, n) ==>
      exists j :: 0 <= j < n && w.openTabs[j].filePath != [] && x == w.openTabs[j].WriteTo(disk, w.openTabs[j].filePath)
    ensures forall j :: 0 <= j < n && w.openTabs[j].filePath != [] ==>
      w.openTabs[j].WriteTo(disk, w.openTabs[j].filePath) in w.SavedWrites(disk, n)
    ensures forall x :: x in w.SavedWrites(disk, n) ==> x.path != []
  {
    if n > 0 {
      SavedWritesAreNamedTabs(w, disk, n - 1);
    }
  }
}
