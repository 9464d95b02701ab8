/**
 * The undo command the editor pushes for each edit: its label, and what
 * undoing and redoing it do to the editor's text and cursor.
 */
module Undo {

  /** The editor as undo and redo see it: its plain text and the cursor position. */
  datatype Editor = Editor(text: seq<char>, cursor: nat)

  /** One undoable edit: the text before and after it and the cursor position when it was made. */
  datatype EditCommand = EditCommand(historyText: seq<char>, oldText: seq<char>, newText: seq<char>, cursorPosition: nat)
  {
    /** Undo restores the old text and puts the cursor at the end of its first line. */
    function Undo(editor: Editor): (r: Editor)
      ensures r.text == oldText && r.cursor <= |oldText|
      ensures r.cursor == |oldText| || oldText[r.cursor] == '\n'
      ensures forall k :: 0 <= k < r.cursor ==> oldText[k] != '\n'
    {
      Editor(oldText, EndOfFirstBlock(oldText, 0))
    }

    /**
     * Redo restores the new text and the saved cursor position; a position
     * past the end of the text is refused, which leaves the cursor at the
     * start where setting the text put it.
     */
    function Redo(editor: Editor): (r: Editor)
      ensures r.text == newText && r.cursor <= |newText|
      ensures cursorPosition <= |newText| ==> r.cursor == cursorPosition
      ensures cursorPosition > |newText| ==> r.cursor == 0
    {
      Editor(newText, if cursorPosition <= |newText| then cursorPosition else 0)
    }
  }

  /** The characters an edit appended: new_text[len(old_text):] when the text grew, else "". */
  function AddedText(oldText: seq<char>, newText: seq<char>): (r: seq<char>)
    ensures |r| == if |newText| > |oldText| then |newText| - |oldText| else 0
    ensures r == newText[|newText| - |r|..]
  {
    if |newText| > |oldText| then newText[|oldText|..] else []
  }

  /** Typing at the end: the old text followed by the added characters is the new text. */
  lemma AddedTextRoundTrip(oldText: seq<char>, newText: seq<char>)
    requires oldText <= newText
    ensures oldText + AddedText(oldText, newText) == newText
  {
    assert newText == newText[..|oldText|] + newText[|oldText|..];
  }

  /** The label shown in the history: "Typed '<added>'" when something was added, else "Removed text". */
  function Label(oldText: seq<char>, newText: seq<char>): seq<char> {
    var added := AddedText(oldText, newText);
    if added != [] then "Typed '" + added + "'" else "Removed text"
  }

  /** The added characters read back from a "Typed '...'" label. */
  function TypedText(caption: seq<char>): seq<char>
    requires |caption| >= 8
  {
    caption[7..|caption| - 1]
  }

  /**
   * The label is "Removed text" exactly when the text did not grow (also for
   * an edit that replaced characters without growing); otherwise it quotes
   * exactly the characters past the old length.
   */
  lemma LabelMeaning(oldText: seq<char>, newText: seq<char>)
    ensures Label(oldText, newText) == "Removed text" <==> |newText| <= |oldText|
    ensures |newText| > |oldText| ==>
      var caption := Label(oldText, newText);
      && |caption| >= 8 && caption[..7] == "Typed '" && caption[|caption| - 1] == '\''
      && TypedText(caption) == newText[|oldText|..]
  {
    var caption := Label(oldText, newText);
    if |newText| > |oldText| {
      assert caption[0] == 'T';
      assert caption[..7] == "Typed '";
    }
  }

  /** The command PushUndo creates: the tab's saved content, the editor's text and its cursor. */
  function NewEditCommand(oldText: seq<char>, newText: seq<char>, cursor: nat): (c: EditCommand)
    ensures c.oldText == oldText && c.newText == newText && c.cursorPosition == cursor
    ensures |newText| <= |oldText| ==> c.historyText == "Removed text"
    ensures |newText| > |oldText| ==> c.historyText == "Typed '" + newText[|oldText|..] + "'"
  {
    EditCommand(Label(oldText, newText), oldText, newText, cursor)
  }

  /** QTextCursor's EndOfBlock from the start of the text: the first '\n' at or after `from`, else the end. */
  function EndOfFirstBlock(text: seq<char>, from: nat): (r: nat)
    requires from <= |text|
    ensures from <= r <= |text|
    ensures r == |text| || text[r] == '\n'
    ensures forall k :: from <= k < r ==> text[k] != '\n'
    decreases |text| - from
  {
    if from == |text| || text[from] == '\n' then from else EndOfFirstBlock(text, from + 1)
  }

  /**
   * Pushing a command runs its redo, which leaves the editor as it was: the
   * command's new text is the editor's text and its cursor is the editor's.
   */
  lemma PushLeavesEditorAlone(oldText: seq<char>, editor: Editor)
    requires editor.cursor <= |editor.text|
    ensures NewEditCommand(oldText, editor.text, editor.cursor).Redo(editor) == editor
  {
  }

  /**
   * Undoing a pushed command brings back the tab's saved content, and redoing
   * it then returns the editor to exactly the text and cursor it had when the
   * command was pushed.
   */
  lemma UndoThenRedoRestores(oldText: seq<char>, editor: Editor, later: Editor)
    requires editor.cursor <= |editor.text|
    ensures var c := NewEditCommand(oldText, editor.text, editor.cursor);
      c.Undo(later).text == oldText && c.Redo(c.Undo(later)) == editor
  {
  }
}
