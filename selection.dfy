/**
 * The selection reader: the identifier under the cursor and the one
 * character in front of where the selection started.
 */
module Editing {
  import opened Wrappers
  import opened Host

  /** A position in a document: line and column, both counted from zero. */
  datatype Pos = Pos(line: int, ch: int)

  /** A selection, from `start` to `end`. */
  datatype Range = Range(start: Pos, end: Pos)

  /**
   * What the command reads from the active editor:
   * - `selection`: `editor.getSelection()`;
   * - `selectedText`: `editor.getSelectedText()` as the command finds it;
   * - `wordAt(pos)`: `editor.getSelectedText()` once `editor.selectWordAt(pos)` has run;
   * - `getRange(from, to)`: `editor.document.getRange(from, to)`.
   */
  datatype Editor = Editor(
    document: Document,
    selection: Range,
    selectedText: string,
    wordAt: Pos -> string,
    getRange: (Pos, Pos) -> string)

  /** The selected identifier and the text just in front of it. */
  datatype Selection = Selection(text: string, prefix: string)

  /**
   * `getSelection(editor)`: `null` for a selection over several lines;
   * otherwise the selected text, widened to the word at the start when it is
   * empty, and the one-column range that ends at the start of the original
   * selection.
   */
  function GetSelection(editor: Editor): (r: Option<Selection>)
    ensures r.None? <==> editor.selection.start.line != editor.selection.end.line
    ensures r.Some? && editor.selectedText != "" ==> r.value.text == editor.selectedText
    ensures r.Some? && editor.selectedText == "" ==> r.value.text == editor.wordAt(editor.selection.start)
    ensures r.Some? ==> var start := editor.selection.start;
      r.value.prefix == editor.getRange(Pos(start.line, start.ch - 1), start)
  {
    var sel := editor.selection;
    if sel.start.line != sel.end.line then None
    else
      var selection := if editor.selectedText == "" then editor.wordAt(sel.start) else editor.selectedText;
      var prefix := editor.getRange(Pos(sel.start.line, sel.start.ch - 1), Pos(sel.start.line, sel.start.ch));
      Some(Selection(selection, prefix))
  }

  /**
   * The prefix depends on where the selection started and on nothing else:
   * neither the selected text nor the word the selection is widened to.
   */
  lemma PrefixIgnoresWordExpansion(editor: Editor, selectedText: string, wordAt: Pos -> string)
    requires editor.selection.start.line == editor.selection.end.line
    ensures GetSelection(editor.(selectedText := selectedText, wordAt := wordAt)).Some?
    ensures GetSelection(editor.(selectedText := selectedText, wordAt := wordAt)).value.prefix
         == GetSelection(editor).value.prefix
  {
  }

  /** `getRange` reads line `l`, whose text is `line`, faithfully within its bounds. */
  predicate ReadsLine(getRange: (Pos, Pos) -> string, l: int, line: string)
  {
    forall a, b :: 0 <= a <= b <= |line| ==> getRange(Pos(l, a), Pos(l, b)) == line[a..b]
  }

  /** The character in front of the selection start, when the start is not at column 0. */
  function CharBeforeStart(editor: Editor): char
    requires 0 <= editor.selection.start.line < |editor.document.lines|
    requires 1 <= editor.selection.start.ch <= |editor.document.lines[editor.selection.start.line]|
  {
    editor.document.lines[editor.selection.start.line][editor.selection.start.ch - 1]
  }

  /**
   * When the document's range reader is faithful on the selection's line and
   * the selection does not start at column 0, the prefix is exactly the one
   * character in front of the selection start.
   */
  lemma PrefixIsCharBeforeStart(editor: Editor)
    requires editor.selection.start.line == editor.selection.end.line
    requires 0 <= editor.selection.start.line < |editor.document.lines|
    requires 1 <= editor.selection.start.ch <= |editor.document.lines[editor.selection.start.line]|
    requires ReadsLine(editor.getRange, editor.selection.start.line, editor.document.lines[editor.selection.start.line])
    ensures GetSelection(editor).Some?
    ensures GetSelection(editor).value.prefix == [CharBeforeStart(editor)]
  {
    var start := editor.selection.start;
    var line := editor.document.lines[start.line];
    assert editor.getRange(Pos(start.line, start.ch - 1), Pos(start.line, start.ch)) == line[start.ch - 1..start.ch];
  }
}
