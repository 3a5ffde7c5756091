/**
 * The command itself: read the selection, then look for a method when the
 * identifier follows `.` or `>`, and for a file otherwise.
 */
module CodeIntel {
  import opened Wrappers
  import opened Host
  import opened Editing
  import MethodLocator
  import Inheritance
  import FileLocator

  /** Which lookup the command starts. */
  datatype Action = Declined | LookupMethod(name: string) | LookupFile(name: string)

  /** A member access: the identifier follows `.` (as in `obj.name`) or `>` (as in `$obj->name`). */
  predicate IsMemberPrefix(prefix: string)
  {
    prefix == "." || prefix == ">"
  }

  /**
   * The test of `handleCodeIntel`. A `null` selection makes `sel.prefix`
   * throw, so no lookup starts; otherwise a member-access prefix starts only
   * the method lookup and any other prefix only the file lookup.
   */
  function Dispatch(sel: Option<Selection>): (a: Action)
    ensures a.Declined? <==> sel.None?
    ensures a.LookupMethod? <==> sel.Some? && IsMemberPrefix(sel.value.prefix)
    ensures a.LookupFile? <==> sel.Some? && !IsMemberPrefix(sel.value.prefix)
    ensures !a.Declined? ==> a.name == sel.value.text
  {
    match sel
    case None => Declined
    case Some(s) => if s.prefix == "." || s.prefix == ">" then LookupMethod(s.text) else LookupFile(s.text)
  }

  /**
   * On a single-line selection that does not start at column 0, read through
   * a faithful range reader, the method lookup starts exactly when the
   * character in front of the selection is `.` or `>`, and the file lookup
   * exactly when it is any other character.
   */
  lemma DispatchOnCharBeforeSelection(editor: Editor)
    requires editor.selection.start.line == editor.selection.end.line
    requires 0 <= editor.selection.start.line < |editor.document.lines|
    requires 1 <= editor.selection.start.ch <= |editor.document.lines[editor.selection.start.line]|
    requires ReadsLine(editor.getRange, editor.selection.start.line, editor.document.lines[editor.selection.start.line])
    ensures Dispatch(GetSelection(editor)).LookupMethod? <==> CharBeforeStart(editor) in {'.', '>'}
    ensures Dispatch(GetSelection(editor)).LookupFile? <==> CharBeforeStart(editor) !in {'.', '>'}
  {
    PrefixIsCharBeforeStart(editor);
    var c := CharBeforeStart(editor);
    assert [c] == "." <==> c == '.';
    assert [c] == ">" <==> c == '>';
  }

  /** What one run of the command starts. */
  datatype Effect =
    | NoLookup
    | MethodLookup(outcome: MethodLocator.Outcome, parentNames: seq<string>, parents: set<Entry>)
    | FileLookup(offered: set<Entry>)

  /**
   * `handleCodeIntel()`: reads the selection of the active editor and starts
   * the lookup the prefix calls for, in the editor's document and under the
   * project root.
   */
  method HandleCodeIntel(editor: Editor, root: Entry, host: Services) returns (effect: Effect)
    requires root.Directory?
    ensures effect.NoLookup? <==> editor.selection.start.line != editor.selection.end.line
    ensures effect.MethodLookup? <==> Dispatch(GetSelection(editor)).LookupMethod?
    ensures effect.FileLookup? <==> Dispatch(GetSelection(editor)).LookupFile?
    ensures effect.MethodLookup? ==>
      effect.outcome == MethodLocator.FindMethodOutcome(GetSelection(editor).value.text, editor.document, host)
    ensures effect.MethodLookup? && effect.outcome.Resolved? ==> effect.parentNames == [] && effect.parents == {}
    ensures effect.MethodLookup? && effect.outcome.Pending? ==>
      effect.parentNames == Inheritance.ParentNames(editor.document.lines)
    ensures effect.MethodLookup? && effect.outcome.Pending? ==> forall e :: e in effect.parents <==>
      Inheritance.IsCandidate(e, effect.parentNames, editor.document.fullPath, root, host)
    ensures effect.FileLookup? ==> forall e :: e in effect.offered <==>
      FileLocator.Within(e, root) &&
      FileLocator.IsTarget(e, FileLocator.TargetFile(GetSelection(editor).value.text, editor.document.fullPath), host)
  {
    var curDoc := editor.document;
    var sel := GetSelection(editor);
    if sel.None? {
      effect := NoLookup;
    } else if sel.value.prefix == "." || sel.value.prefix == ">" {
      var outcome, parentNames, parents := MethodLocator.FindMethod(sel.value.text, curDoc, root, host);
      effect := MethodLookup(outcome, parentNames, parents);
    } else {
      var offered := FileLocator.FindFile(sel.value.text, curDoc, root, host);
      effect := FileLookup(offered);
    }
  }
}
