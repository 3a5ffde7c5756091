/**
 * The parent lookup: every line that mentions `extends` names a parent, and a
 * file search is started for each name.
 */
module Inheritance {
  import opened Text
  import opened Host
  import FileLocator

  const Extends: string := "extends"

  /** `line.split('extends').pop().trim()`: the name written after the last `extends` on the line. */
  function ParentName(line: string): (name: string)
    ensures !Contains(name, Extends)
    ensures name == [] || (!IsWhitespace(name[0]) && !IsWhitespace(name[|name| - 1]))
  {
    TrimmedTailAfterLastSeparator(line, Extends);
    Trim(SplitLast(line, Extends))
  }

  /**
   * For a line that mentions `extends`, the parent name is the text after its
   * last occurrence with surrounding whitespace removed: that text follows an
   * `extends`, holds none itself, and the name holds none either.
   */
  lemma ParentNameAfterLastExtends(line: string)
    requires Contains(line, Extends)
    ensures OccursAt(line, Extends, |line| - |SplitLast(line, Extends)| - |Extends|)
    ensures !Contains(SplitLast(line, Extends), Extends)
    ensures WhitespaceAround(SplitLast(line, Extends), ParentName(line), SkipLeading(SplitLast(line, Extends), 0))
    ensures !Contains(ParentName(line), Extends)
    ensures ParentName(line) == [] || (!IsWhitespace(ParentName(line)[0]) && !IsWhitespace(ParentName(line)[|ParentName(line)| - 1]))
  {
    TrimmedTailAfterLastSeparator(line, Extends);
  }

  /** `line.match('extends')`: the literal pattern holds no regular-expression metacharacter. */
  predicate MentionsExtends(line: string)
  {
    Contains(line, Extends)
  }

  /** The lines that `keep` accepts, each mapped through `f`, in line order. */
  function Collect(lines: seq<string>, keep: string -> bool, f: string -> string): (r: seq<string>)
    ensures |r| <= |lines|
  {
    if lines == [] then []
    else
      var line := lines[|lines| - 1];
      Collect(lines[..|lines| - 1], keep, f) + if keep(line) then [f(line)] else []
  }

  /** What `Collect` yields is exactly the images of the accepted lines. */
  lemma {:induction false} CollectMembers(lines: seq<string>, keep: string -> bool, f: string -> string, x: string)
    ensures x in Collect(lines, keep, f) <==> exists i :: 0 <= i < |lines| && keep(lines[i]) && x == f(lines[i])
  {
    if lines != [] {
      var n := |lines| - 1;
      var init := lines[..n];
      CollectMembers(init, keep, f, x);
      var own := if keep(lines[n]) then [f(lines[n])] else [];
      assert Collect(lines, keep, f) == Collect(init, keep, f) + own;
      if x in Collect(init, keep, f) {
        var i :| 0 <= i < |init| && keep(init[i]) && x == f(init[i]);
        assert lines[i] == init[i];
      }
      if exists i :: 0 <= i < |lines| && keep(lines[i]) && x == f(lines[i]) {
        var i :| 0 <= i < |lines| && keep(lines[i]) && x == f(lines[i]);
        if i < n {
          assert init[i] == lines[i];
        }
      }
    }
  }

  /** The indices of the lines `keep` accepts. */
  function Accepted(lines: seq<string>, keep: string -> bool): set<int>
  {
    set i | 0 <= i < |lines| && keep(lines[i])
  }

  /** `Collect` yields one entry per accepted line, so no accepted line is skipped or merged with another. */
  lemma {:induction false} CollectCount(lines: seq<string>, keep: string -> bool, f: string -> string)
    ensures |Collect(lines, keep, f)| == |Accepted(lines, keep)|
  {
    if lines != [] {
      var n := |lines| - 1;
      CollectCount(lines[..n], keep, f);
      assert forall i :: 0 <= i < n ==> lines[..n][i] == lines[i];
      assert Accepted(lines, keep) == Accepted(lines[..n], keep) + (if keep(lines[n]) then {n} else {});
      assert n !in Accepted(lines[..n], keep);
    }
  }

  /** The names `getParent` reads from `lines`: one per line that mentions `extends`, in line order. */
  function ParentNames(lines: seq<string>): seq<string>
  {
    Collect(lines, MentionsExtends, ParentName)
  }

  /**
   * The parent names are exactly the names read from the lines that mention
   * `extends`, one per such line, and none of them mentions `extends` itself.
   */
  lemma ParentNamesFromLines(lines: seq<string>)
    ensures forall name :: name in ParentNames(lines) <==>
      exists i :: 0 <= i < |lines| && MentionsExtends(lines[i]) && name == ParentName(lines[i])
    ensures |ParentNames(lines)| == |Accepted(lines, MentionsExtends)|
    ensures forall name :: name in ParentNames(lines) ==> !Contains(name, Extends)
  {
    forall name ensures name in ParentNames(lines) <==>
      exists i :: 0 <= i < |lines| && MentionsExtends(lines[i]) && name == ParentName(lines[i])
    {
      CollectMembers(lines, MentionsExtends, ParentName, name);
    }
    CollectCount(lines, MentionsExtends, ParentName);
    forall name | name in ParentNames(lines) ensures !Contains(name, Extends) {
      var i :| 0 <= i < |lines| && MentionsExtends(lines[i]) && name == ParentName(lines[i]);
      ParentNameAfterLastExtends(lines[i]);
    }
  }

  /** `e` is a file the search for one of `names` offers, from a document at `fullPath`. */
  predicate IsCandidate(e: Entry, names: seq<string>, fullPath: string, root: Entry, host: Services)
  {
    FileLocator.Within(e, root) &&
    exists n :: n in names && FileLocator.IsTarget(e, FileLocator.TargetFile(n, fullPath), host)
  }

  /** Looking up one more name adds exactly the entries that search offers. */
  lemma CandidateStep(e: Entry, names: seq<string>, name: string, fullPath: string, root: Entry, host: Services)
    ensures IsCandidate(e, names + [name], fullPath, root, host) <==>
      IsCandidate(e, names, fullPath, root, host) ||
      (FileLocator.Within(e, root) && FileLocator.IsTarget(e, FileLocator.TargetFile(name, fullPath), host))
  {
    if FileLocator.Within(e, root) && FileLocator.IsTarget(e, FileLocator.TargetFile(name, fullPath), host) {
      assert name in names + [name];
    }
    if IsCandidate(e, names + [name], fullPath, root, host) {
      var n :| n in names + [name] && FileLocator.IsTarget(e, FileLocator.TargetFile(n, fullPath), host);
      assert n in names || n == name;
    }
    if IsCandidate(e, names, fullPath, root, host) {
      var n :| n in names && FileLocator.IsTarget(e, FileLocator.TargetFile(n, fullPath), host);
      assert n in names + [name];
    }
  }

  /**
   * `getParent(doc)`: for every line that mentions `extends`, in order, reads
   * the parent name and starts `findFile` for it. Every file those searches
   * offer is a candidate parent; the returned promise settles on the first
   * one to arrive.
   */
  method GetParent(doc: Document, root: Entry, host: Services) returns (names: seq<string>, candidates: set<Entry>)
    requires root.Directory?
    ensures names == ParentNames(doc.lines)
    ensures forall e :: e in candidates <==> IsCandidate(e, names, doc.fullPath, root, host)
  {
    names, candidates := [], {};
    var i := 0;
    while i < |doc.lines|
      invariant 0 <= i <= |doc.lines|
      invariant names == ParentNames(doc.lines[..i])
      invariant forall e :: e in candidates <==> IsCandidate(e, names, doc.fullPath, root, host)
    {
      var line := doc.lines[i];
      assert doc.lines[..i + 1][..i] == doc.lines[..i];
      if MentionsExtends(line) {
        var parentName := Trim(SplitLast(line, Extends));
        var found := FileLocator.FindFile(parentName, doc, root, host);
        forall e ensures e in candidates + found <==> IsCandidate(e, names + [parentName], doc.fullPath, root, host) {
          CandidateStep(e, names, parentName, doc.fullPath, root, host);
        }
        names := names + [parentName];
        candidates := candidates + found;
      }
      i := i + 1;
    }
    assert doc.lines[..i] == doc.lines;
  }
}
