/**
 * The method locator: a line-by-line textual scan of a document for
 * `'function ' + name`, falling back to the document's parent when the scan
 * comes up empty. `FindMethod` is the lookup as main.js writes it;
 * `ResolveMethod` is the lookup with its two defects corrected.
 */
module MethodLocator {
  import opened Wrappers
  import opened Text
  import opened Host
  import Inheritance
  import FileLocator

  /** The text a declaration line must match. */
  function Pattern(name: string): string
  {
    "function " + name
  }

  /**
   * The index of the last line that matches `pattern`, or `None` (the
   * `undefined` of main.js) when no line does: each later match overwrites
   * the one remembered before it.
   */
  function LastMatch(lines: seq<string>, pattern: string, host: Services): (m: Option<nat>)
    ensures m.Some? ==> m.value < |lines| && host.matches(lines[m.value], pattern)
    ensures m.Some? ==> forall j :: m.value < j < |lines| ==> !host.matches(lines[j], pattern)
    ensures m.None? <==> forall j :: 0 <= j < |lines| ==> !host.matches(lines[j], pattern)
  {
    if lines == [] then None
    else if host.matches(lines[|lines| - 1], pattern) then Some(|lines| - 1)
    else LastMatch(lines[..|lines| - 1], pattern, host)
  }

  /** How the promise that `findMethod` returns settles: with a line of the given document, or never. */
  datatype Outcome = Resolved(line: nat, doc: Document) | Pending

  /** JavaScript truthiness of `matchedLine`: both `undefined` and `0` are falsy. */
  predicate Truthy(matchedLine: Option<nat>)
  {
    matchedLine.Some? && matchedLine.value != 0
  }

  /**
   * The outcome of `findMethod(name, doc)` as written. It resolves only with
   * the last matching line of `doc` itself, and only when that line is not
   * line 0; whatever the parent lookup finds never reaches it.
   */
  function FindMethodOutcome(name: string, doc: Document, host: Services): (o: Outcome)
    ensures o.Resolved? ==> o.doc == doc && 0 < o.line < |doc.lines|
    ensures o.Resolved? ==> host.matches(doc.lines[o.line], Pattern(name))
    ensures o.Resolved? ==> forall j :: o.line < j < |doc.lines| ==> !host.matches(doc.lines[j], Pattern(name))
    ensures o.Pending? <==> forall j :: 0 < j < |doc.lines| ==> !host.matches(doc.lines[j], Pattern(name))
  {
    var matchedLine := LastMatch(doc.lines, Pattern(name), host);
    if Truthy(matchedLine) then Resolved(matchedLine.value, doc) else Pending
  }

  /** A declaration found only on line 0 counts as no declaration: the promise stays pending. */
  lemma FirstLineMatchIgnored(name: string, doc: Document, host: Services)
    requires |doc.lines| > 0 && host.matches(doc.lines[0], Pattern(name))
    requires forall j :: 0 < j < |doc.lines| ==> !host.matches(doc.lines[j], Pattern(name))
    ensures LastMatch(doc.lines, Pattern(name), host) == Some(0)
    ensures FindMethodOutcome(name, doc, host) == Pending
  {
  }

  /** Of two declarations of the same name, the later one is the one found. */
  lemma LaterDeclarationWins(name: string, doc: Document, host: Services, i: nat, j: nat)
    requires i < j < |doc.lines|
    requires host.matches(doc.lines[i], Pattern(name)) && host.matches(doc.lines[j], Pattern(name))
    ensures FindMethodOutcome(name, doc, host).Resolved?
    ensures FindMethodOutcome(name, doc, host).line >= j
  {
  }

  /**
   * `findMethod(name, doc)`: scans the lines, remembering the index of every
   * match; when the remembered index is truthy the promise resolves with it,
   * otherwise `getParent(doc)` starts the parent lookups, whose own nested
   * `findMethod` results are discarded.
   */
  method FindMethod(name: string, doc: Document, root: Entry, host: Services)
    returns (outcome: Outcome, parentNames: seq<string>, parents: set<Entry>)
    requires root.Directory?
    ensures outcome == FindMethodOutcome(name, doc, host)
    ensures outcome.Resolved? ==> parentNames == [] && parents == {}
    ensures outcome.Pending? ==> parentNames == Inheritance.ParentNames(doc.lines)
    ensures outcome.Pending? ==> forall e :: e in parents <==>
      Inheritance.IsCandidate(e, parentNames, doc.fullPath, root, host)
  {
    var lines := doc.lines;
    var matchedLine: Option<nat> := None;
    for index := 0 to |lines|
      invariant matchedLine == LastMatch(lines[..index], "function " + name, host)
    {
      assert lines[..index + 1][..index] == lines[..index];
      if host.matches(lines[index], "function " + name) {
        matchedLine := Some(index);
      }
    }
    assert lines[..|lines|] == lines;
    if matchedLine.Some? && matchedLine.value != 0 {
      outcome, parentNames, parents := Resolved(matchedLine.value, doc), [], {};
    } else {
      outcome := Pending;
      parentNames, parents := Inheritance.GetParent(doc, root, host);
    }
  }

  // ---------------------------------------------------------------------------
  // The corrected lookup: an absent match is told apart from line 0, and a
  // match in an ancestor is handed back to the caller. The chain of parents
  // is followed for at most `fuel` steps, so a cyclic `extends` chain ends.
  // ---------------------------------------------------------------------------

  /** A declaration found: its line and the document holding it. */
  datatype Hit = Hit(line: nat, doc: Document)

  /** `doc` followed by its ancestors, as `parentOf` settles them, for at most `fuel` steps. */
  function Ancestry(doc: Document, parentOf: Document -> Option<Document>, fuel: nat): (chain: seq<Document>)
    ensures 1 <= |chain| <= fuel + 1 && chain[0] == doc
    decreases fuel
  {
    if fuel == 0 then [doc]
    else match parentOf(doc)
      case None => [doc]
      case Some(parent) => [doc] + Ancestry(parent, parentOf, fuel - 1)
  }

  /** The method lookup with both defects corrected. */
  function ResolveMethod(name: string, doc: Document, parentOf: Document -> Option<Document>, host: Services, fuel: nat): (r: Option<Hit>)
    ensures r.Some? ==> LastMatch(r.value.doc.lines, Pattern(name), host) == Some(r.value.line)
    ensures LastMatch(doc.lines, Pattern(name), host).Some? ==> r.Some? && r.value.doc == doc
    decreases fuel
  {
    match LastMatch(doc.lines, Pattern(name), host)
    case Some(k) => Some(Hit(k, doc))
    case None =>
      if fuel == 0 then None
      else match parentOf(doc)
        case None => None
        case Some(parent) => ResolveMethod(name, parent, parentOf, host, fuel - 1)
  }

  /** A document of the chain that declares the method. */
  predicate Declares(d: Document, name: string, host: Services)
  {
    LastMatch(d.lines, Pattern(name), host).Some?
  }

  /** `chain[i]` is the first document of `chain` that declares the method. */
  predicate FirstDeclarer(chain: seq<Document>, i: int, name: string, host: Services)
  {
    0 <= i < |chain| && Declares(chain[i], name, host)
    && forall j :: 0 <= j < i ==> !Declares(chain[j], name, host)
  }

  /**
   * What the corrected lookup finds is the last declaring line of the first
   * document along the chain that declares the method.
   */
  lemma {:induction false} ResolveMethodSound(name: string, doc: Document, parentOf: Document -> Option<Document>, host: Services, fuel: nat)
    requires ResolveMethod(name, doc, parentOf, host, fuel).Some?
    ensures var hit := ResolveMethod(name, doc, parentOf, host, fuel).value;
      LastMatch(hit.doc.lines, Pattern(name), host) == Some(hit.line)
    ensures var hit := ResolveMethod(name, doc, parentOf, host, fuel).value;
      exists i :: FirstDeclarer(Ancestry(doc, parentOf, fuel), i, name, host) && Ancestry(doc, parentOf, fuel)[i] == hit.doc
    decreases fuel
  {
    var chain := Ancestry(doc, parentOf, fuel);
    var hit := ResolveMethod(name, doc, parentOf, host, fuel).value;
    if !Declares(doc, name, host) {
      var parent := parentOf(doc).value;
      ResolveMethodSound(name, parent, parentOf, host, fuel - 1);
      var rest := Ancestry(parent, parentOf, fuel - 1);
      assert chain == [doc] + rest;
      var i :| FirstDeclarer(rest, i, name, host) && rest[i] == hit.doc;
      assert FirstDeclarer(chain, i + 1, name, host) by {
        assert forall j :: 1 <= j < i + 1 ==> chain[j] == rest[j - 1];
      }
      assert chain[i + 1] == hit.doc;
    } else {
      assert hit.doc == doc;
      assert FirstDeclarer(chain, 0, name, host);
    }
  }

  /**
   * The corrected lookup finds nothing exactly when no document along the
   * chain declares the method; a declaration on line 0 is found like any other.
   */
  lemma {:induction false} ResolveMethodComplete(name: string, doc: Document, parentOf: Document -> Option<Document>, host: Services, fuel: nat)
    ensures ResolveMethod(name, doc, parentOf, host, fuel).None? <==>
      forall d :: d in Ancestry(doc, parentOf, fuel) ==> !Declares(d, name, host)
    decreases fuel
  {
    if !Declares(doc, name, host) && fuel > 0 && parentOf(doc).Some? {
      var parent := parentOf(doc).value;
      ResolveMethodComplete(name, parent, parentOf, host, fuel - 1);
      assert Ancestry(doc, parentOf, fuel) == [doc] + Ancestry(parent, parentOf, fuel - 1);
    }
  }

  /** A host whose `match` is a literal substring test and whose file names compare by equality. */
  function LiteralHost(): Services
  {
    Services((line, pattern) => Contains(line, pattern), path => path, (a, b) => if a == b then 0 else 1)
  }

  /** A document declaring `foo` on its first line: the lookup as written misses it, the corrected one finds it. */
  lemma FirstLineDeclarationIgnored()
    ensures var doc := Document("a.js", ["function foo() {}"]);
      FindMethodOutcome("foo", doc, LiteralHost()) == Pending
      && ResolveMethod("foo", doc, d => None, LiteralHost(), 0) == Some(Hit(0, doc))
  {
    var doc := Document("a.js", ["function foo() {}"]);
    assert OccursAt("function foo() {}", Pattern("foo"), 0);
    assert LastMatch(doc.lines, Pattern("foo"), LiteralHost()) == Some(0);
  }

  /**
   * `parentOf` hands each document a parent only when that parent's file is
   * one `getParent` offers for it: an entry below `root` named after one of
   * the document's `extends` names.
   */
  ghost predicate ParentsFromExtends(parentOf: Document -> Option<Document>, root: Entry, host: Services)
  {
    forall d :: parentOf(d).Some? ==>
      exists e :: Inheritance.IsCandidate(e, Inheritance.ParentNames(d.lines), d.fullPath, root, host)
        && e.fullPath == parentOf(d).value.fullPath
  }

  /** The line `class B extends a` declares no `foo`. */
  lemma ChildDeclaresNothing(line: string)
    requires line == "class B extends a"
    ensures !Contains(line, Pattern("foo"))
  {
    forall i | 0 <= i <= |line| - |Pattern("foo")| ensures !OccursAt(line, Pattern("foo"), i) {
      assert line[i..i + |Pattern("foo")|][0] == line[i] != 'f';
    }
  }

  /** The parent name read from `class B extends a` is `a`: its only `extends` starts at index 8. */
  lemma ChildParentName(line: string)
    requires line == "class B extends a"
    ensures Inheritance.MentionsExtends(line)
    ensures Inheritance.ParentName(line) == "a"
  {
    forall i | 0 <= i < 8 ensures !OccursAt(line, Inheritance.Extends, i) {
      assert line[i..i + 7][0] == line[i];
      assert line[i..i + 7][1] == line[i + 1];
    }
    assert OccursAt(line, Inheritance.Extends, 8);
    assert FindFrom(line, Inheritance.Extends, 0) == Some(8);
    assert LastPieceStart(line, Inheritance.Extends, 15) == 15;
    assert LastPieceStart(line, Inheritance.Extends, 0) == 15;
    assert SplitLast(line, Inheritance.Extends) == " a";
    assert SkipLeading(" a", 0) == 1;
  }

  /** Searching for `a` from `b.js` looks for `a.js`. */
  lemma TargetFromB()
    ensures FileLocator.TargetFile("a", "b.js") == "a.js"
  {
    assert "js"[0..1][0] == 'j' && "js"[1..2][0] == 's';
    assert !Contains("js", ".");
    SplitLastAfterAppend("b", '.', "js");
    assert "b" + ['.'] + "js" == "b.js";
  }

  /** `a.js`, found below the root, is a candidate parent of `b.js` named `a`. */
  lemma ParentFileOffered(root: Entry)
    requires root == Directory("/", [File("a.js")])
    ensures Inheritance.IsCandidate(File("a.js"), ["a"], "b.js", root, LiteralHost())
  {
    TargetFromB();
    assert root.contents[0] == File("a.js");
    assert "a" in ["a"];
  }

  /** The parent declares `foo` on line 1 only. */
  lemma ParentDeclaresOnLine1(lines: seq<string>)
    requires lines == ["var a;", "function foo() {}"]
    ensures LastMatch(lines, Pattern("foo"), LiteralHost()) == Some(1)
  {
    assert OccursAt(lines[1], Pattern("foo"), 0);
  }

  /**
   * A child `class B extends a` that does not declare `foo`, in a project
   * holding `a.js`, which declares `foo` on line 1. The lookup as written
   * finds no line in the child and starts the parent lookup, which offers
   * `a.js`; its own promise stays pending all the same. The corrected lookup,
   * following that parent, resolves with the parent's line 1.
   */
  lemma NestedResultDropped()
    ensures var child := Document("b.js", ["class B extends a"]);
      var parent := Document("a.js", ["var a;", "function foo() {}"]);
      var root := Directory("/", [File("a.js")]);
      var parentOf := (d: Document) => if d == child then Some(parent) else None;
      FindMethodOutcome("foo", child, LiteralHost()) == Pending
      && Inheritance.ParentNames(child.lines) == ["a"]
      && Inheritance.IsCandidate(File("a.js"), ["a"], child.fullPath, root, LiteralHost())
      && ParentsFromExtends(parentOf, root, LiteralHost())
      && ResolveMethod("foo", child, parentOf, LiteralHost(), 1) == Some(Hit(1, parent))
  {
    var line := "class B extends a";
    var child := Document("b.js", [line]);
    var parent := Document("a.js", ["var a;", "function foo() {}"]);
    var root := Directory("/", [File("a.js")]);
    var parentOf := (d: Document) => if d == child then Some(parent) else None;
    ChildDeclaresNothing(line);
    ChildParentName(line);
    assert Inheritance.ParentNames(child.lines) == ["a"] by {
      assert child.lines[..0] == [];
    }
    ParentFileOffered(root);
    forall d | parentOf(d).Some?
      ensures exists e :: (Inheritance.IsCandidate(e, Inheritance.ParentNames(d.lines), d.fullPath, root, LiteralHost())
        && e.fullPath == parentOf(d).value.fullPath)
    {
      assert d == child;
    }
    ParentDeclaresOnLine1(parent.lines);
  }
}
