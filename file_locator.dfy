/**
 * The file locator: the name of the file to look for, and the recursive search
 * of the project tree that offers every matching entry to one shared deferred.
 */
module FileLocator {
  import opened Text
  import opened Host

  /** `fullPath.split('.').pop()`: the text after the last dot, or the whole path when it has none. */
  function Extension(fullPath: string): (ext: string)
    ensures !Contains(ext, ".")
    ensures !Contains(fullPath, ".") ==> ext == fullPath
    ensures Contains(fullPath, ".") ==> |ext| < |fullPath| && fullPath == fullPath[..|fullPath| - |ext| - 1] + "." + ext
  {
    SplitLastIsTextAfterLastSeparator(fullPath, ".");
    var ext := SplitLast(fullPath, ".");
    assert Contains(fullPath, ".") ==> fullPath[|fullPath| - |ext| - 1] == '.';
    ext
  }

  /** `name + '.' + ext`: the file searched for, named after the identifier with the current document's extension. */
  function TargetFile(name: string, fullPath: string): (target: string)
    ensures |target| == |name| + 1 + |Extension(fullPath)|
    ensures target[..|name|] == name && target[|name|] == '.'
  {
    name + "." + Extension(fullPath)
  }

  /** The extension of the file searched for is the extension of the document the search starts from. */
  lemma TargetKeepsExtension(name: string, fullPath: string)
    ensures Extension(TargetFile(name, fullPath)) == Extension(fullPath)
  {
    var ext := Extension(fullPath);
    assert name + "." + ext == name + ['.'] + ext;
    SplitLastAfterAppend(name, '.', ext);
  }

  /** The test of main.js:134: the entry's base name compares equal to the target. */
  predicate IsTarget(e: Entry, target: string, host: Services)
  {
    host.compareFilenames(host.baseName(e.fullPath), target) == 0
  }

  /** `e` lies somewhere below directory `root`: an item of it, or below one of its items. */
  predicate Within(e: Entry, root: Entry)
    decreases root
  {
    root.Directory? &&
    exists i :: 0 <= i < |root.contents| && (root.contents[i] == e || Within(e, root.contents[i]))
  }

  /** Every entry below a directory is strictly smaller than it, so no directory lies below itself. */
  lemma {:induction false} WithinIsBelow(e: Entry, root: Entry)
    requires Within(e, root)
    ensures e < root
    decreases root
  {
    var i :| 0 <= i < |root.contents| && (root.contents[i] == e || Within(e, root.contents[i]));
    if root.contents[i] != e {
      WithinIsBelow(e, root.contents[i]);
    }
  }

  /**
   * The entries handed to the deferred by the first `k` items of `dir`'s
   * listing: every directory item is searched first, then every item, file or
   * directory, that matches is offered.
   */
  function Offered(dir: Entry, k: nat, target: string, host: Services): (offered: set<Entry>)
    requires dir.Directory? && k <= |dir.contents|
    ensures forall e :: e in offered ==> IsTarget(e, target, host)
    decreases dir, k
  {
    if k == 0 then {}
    else
      var item := dir.contents[k - 1];
      Offered(dir, k - 1, target, host)
      + (if item.Directory? then Offered(item, |item.contents|, target, host) else {})
      + (if IsTarget(item, target, host) then {item} else {})
  }

  /** What the first `k` items offer is exactly the matching entries among them and below them. */
  lemma {:induction false} OfferedPrefix(dir: Entry, k: nat, target: string, host: Services, e: Entry)
    requires dir.Directory? && k <= |dir.contents|
    ensures e in Offered(dir, k, target, host) <==>
      IsTarget(e, target, host) &&
      exists i :: 0 <= i < k && (dir.contents[i] == e || Within(e, dir.contents[i]))
    decreases dir, k
  {
    if k > 0 {
      var item := dir.contents[k - 1];
      OfferedPrefix(dir, k - 1, target, host, e);
      if item.Directory? {
        OfferedPrefix(item, |item.contents|, target, host, e);
      }
      if IsTarget(e, target, host) && (item == e || Within(e, item)) {
        assert dir.contents[k - 1] == e || Within(e, dir.contents[k - 1]);
      }
    }
  }

  /** A search of `dir` offers exactly the matching entries below it, directories included. */
  lemma OfferedExactly(dir: Entry, target: string, host: Services, e: Entry)
    requires dir.Directory?
    ensures e in Offered(dir, |dir.contents|, target, host) <==> Within(e, dir) && IsTarget(e, target, host)
  {
    OfferedPrefix(dir, |dir.contents|, target, host, e);
  }

  /** The directory a search starts from is never itself offered: only its listing is tested. */
  lemma StartNeverOffered(dir: Entry, target: string, host: Services)
    requires dir.Directory?
    ensures dir !in Offered(dir, |dir.contents|, target, host)
  {
    OfferedExactly(dir, target, host, dir);
    if Within(dir, dir) {
      WithinIsBelow(dir, dir);
    }
  }

  /**
   * `searchDirectory(directory, targetFile, deferred)`: lists `dir`, recurses
   * into every item that can be listed, and offers to the deferred every item
   * whose base name matches. The result is the set of entries offered; the
   * deferred settles on whichever offer arrives first.
   */
  method SearchDirectory(dir: Entry, target: string, host: Services) returns (offered: set<Entry>)
    requires dir.Directory?
    ensures offered == Offered(dir, |dir.contents|, target, host)
    ensures forall e :: e in offered <==> Within(e, dir) && IsTarget(e, target, host)
    decreases dir
  {
    offered := {};
    var i := 0;
    while i < |dir.contents|
      invariant 0 <= i <= |dir.contents|
      invariant offered == Offered(dir, i, target, host)
    {
      var item := dir.contents[i];
      if item.Directory? {
        var below := SearchDirectory(item, target, host);
        offered := offered + below;
      }
      if host.compareFilenames(host.baseName(item.fullPath), target) == 0 {
        offered := offered + {item};
      }
      i := i + 1;
    }
    forall e ensures e in offered <==> Within(e, dir) && IsTarget(e, target, host) {
      OfferedExactly(dir, target, host, e);
    }
  }

  /**
   * `findFile(name, doc)`: searches the project tree from its root for
   * `name + '.' + ext`, `ext` taken from the document's path. The promise
   * resolves with one of the offered entries, or never when none is offered.
   */
  method FindFile(name: string, doc: Document, root: Entry, host: Services) returns (offered: set<Entry>)
    requires root.Directory?
    ensures forall e :: e in offered <==> Within(e, root) && IsTarget(e, TargetFile(name, doc.fullPath), host)
  {
    var ext := SplitLast(doc.fullPath, ".");
    var target := name + "." + ext;
    offered := SearchDirectory(root, target, host);
  }
}
