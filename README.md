# brackets-codeintel: navigation rules, modelled in Dafny

The Brackets extension `brackets-codeintel` adds one command, "Codeintel". The
command reads the identifier under the cursor and looks at the character just
in front of the selection:

- After `.` or `>` the identifier is taken to be a method. The command scans
  the current document for the last line that matches `'function ' + name`.
  When no line past line 0 matches, it searches for the document's parent
  class. The parent's name is the whole rest of a line after its last
  `extends`, with surrounding whitespace trimmed. On `class Foo extends Bar {`
  that is `Bar {`, so from a `.js` document the file looked for is `Bar {.js`.
- After any other character the identifier is taken to be a file. The command
  searches the project tree for `name + '.' + ext`, where `ext` is the text
  after the last `.` of the document's full path, or the whole path when it
  has none.

This project models those rules, all from `main.js`, and proves what they
compute:

| file | module | models |
|---|---|---|
| `text.dfy` | `Wrappers`, `Text` | `undefined`/`null` as `Option`; literal `match`, `split(sep).pop()` and `trim()` on strings |
| `host.dfy` | `Host` | the editor's documents and project tree, and the host library routines, passed in as parameters |
| `selection.dfy` | `Editing` | `getSelection` |
| `file_locator.dfy` | `FileLocator` | `findFile`, `searchDirectory` |
| `inheritance.dfy` | `Inheritance` | `getParent` |
| `method_locator.dfy` | `MethodLocator` | `findMethod` as written, and a corrected lookup |
| `code_intel.dfy` | `CodeIntel` | `handleCodeIntel` |

How the model treats the host and JavaScript:

- **Host services are parameters.** The editor (`Editing.Editor`) is a value.
  It carries the selection, the selected text and the text of the word at a
  position, plus a range reader. The host library routines are fields of
  `Host.Services`: `line.match(pattern)`, `FileUtils.getBaseName` and
  `FileUtils.compareFilenames`. The project tree is an inductive `Host.Entry`.
- **Line scans keep their loops.** The scans in `findMethod` and `getParent`
  update their state line by line, so they are methods with loops. Each loop
  is proved against a function that specifies it. The same holds for the
  recursive traversal in `searchDirectory`.
- **Deferreds are sets of offers.** Which offer settles a jQuery deferred
  first depends on the order of asynchronous callbacks. Each lookup therefore
  returns the set of values offered to its deferred, and the proofs say
  exactly what that set is.
- **JavaScript semantics are written out.**
  - A truthiness test treats both `undefined` and `0` as false.
  - `split(sep).pop()` scans left to right for non-overlapping separators.
  - `trim()` removes the ECMAScript white-space and line-terminator
    characters.
  - Reading `sel.prefix` when `sel` is `null` throws, so no lookup starts.

## Model

| member | source | states |
|---|---|---|
| `Editing.GetSelection` | main.js:48-62 | The result is null exactly when the selection's start and end lines differ. Otherwise the text is the selected text, or the word at the start when nothing is selected. The prefix is the range from one column before the selection start up to that start. |
| `Editing.PrefixIgnoresWordExpansion` | main.js:54-60 | The prefix does not depend on the selected text or on the word the selection is widened to; it depends only on the original start. |
| `Editing.PrefixIsCharBeforeStart` | main.js:60 | With a range reader that is faithful on the line, and a start past column 0, the prefix is exactly the one character in front of the selection start. |
| `CodeIntel.Dispatch` | main.js:176-186 | A null selection starts no lookup. A prefix of `.` or `>` starts only the method lookup; any other prefix starts only the file lookup. Either lookup gets the selected text. |
| `CodeIntel.DispatchOnCharBeforeSelection` | main.js:174-186 | The method lookup starts exactly when the character in front of the selection is `.` or `>`; the file lookup starts exactly when it is any other character. |
| `CodeIntel.HandleCodeIntel` | main.js:170-187 | No lookup starts for a multi-line selection. A method lookup starts iff `Dispatch` chooses one, and settles as `findMethod` does. When it resolves, no parent lookup starts. When it stays pending, the parent names are those `getParent` reads from the document, and the candidate parents are exactly the entries offered for them. A file lookup starts iff `Dispatch` chooses one, and offers exactly the matching entries below the root. |
| `MethodLocator.LastMatch` | main.js:69-75 | The remembered index is the last line that matches; no later line matches. It is undefined exactly when no line matches. |
| `MethodLocator.LaterDeclarationWins` | main.js:71-75 | Of two matching lines, the later one is never overwritten by the earlier: the index found is at least the later one. |
| `MethodLocator.FindMethodOutcome` | main.js:77-87 | The promise resolves only with a line of the document itself. That line is past line 0, matches, and is followed by no other match. The promise stays pending exactly when no line past line 0 matches. |
| `MethodLocator.FirstLineMatchIgnored` | main.js:77-85 | When the only match is on line 0, the remembered index is 0 and the promise stays pending, exactly as if nothing matched. |
| `MethodLocator.FindMethod` | main.js:65-88 | The scan settles as `FindMethodOutcome` says. When it resolves, no parent lookup starts. When it does not, the parent names are those `getParent` reads, and the candidate parents are exactly the entries offered for them. |
| `MethodLocator.FirstLineDeclarationIgnored` | main.js:77 | On a document whose only line declares `foo`, the lookup as written stays pending, while the corrected lookup finds line 0. |
| `MethodLocator.Truthy` | main.js:77 | The truthiness test of `if(matchedLine)`: the remembered index counts as found when it is defined and not `0`. |
| `MethodLocator.NestedResultDropped` | main.js:81-84 | A child `class B extends a` lacks `foo`, and the project holds `a.js`, which declares `foo` on line 1. The lookup as written stays pending even though its parent lookup reads the name `a` and offers `a.js`. The corrected lookup, given a parent function tied to those offers, resolves with the parent's line 1. |
| `MethodLocator.ResolveMethod` | main.js:65-88 | The corrected lookup. A hit is the last matching line of the document it names. When the document itself declares the method, even on line 0, the hit is in that document. |
| `MethodLocator.ResolveMethodSound` | main.js:77-85 | A hit from the corrected lookup is the last declaring line of the first document along the parent chain that declares the method. |
| `MethodLocator.ResolveMethodComplete` | main.js:77-85 | The corrected lookup finds nothing exactly when no document along the parent chain declares the method; a declaration on line 0 counts. |
| `Text.Contains` | main.js:96 | The literal `match` holds exactly when a left-to-right scan finds an occurrence of the pattern. |
| `Text.SplitLast` | main.js:97 | `split(sep).pop()` is a suffix of the string, no longer than it. |
| `Text.SplitLastIsTextAfterLastSeparator` | main.js:97 | `split(sep).pop()` holds no separator. It is the whole string when the separator does not occur. Otherwise it directly follows an occurrence of the separator. |
| `Text.Trim` | main.js:97 | `trim()` keeps a contiguous part of the string and removes only whitespace before and after it. The result neither starts nor ends with whitespace. |
| `Inheritance.ParentName` | main.js:97 | The name read from a line holds no `extends`, and neither starts nor ends with whitespace. |
| `Inheritance.ParentNameAfterLastExtends` | main.js:96-97 | On a line that mentions `extends`, the name is read from the text after an occurrence of `extends`; that text holds no further `extends`. The name is that text with only surrounding whitespace removed, holds no `extends`, and neither starts nor ends with whitespace. |
| `Inheritance.ParentNamesFromLines` | main.js:95-99 | The names read are exactly the parent names of the lines that mention `extends`, one per such line; none of them mentions `extends`. |
| `Inheritance.GetParent` | main.js:90-110 | One name per line that mentions `extends`, in line order, each starting a file search. The candidate parents are exactly the entries those searches offer. |
| `FileLocator.Extension` | main.js:117 | `fullPath.split('.').pop()` holds no dot. It is the whole path when the path has no dot. Otherwise the path is what comes before the last dot, then the dot, then the extension. |
| `FileLocator.TargetFile` | main.js:118 | The target is the name, then a dot, then the extension. |
| `FileLocator.TargetKeepsExtension` | main.js:117-118 | The target file has the same extension as the document the search starts from. |
| `FileLocator.IsTarget` | main.js:134 | An entry matches when the host compares its base name equal to the target. The test looks only at the path, so directories can match as well as files. |
| `FileLocator.Offered` | main.js:128-137 | What the first `k` items of a listing offer: every entry offered matches the target. |
| `FileLocator.OfferedExactly` | main.js:128-137 | A search of a directory offers exactly the matching entries at any depth below it. |
| `FileLocator.StartNeverOffered` | main.js:128-137 | The directory a search starts from is never offered itself. |
| `FileLocator.SearchDirectory` | main.js:126-141 | The search recurses into every listable item and offers every item whose base name compares equal to the target. The set offered is exactly the matching entries below the directory, directories included. |
| `FileLocator.FindFile` | main.js:112-123 | The search runs from the project root for `name + '.' + ext` and offers exactly the matching entries below the root. |

## Left out

- Command registration, key bindings and the menu item (main.js:191-201): host API calls with no logic of their own.
- `openFile` and `selectLineInDoc` (main.js:143-168): they only issue host commands and log. `selectLineInDoc` also reads an undefined `editor` at main.js:166.
- Timing of jQuery deferreds and of the asynchronous `getContents` callbacks. Which offer settles a deferred first is a race, so each lookup is modelled by the set of values offered to its deferred, not by the one value that wins.
- `DocumentManager.getDocumentForPath` (main.js:101-103): a parent candidate is modelled as the project entry that was found, not as the document opened from it.
- `StringUtils.getLines`, `FileUtils.getBaseName`, `FileUtils.compareFilenames` and `document.getRange` are host library routines. The model takes them as parameters: a document is already split into lines, and `getRange` at column -1 (a selection at column 0) is whatever the host returns.
- The regular-expression semantics of `String.prototype.match` (main.js:72, 96). The method-declaration test is the abstract `matches` parameter. The `extends` test is a literal substring test, since `extends` holds no metacharacter.
- `MethodLocator.FindMethod`: the nested `findMethod` on the parent (main.js:83) is not modelled beyond the candidate parents it would be started with. Its result is discarded (see Findings), and repeating it on a cyclic `extends` chain never ends. The corrected `ResolveMethod` follows the parent chain for at most `fuel` steps.
- `Editing.GetSelection`: `editor.selectWordAt(sel.start)` (main.js:57) moves the editor's selection to the word, and that change outlives the command. The model only reads the word through `wordAt`; the editor value is never changed, so the widened selection left behind in the editor is not captured.
- Strings are sequences of characters, not of UTF-16 code units, so surrogate pairs in paths and lines are out of scope.
- The file search compares the host's base name of each entry, extension included, with `name + '.' + ext` (main.js:134), and it tests directories as well as files. The model follows that comparison as written.

## Findings

| source | as written | input that shows it | evidently intended | confidence | as-written member | corrected member |
|---|---|---|---|---|---|---|
| main.js:77 | `if(matchedLine)` is false both for no match and for a match on line 0 | a document whose only line is `function foo() {}`, looking up `foo` | a declaration on line 0 is found like any other | not executed | `MethodLocator.FirstLineDeclarationIgnored` | `MethodLocator.ResolveMethodComplete` |
| main.js:81-84 | the parent's `findMethod` promise is dropped, and the caller's deferred is never resolved | child `b.js` with the single line `class B extends a`, in a project holding `a.js` with lines `var a;` and `function foo() {}`, looking up `foo` | the caller's promise resolves with the parent's line 1 | not executed | `MethodLocator.NestedResultDropped` | `MethodLocator.ResolveMethodSound` |
