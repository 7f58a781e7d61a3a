# Verified models of MLKit's C containers and of the editor and support code it ships

A Dafny project that models the data structures and algorithms of the MLKit source tree that have a hard
invariant and a simple meaning, and proves that the first implies the second. Each component has two parts: the
code, in its own form (classes with fields and arrays, loops with invariants, recursive functions), and what it
stands for (a finite map, a multiset, a sequence of lines, a stack of texts, a style for each character, a level
for each character, the list of registrations of a Deferred). The theorems connect the two for every input and
every run.

`dafny verify dfyconfig.toml` checks the project.

## What is modelled

**Hash tables** (`mlkit-src/src/CUtils/hashmap.c`, `polyhashmap.c`). `Probing` has the reasoning about a circular
probe sequence: a table is sound when every used slot is reached from its home over used slots only (`ProbeInv`).
`HashMap.HashTable` is the table with its arrays, loops, load thresholds and failing allocations; `HashRuns` runs any
sequence of calls against a finite map keyed modulo `equal`. `PolyHashMap.PolyTable` is the table that caches hash
values; `PolyRuns` runs both tables side by side. `CachedErase` is about the erase of the second table, which
compares an unreduced hash with a slot number.

**Binary heap** (`mlkit-src/src/CUtils/binaryheap.c`). `HeapOrder` has the order at single edges and what sinking and
rising do to it; `BinaryHeap.Heap` the array with its resizing and its position call-backs (`reported` is what the
call-backs have told); `HeapRuns` any sequence of calls against a multiset, and draining.

**Editor document** (`mlkit-src/js/codemirror/codemirror.js`). `LineTree` and `LineIndex` are the B-tree of lines
against the sequence of its lines, and `LineLinks` is the same tree with the identities of its nodes and the parent
links between them, as the code sets them; `Text` is the algebra of positions, cutting and gluing; `Document.Doc` is the
document with the five-case splice; `History` and `Session` are the undo history over it, and `SessionRuns` any
sequence of edits, undos, redos and clean marks against a stack of texts. `Selection` is how selections follow a
change and are normalised; `ViewCache` the cache of line views; `Highlight`, `Overlays` and `StyleLookup` the style
segments of a line; `SmlMode` the SML mode (`mlkit-src/js/codemirror/sml.js`) that drives them, and `SmlGrammar` the
grammars that its strings and comments are measured against. `BidiTypes`, `BidiRules` and `Bidi` are the bidirectional
ordering; `BidiLevels` has laws about the level of each character in terms of the types of the characters alone, and
`BidiLaws` the proof that the rules keep them.

**Deferred** (`mlkit-src/js/doc/jquery-1.9.1.js`). `Deferred` is the state machine of three callback lists whose
callbacks may call back in at any time: a run is any sequence of calls and returns, with the fire loops that are
waiting on a stack. `DeferredNotes` makes, from the calls alone, the schedule of which notification each progress
callback hears, and shows that every run keeps to it. `DeferredObjects` is the code, as objects, proved to take these
steps.

## Where the code does not do what it means to

Each of these is kept as the code has it, with a lemma that shows it on a concrete input and the exact condition
under which the code is right, or does what one would expect. The last one is code that has no effect.

- The erase of `polyhashmap.c` (lines 102-105) compares the stored hash, not reduced modulo the table size, with slot
  numbers. Every entry stays reachable if and only if the scan is harmless (`CachedErase.ErasesCorrectlyIff`), or the
  table is rehashed right after (`PolyHashMap.PolyTable.Erase`). `CachedErase.EraseCanLoseAnEntry` loses an entry of
  a table of two.
- `heapdelete` (`binaryheap.c` lines 152-161) only sinks the element it moves. The heap stays ordered if and only if
  `DeleteKeepsOrder`: the moved element sinks, or is not less than the parent of its new place
  (`BinaryHeap.Heap.Delete`). `HeapRuns.DeleteCanBreakOrder` deletes from a heap of six and leaves no heap.
- `heapextractmin` (`binaryheap.c` lines 123-133) does not report the position of an element that becomes the root and
  stays there. Positions stay known if and only if nothing is left or the new root sinks
  (`BinaryHeap.Heap.ExtractMin`). `HeapRuns.ExtractCanForgetToReport` extracts from a heap of two and leaves
  a wrong position.
- Rule W5 in `codemirror.js` (line 7560) looks for the type `!`, where the number type is `1`. It agrees with the rule of
  UAX #9 if and only if no run of terminators has a European number before it and none after it
  (`Bidi.W5AsWrittenIff`). `Bidi.PercentSignAfterNumber` is a line of three characters that is ordered differently.
- `addSelectionToHistory` (`codemirror.js` lines 6761-6781) overwrites the top of the history when it merges; after a
  redo in the same operation that top is a change. The history stays sound if and only if that is not so
  (`Session.Session.AddSelection`); `SessionRuns.SelectionAfterRedoLosesEvent` makes a change that can no longer be undone.
- `getTokenTypeAt` (`codemirror.js` lines 3968-3982) cuts a style at the first `cm-overlay `. Under an opaque overlay
  it answers null. Elsewhere it gives back the mode's own style if and only if the mode gave none; or a transparent
  overlay paints there and the style, followed by a blank, does not contain those characters; or none paints there and
  the style does not contain them (`StyleLookup.TokenTypeAt`). `StyleLookup.MarkerAsOwnStyle` is a style that is lost.
- `bidiOrdering` gives no order to a line without Hebrew and Arabic, as if it were left-to-right altogether. By its own
  rules it is so if and only if nothing neutral stands between two boundary neutrals (`BidiLaws.AllLeftIff`,
  `Bidi.BidiOrdering`). `Bidi.BlankBetweenBoundaries` is a blank between two control characters.
- Inside a comment, `tokenComment` (`sml.js` lines 211-222) takes the star of an opening for the star of a closing as
  well, so that an opening directly followed by `)` closes itself, though one that starts a comment does not. The depth
  is the one of a reading in which every opening counts if and only if no such opening was read
  (`SmlGrammar.ReadingsAgreeIff`). `SmlGrammar.NestedOpeningClosesItself` is a line that is read differently.
- A progress callback registered with a Deferred hears the last notification and all later ones if and only if no
  notification was waiting at that moment; otherwise it starts with the one that was being delivered
  (`DeferredNotes.RegisteredHears`, `DeferredNotes.HearsLastIffNoneWaits`). `DeferredNotes.RegisteredWhileOneWaits`
  is one registered inside a callback that has already notified again.
- The trimming of leading and trailing white space in `bidiOrdering` (lines 7618-7625) never does anything: such white
  space has always been resolved to L before (`Bidi.Resolve`, `Bidi.BidiOrdering`).

## Model

| member | source | states |
|---|---|---|
| Probing.OpenHole | mlkit-src/src/CUtils/hashmap.c:90-105 | freeing a slot of a sound table leaves a table that is sound but for the hole |
| Probing.HomeAfterHole | mlkit-src/src/CUtils/hashmap.c:93-97 | the three-way comparison of the erase loop holds exactly when the home lies cyclically after the hole and up to the entry |
| Probing.SkipEntry | mlkit-src/src/CUtils/hashmap.c:92-103 | an entry whose home lies after the hole may stay: the table is still sound but for the hole |
| Probing.MoveEntry | mlkit-src/src/CUtils/hashmap.c:92-103 | an entry that reaches back over the hole is moved into it, and its slot is then the one hole, wraparound included |
| Probing.CloseHole | mlkit-src/src/CUtils/hashmap.c:92-109 | at the first free slot the scan may stop: every entry is reached from its home again |
| Probing.MoveKeepsEntries | mlkit-src/src/CUtils/hashmap.c:98-101 | moving an entry keeps the finite map, the absence of duplicates and the count |
| Probing.FreeKeepsOthers | mlkit-src/src/CUtils/hashmap.c:90-105 | freeing the slot of a key removes that key from the map and nothing else |
| Probing.ProbeMisses | mlkit-src/src/CUtils/hashmap.c:55-72 | a probe that ends at a free slot means that no equal key is in the map |
| Probing.OnlyMatch | mlkit-src/src/CUtils/hashmap.c:55-72 | a slot with an equal key holds the map's only entry for that class of keys |
| Probing.FillSlot | mlkit-src/src/CUtils/hashmap.c:111-168 | storing at the free slot where the probe ended keeps the table sound and puts exactly that entry into the map |
| Probing.OverwriteSlot | mlkit-src/src/CUtils/hashmap.c:111-143 | overwriting the slot of an equal key keeps the table sound and replaces exactly that entry |
| Probing.CountIsCardinality | mlkit-src/src/CUtils/hashmap.c:18-46 | the number of used slots is the cardinality of the map |
| Probing.ThresholdIsLoad | mlkit-src/src/CUtils/hashmap.c:178-197 | the threshold that is computed without large products is 800/1024 of the size, rounded down |
| Probing.TargetSizeIsSafe | mlkit-src/src/CUtils/hashmap.c:178-197 | over all sizes 13*2^k - 3: the size rehash goes to is of that form, and the used slots stay under its threshold, which is under the size |
| Probing.EntriesEnumerate | mlkit-src/src/CUtils/hashmap.c:291-322 | the used slots of a sound table list each entry of the map exactly once |
| HashMap.HashTable.Init | mlkit-src/src/CUtils/hashmap.c:6-16 | an empty table for the given functions, or OUTOFMEM and no table |
| HashMap.HashTable.Cardinality | mlkit-src/src/CUtils/hashmap.c:18-46 | hashTableUsed is the cardinality of the map, and the map has one key for each class of equal keys |
| HashMap.HashTable.Reinit | mlkit-src/src/CUtils/hashmap.c:18-46 | an empty table of the smallest size, or OUTOFMEM and no table |
| HashMap.HashTable.Find | mlkit-src/src/CUtils/hashmap.c:55-72 | terminates, and answers OK with the value of the equal key in the map, or DNE when there is none |
| HashMap.HashTable.Update | mlkit-src/src/CUtils/hashmap.c:111-143 | puts the entry into the map; fails exactly when a new size is due and cannot be allocated, and then changes nothing |
| HashMap.HashTable.Insert | mlkit-src/src/CUtils/hashmap.c:145-168 | as update, but refuses exactly the keys that are present, with the map unchanged |
| HashMap.HashTable.Fold | mlkit-src/src/CUtils/hashmap.c:291-322 | folds over a listing of the map that has each entry exactly once |
| HashMap.HashTable.Rehash | mlkit-src/src/CUtils/hashmap.c:170-224 | keeps the map; goes to the target size and under its threshold, or fails leaving the table as it was |
| HashMap.HashTable.CopyAll | mlkit-src/src/CUtils/hashmap.c:201-219 | copying every used slot to the new table gives the same map |
| HashMap.HashTable.Erase | mlkit-src/src/CUtils/hashmap.c:74-109 | removes exactly the given key and keeps the table sound; DNE exactly when no equal key is present |
| HashMap.HashTable.CloseGap | mlkit-src/src/CUtils/hashmap.c:90-106 | the hole-moving loop terminates in a sound table without the key and with every other entry |
| HashRuns.Run | mlkit-src/src/CUtils/hashmap.c:18-168 | every run of find, insert, update, erase and reinit answers as a finite map keyed modulo equal does; a store fails exactly when another table size is due and cannot be allocated, and all sizes are said |
| HashRuns.FindReturnsLastStored | mlkit-src/src/CUtils/hashmap.c:55-168 | in every run, find returns the value stored last under an equal key |
| HashRuns.FindMissesRemoved | mlkit-src/src/CUtils/hashmap.c:55-109 | in every run, find returns DNE when the key was never stored since it was erased or the table was made |
| HashRuns.Untouched | mlkit-src/src/CUtils/hashmap.c:18-168 | in every run, calls for other keys leave what is held under a key as it is |
| CachedErase.ErasesCorrectlyIff | mlkit-src/src/CUtils/polyhashmap.c:81-118 | the erase scan with unreduced hashes leaves every entry reachable if and only if it passes over no entry it should have moved, unless it moves a later one |
| CachedErase.HarmfulShift | mlkit-src/src/CUtils/polyhashmap.c:99-114 | a scan that is not harmless leaves some entry cut off from its home |
| CachedErase.HarmlessShift | mlkit-src/src/CUtils/polyhashmap.c:99-114 | a harmless scan leaves every entry reachable |
| CachedErase.ShiftKeepsEntries | mlkit-src/src/CUtils/polyhashmap.c:99-114 | harmless or not, the scan keeps the entries in the slots |
| CachedErase.SmallHashesAreHarmless | mlkit-src/src/CUtils/polyhashmap.c:99-114 | when all hashes are below the table size, every erase is harmless |
| CachedErase.EraseCanLoseAnEntry | mlkit-src/src/CUtils/polyhashmap.c:102-105 | a sound table of two entries in which erasing one cuts the other off |
| PolyHashMap.CachedTest | mlkit-src/src/CUtils/polyhashmap.c:62-80 | when the cached hash is right, comparing hashes first finds the same keys as the equality alone |
| PolyHashMap.PolyTable.Find | mlkit-src/src/CUtils/polyhashmap.c:62-80 | as the plain find, and the cached hashes are right in every valid table |
| PolyHashMap.PolyTable.Insert | mlkit-src/src/CUtils/polyhashmap.c:153-178 | as the plain insert, keeping every cached hash equal to the hash of its key |
| PolyHashMap.PolyTable.Update | mlkit-src/src/CUtils/polyhashmap.c:119-152 | as the plain update, keeping every cached hash equal to the hash of its key |
| PolyHashMap.PolyTable.Rehash | mlkit-src/src/CUtils/polyhashmap.c:179-231 | rehashing from the cached hashes keeps the map, and makes a table sound whose probing was broken |
| PolyHashMap.PolyTable.Erase | mlkit-src/src/CUtils/polyhashmap.c:81-118 | removes exactly the given key from the slots; afterwards the table is sound if and only if the scan was harmless or the table was rehashed |
| PolyRuns.SideBySide | mlkit-src/src/CUtils/polyhashmap.c:62-231 | in every run of insert, update, find and reinit the table with cached hashes answers as the plain one does |
| HeapOrder.SinkStep | mlkit-src/src/CUtils/binaryheap.c:86-112 | exchanging with the smallest child moves the one violation down and repairs the edge above |
| HeapOrder.SinkDone | mlkit-src/src/CUtils/binaryheap.c:86-112 | an element that does not sink leaves a heap in order but for the edge above it |
| HeapOrder.RiseStep | mlkit-src/src/CUtils/binaryheap.c:143-148 | exchanging with the parent moves the one violation up |
| HeapOrder.RootIsLeast | mlkit-src/src/CUtils/binaryheap.c:114-121 | nothing in an ordered heap is less than its root |
| HeapOrder.SwapTracks | mlkit-src/src/CUtils/binaryheap.c:71-83 | after an exchange with both positions reported, the reported positions are right again |
| BinaryHeap.Heap.Resize | mlkit-src/src/CUtils/binaryheap.c:13-46 | grows and shrinks without losing a live slot, keeping size below maxsize, or fails leaving the heap as it was |
| BinaryHeap.Heap.Exchange | mlkit-src/src/CUtils/binaryheap.c:71-83 | exchanges two elements and reports both positions |
| BinaryHeap.Heap.Heapify | mlkit-src/src/CUtils/binaryheap.c:86-112 | sinks one element: the multiset stays, the order is restored where it can be, every moved element is reported |
| BinaryHeap.Heap.Minimal | mlkit-src/src/CUtils/binaryheap.c:114-121 | answers a least element, or UNDERFLOW |
| BinaryHeap.Heap.ExtractMin | mlkit-src/src/CUtils/binaryheap.c:123-133 | takes out a least element and keeps the order; positions stay known if and only if nothing is left or the new root sinks |
| BinaryHeap.Heap.ChangeKey | mlkit-src/src/CUtils/binaryheap.c:135-150 | for any new key, smaller or larger: the order is restored, only the re-keyed element changes, every position is reported |
| BinaryHeap.Heap.SinkThenRise | mlkit-src/src/CUtils/binaryheap.c:142-148 | from one violated position, sinking and then rising restore the order |
| BinaryHeap.Heap.Insert | mlkit-src/src/CUtils/binaryheap.c:163-175 | puts the re-keyed element in and keeps the order; fails exactly when another array size is due and cannot be allocated, changing nothing |
| BinaryHeap.Heap.Delete | mlkit-src/src/CUtils/binaryheap.c:152-161 | takes out exactly the element at the position; the heap stays ordered if and only if the moved element sinks or is not less than its new parent |
| HeapRuns.Run | mlkit-src/src/CUtils/binaryheap.c:48-175 | every run of insert, changekey and extractmin answers as a multiset does, with a least element extracted; an insertion fails exactly when another array size is due and cannot be allocated |
| HeapRuns.Drain | mlkit-src/src/CUtils/binaryheap.c:123-133 | extracting until the heap is empty yields a sorted permutation of what was in it |
| HeapRuns.DeleteCanBreakOrder | mlkit-src/src/CUtils/binaryheap.c:152-161 | heapdelete on a heap of six leaves an array that is not a heap |
| HeapRuns.SixIsAHeap | mlkit-src/src/CUtils/binaryheap.c:152-161 | the six elements that heapdelete is shown on are a heap |
| HeapRuns.ExtractCanForgetToReport | mlkit-src/src/CUtils/binaryheap.c:123-133 | heapextractmin on a heap of two leaves an element whose reported position is wrong |
| LineTree.SplitLeafKeeps | mlkit-src/js/codemirror/codemirror.js:6111-6132 | splitting a leaf keeps the lines and gives leaves of 1 to 50 lines with right heights |
| LineTree.SpillBranchKeeps | mlkit-src/js/codemirror/codemirror.js:6134-6154 | spilling a branch keeps the lines and gives branches of at most 10 children with right sizes and heights |
| LineTree.SpillRootKeeps | mlkit-src/js/codemirror/codemirror.js:6134-6154 | at the root the children move into new branches below it, again and again, until at most 10 are left |
| LineTree.InsertRefines | mlkit-src/js/codemirror/codemirror.js:6111-6154 | inserting lines into the tree inserts them into the sequence of lines; cached sums, node sizes and fan-outs stay right |
| LineTree.CollapsedKeeps | mlkit-src/js/codemirror/codemirror.js:6098-6106 | collapsing a small branch to a single leaf keeps its lines, sums and bounds |
| LineTree.RemoveKeeps | mlkit-src/js/codemirror/codemirror.js:6043-6107 | removing from any node removes just these lines and keeps sums and bounds |
| LineTree.RemoveRefines | mlkit-src/js/codemirror/codemirror.js:6085-6107 | removing lines from the tree removes them from the sequence of lines; cached sums, node sizes and fan-outs stay right, and a small tree is one leaf |
| LineLinks.SpillRootLinks | mlkit-src/js/codemirror/codemirror.js:6134-6154 | maybeSpill at the root: the copy and the siblings, and all nodes moved into them, have the right parent, and no identity is repeated |
| LineLinks.SpillLinks | mlkit-src/js/codemirror/codemirror.js:6134-6154 | maybeSpill elsewhere: the siblings hang from the parent of the branch, and their children from them |
| LineLinks.SplitLinks | mlkit-src/js/codemirror/codemirror.js:6111-6132 | the leaves that a leaf sheds hang from its parent, and their lines from them |
| LineLinks.InsertKeepsLinks | mlkit-src/js/codemirror/codemirror.js:6111-6154 | inserting with links is inserting without them, and every parent link is right again |
| LineLinks.CollapsedLinks | mlkit-src/js/codemirror/codemirror.js:6098-6106 | the collapsed branch has a new leaf that hangs from it, with all lines hanging from the leaf |
| LineLinks.RemoveKeepsLinks | mlkit-src/js/codemirror/codemirror.js:6043-6107 | removing with links is removing without them, and every parent link is right again |
| LineLinks.RunKeepsTree | mlkit-src/js/codemirror/codemirror.js:6030-6166 | in every run of insertions and removals the tree stays linked, within its bounds and summed up, and stands for the edited sequence of lines |
| LineLinks.NewTree | mlkit-src/js/codemirror/codemirror.js:6169-6188 | the tree a document starts with |
| LineLinks.LinkLeadsTo | mlkit-src/js/codemirror/codemirror.js:6590-6600 | where no identity is repeated, a parent link leads to the one node that contains its owner |
| LineLinks.LineNo | mlkit-src/js/codemirror/codemirror.js:6590-6600 | lineNo, from the line up the parent links, finding the line in its leaf and each node in its parent by identity, is the number of the line |
| LineIndex.LineNoOfGetLine | mlkit-src/js/codemirror/codemirror.js:6548-6600 | lineNo(getLine(n)) is n, and getLine(n) is line n |
| LineIndex.GetLineOfLineNo | mlkit-src/js/codemirror/codemirror.js:6548-6600 | getLine(lineNo(l)) is l |
| LineIndex.PathMeansPosition | mlkit-src/js/codemirror/codemirror.js:6590-6642 | lineNo is the position of the line in the sequence, and heightAtLine the sum of the heights before it |
| LineIndex.LineAtHeightScans | mlkit-src/js/codemirror/codemirror.js:6604-6621 | the descent of lineAtHeight finds what a linear scan finds |
| LineIndex.LineAtHeightContains | mlkit-src/js/codemirror/codemirror.js:6604-6621 | for a height within the document, the line whose interval of heights contains it |
| LineIndex.LineAtHeightOfLine | mlkit-src/js/codemirror/codemirror.js:6604-6642 | lineAtHeight inverts heightAtLine on lines of positive height |
| LineIndex.AboveIsFirst | mlkit-src/js/codemirror/codemirror.js:6604-6621 | for a height above the document, the first line |
| LineIndex.BelowIsNone | mlkit-src/js/codemirror/codemirror.js:6604-6621 | for a height below the document, the number behind the last line |
| LineIndex.UpdateLineRefines | mlkit-src/js/codemirror/codemirror.js:6583-6586 | changing one line and its height up the tree keeps every cached sum |
| Text.SpliceParts | mlkit-src/js/codemirror/codemirror.js:5972-6015 | after a splice, what was before and after the change is before and after its text |
| Text.SpliceJoined | mlkit-src/js/codemirror/codemirror.js:5972-6015 | as one string, a splice replaces the part between its two positions |
| Text.InverseUndoes | mlkit-src/js/codemirror/codemirror.js:6672-6677 | the change that historyChangeFromChange builds is in range after the change and takes it back exactly |
| Text.InverseOfInverse | mlkit-src/js/codemirror/codemirror.js:3369-3431 | the inverse of the inverse is the change itself |
| Text.ExtendedInverse | mlkit-src/js/codemirror/codemirror.js:6718-6721 | an insertion at the end of a recorded change is taken back by extending that change's end |
| Document.Doc.constructor | mlkit-src/js/codemirror/codemirror.js:6169-6188 | a new document has one empty line, of height 1 |
| Document.Doc.ClipPos | mlkit-src/js/codemirror/codemirror.js:1053-1065 | the clipped position is in the text |
| Document.Doc.Update | mlkit-src/js/codemirror/codemirror.js:5974-5977 | gives a line its text and the height estimated for it, and leaves every other line as it is |
| Document.Doc.InsertLines | mlkit-src/js/codemirror/codemirror.js:6202-6206 | inserts the lines into the text, as new line objects with the heights estimated for their texts |
| Document.Doc.RemoveLines | mlkit-src/js/codemirror/codemirror.js:6207 | removes the lines from the text, with their line objects and heights |
| Document.Doc.UpdateDoc | mlkit-src/js/codemirror/codemirror.js:5972-6015 | all five branches make the text before from, the change's text and the text after to, glued together; the line objects are the kept ones and new ones where LineObjects says; the lines that the text comes to lie in have the heights estimated for them, and all others keep theirs |
| Document.Doc.HeightAtLine | mlkit-src/js/codemirror/codemirror.js:6625-6642 | the height above a line is the sum of the heights of the lines before it |
| Document.Doc.LineNoAtHeight | mlkit-src/js/codemirror/codemirror.js:6604-6621 | the line whose interval of heights contains the height, the first line above the document and none below it |
| Document.HeightAfterChange | mlkit-src/js/codemirror/codemirror.js:5972-6642 | after a change, the height above a line is made of the old heights before and behind the change and of those estimated for the lines of its text |
| Document.KeptObjects | mlkit-src/js/codemirror/codemirror.js:5983-6012 | the insertions and removals of each branch keep and add the line objects that LineObjects says |
| Document.Doc.GetBetween | mlkit-src/js/codemirror/codemirror.js:6563-6573 | the text between two positions |
| Document.WholeLines | mlkit-src/js/codemirror/codemirror.js:5984-5991 | the branch for whole lines makes the splice |
| Document.WithinLine | mlkit-src/js/codemirror/codemirror.js:5992-5994 | the branch within a line makes the splice |
| Document.SplitLine | mlkit-src/js/codemirror/codemirror.js:5995-6001 | the branch that splits a line makes the splice |
| Document.JoinLines | mlkit-src/js/codemirror/codemirror.js:6002-6004 | the branch that joins lines makes the splice |
| Document.ReplaceLines | mlkit-src/js/codemirror/codemirror.js:6005-6012 | the branch that replaces lines makes the splice |
| Document.WholeLinesHeights | mlkit-src/js/codemirror/codemirror.js:5984-5991 | in the branch for whole lines the last line and the new ones are measured, and no other |
| Document.WithinLineHeights | mlkit-src/js/codemirror/codemirror.js:5992-5994 | in the branch within a line this line is measured, and no other |
| Document.SplitLineHeights | mlkit-src/js/codemirror/codemirror.js:5995-6001 | in the branch that splits a line its parts and the lines between are measured, and no other |
| Document.JoinLinesHeights | mlkit-src/js/codemirror/codemirror.js:6002-6004 | in the branch that joins lines the joined one is measured, and no other |
| Document.ReplaceLinesHeights | mlkit-src/js/codemirror/codemirror.js:6005-6012 | in the branch that replaces lines the first, the last and the new ones are measured, and no other |
| History.LeadsToOneMore | mlkit-src/js/codemirror/codemirror.js:3398-3418 | applied last to first, an event with one more inverse leads back to where it led before |
| History.LeadsToExtended | mlkit-src/js/codemirror/codemirror.js:6715-6725 | an event whose last change is extended over an insertion leads back to where it led before |
| Session.Session.constructor | mlkit-src/js/codemirror/codemirror.js:6655-6668 | an empty history, generation 1, clean |
| Session.Session.CleanMeansSameText | mlkit-src/js/codemirror/codemirror.js:6342-6352 | isClean means that the text is the text of the last markClean |
| Session.Session.MarkClean | mlkit-src/js/codemirror/codemirror.js:6342-6349 | the text is now the clean one, and the next change starts a new event |
| Session.Session.LastChangeEvent | mlkit-src/js/codemirror/codemirror.js:6691-6701 | uncovers an event to merge into exactly when there is one: under any selections with force, else under one at most |
| Session.Session.NewEvent | mlkit-src/js/codemirror/codemirror.js:6726-6738 | the new event leads back to the text before it; entries are forgotten only beyond undoDepth, and no more of them than needed |
| Session.Session.AddChangeToHistory | mlkit-src/js/codemirror/codemirror.js:6706-6746 | a change is merged exactly when operation or origin allow it (SessionRuns.TwoChanges says when that is) and there is an event to merge into; the history leads back to the text before; undoDepth forgets from the far end, and only then |
| Session.Session.MergeChange | mlkit-src/js/codemirror/codemirror.js:6715-6725 | the merged event leads back from the text after the change to the text the event led to before |
| Session.Session.MakeChange | mlkit-src/js/codemirror/codemirror.js:3351-3366 | the text is spliced, the future dropped, the past one text longer unless the change was merged, which is said exactly |
| Session.Session.ApplyBackwards | mlkit-src/js/codemirror/codemirror.js:3407-3418 | the changes of an event, last one first, lead to the text it stands for, and their inverses lead back |
| Session.Session.MakeChangeFromHistory | mlkit-src/js/codemirror/codemirror.js:3369-3431 | undo restores the text before the last event and redo the text before the last undo; the generation is that of the text; the selection is the one that lay below the event; the inverse event is on the other stack |
| Session.Session.AddSelection | mlkit-src/js/codemirror/codemirror.js:6761-6781 | never changes the text; says what becomes of both stacks; the history stays sound if and only if it does not overwrite a change |
| Session.Session.SetSelection | mlkit-src/js/codemirror/codemirror.js:1155-1158 | sets the selection and adds it to the history, sound under the same condition |
| SessionRuns.Run | mlkit-src/js/codemirror/codemirror.js:3351-3431 | every run of replaceRange, selections, undo, redo and markClean moves through a stack of texts, each change merged exactly when it should be, and isClean tells the truth; the run stops only at a selection that overwrites a change |
| SessionRuns.Perform | mlkit-src/js/codemirror/codemirror.js:3351-3431 | each call does to document, history and selection what it does to the stack of texts and the two stacks of events, and breaks the history exactly when it is a selection that overwrites a change |
| SessionRuns.UndoRedoIsIdentity | mlkit-src/js/codemirror/codemirror.js:3369-3431 | redo after undo, and undo after redo, change nothing |
| SessionRuns.ClippedInRange | mlkit-src/js/codemirror/codemirror.js:3541-3546 | whatever positions replaceRange is given, the change it makes is in range |
| SessionRuns.CleanAgainAfterUndo | mlkit-src/js/codemirror/codemirror.js:6342-6352 | a change and its undo leave a marked document clean, with its text |
| SessionRuns.TwoChanges | mlkit-src/js/codemirror/codemirror.js:6706-6781 | two changes after markClean, with any selections set between them, are undone together exactly in one operation, or with the same origin that starts with *, or with + soon enough, and no selection set apart between them; otherwise one at a time |
| SessionRuns.SetSelections | mlkit-src/js/codemirror/codemirror.js:6691-6781 | a change stays under a single selection exactly as long as none set after it is another one, of an origin and an operation of its own |
| SessionRuns.MergedTogether | mlkit-src/js/codemirror/codemirror.js:6711-6715 | what is undone together is what is merged into the event on top |
| SessionRuns.SelectionAfterRedoLosesEvent | mlkit-src/js/codemirror/codemirror.js:6761-6781 | a selection set after a redo in the same operation destroys the event: the text stays changed, and with no event before it there is nothing to undo |
| Selection.AdjustIsMonotone | mlkit-src/js/codemirror/codemirror.js:3257-3264 | following a change keeps the order of positions |
| Selection.AdjustKeepsText | mlkit-src/js/codemirror/codemirror.js:3249-3264 | a position before the change keeps the text before it, one after it the text after it, one inside goes to the end of the change |
| Selection.MergedCovers | mlkit-src/js/codemirror/codemirror.js:1036-1041 | the merged range covers what the two covered and keeps the direction of the first that is not empty |
| Selection.NormalizeSelection | mlkit-src/js/codemirror/codemirror.js:1028-1045 | sorted ranges with gaps between them, covering the same positions, with the primary one where the old primary was; each is a group of touching neighbours merged, and points the way of the first of them that is not empty |
| Selection.GroupDirection | mlkit-src/js/codemirror/codemirror.js:1036-1041 | a group of neighbours is merged into a range with the direction of the first of them that is not empty |
| Selection.SeparateIsUnique | mlkit-src/js/codemirror/codemirror.js:1028-1045 | there is only one such list: its ranges are determined by what is covered |
| Selection.ComputeSelAfterChange | mlkit-src/js/codemirror/codemirror.js:3266-3274 | after a change the selection is normalised and covers the followed ranges of the old one and nothing more; each new range is a group of followed ones and points the way of the first of them that is not empty |
| ViewCache.Display.FindViewIndex | mlkit-src/js/codemirror/codemirror.js:2157-2166 | the view element that shows the line, or none outside the view |
| ViewCache.Display.BuildViewArray | mlkit-src/js/codemirror/codemirror.js:2054-2062 | one view for each line |
| ViewCache.Display.RegView | mlkit-src/js/codemirror/codemirror.js:2081-2122 | in each overlap case the view shows the document's lines viewFrom to viewTo again, and keeps all that the change has left |
| ViewCache.Display.RegChange | mlkit-src/js/codemirror/codemirror.js:2070-2131 | the view stays exact, and so does the line measured outside it, which is forgotten only next to the change |
| ViewCache.BoundsKeepShown | mlkit-src/js/codemirror/codemirror.js:2082-2122 | the view shows exactly what it showed above and below the change, and the lines of the change exactly when it showed lines on both sides |
| ViewCache.Display.RegLineChange | mlkit-src/js/codemirror/codemirror.js:2135-2146 | the measured line is forgotten exactly when it is the line that changes |
| ViewCache.Display.WithinView | mlkit-src/js/codemirror/codemirror.js:2111-2122 | a change within the view: the views above, the new ones and those below show the new document |
| ViewCache.ChangeInEditor | mlkit-src/js/codemirror/codemirror.js:3484-3525 | changing the document and telling the view leaves view and measured line exact for the line objects of the document; a change within one line only forgets a measured line that is that line |
| ViewCache.LineObjectsReplaced | mlkit-src/js/codemirror/codemirror.js:5972-6015 | the line objects updateDoc keeps and makes are those regChange is told of |
| BidiTypes.SpacesAreHarmless | mlkit-src/js/codemirror/codemirror.js:7489-7501 | every white space character has a neutral, common-separator or L type |
| BidiTypes.TypesAreKnown | mlkit-src/js/codemirror/codemirror.js:7489-7501 | the types that there are, and that only Hebrew and Arabic have right-to-left ones, Arabic numbers and marks |
| BidiRules.PassW1 | mlkit-src/js/codemirror/codemirror.js:7519-7527 | the loop applies rule W1 to every position; BidiLaws.MarkLevel says what that comes to |
| BidiRules.PassW2W3 | mlkit-src/js/codemirror/codemirror.js:7529-7538 | the loop applies rules W2 and W3 to every position; BidiLaws.LetterHolds and TerminatorLevel say what that comes to |
| BidiRules.PassW4 | mlkit-src/js/codemirror/codemirror.js:7540-7549 | the loop applies rule W4 to every position; BidiLaws.SeparatorLevel says what that comes to |
| BidiRules.PassW5W6 | mlkit-src/js/codemirror/codemirror.js:7551-7564 | the loop applies rules W5 (as written) and W6 to every position; BidiLaws.TerminatorLevel and WeakLevel say what that comes to |
| BidiRules.PassW7 | mlkit-src/js/codemirror/codemirror.js:7566-7573 | the loop applies rule W7 to every position; BidiLaws.LetterHolds says what that comes to |
| BidiRules.PassN1N2 | mlkit-src/js/codemirror/codemirror.js:7575-7590 | the loop applies rules N1 and N2 to every position; BidiLaws.NeutralLevel and WeakLevel say what that comes to |
| BidiLaws.LawsHold | mlkit-src/js/codemirror/codemirror.js:7518-7590 | the levels keep the laws of BidiLevels: letters on the level of their direction; European numbers on 2 after a right-to-left letter and on 0 elsewhere; marks on the level before them; a comma between two numbers of one type on theirs; terminators before a number on its level, or on 1 after an Arabic letter; neutrals next to L or an edge on 0 and between right-to-left text on 1 |
| BidiLaws.LetterHolds | mlkit-src/js/codemirror/codemirror.js:7529-7573 | the level of a letter, a number or a boundary neutral, from the last letter before it or the level before it |
| BidiLaws.MarkLevel | mlkit-src/js/codemirror/codemirror.js:7519-7527 | a mark is on the level of what it follows |
| BidiLaws.SeparatorLevel | mlkit-src/js/codemirror/codemirror.js:7540-7549 | a single comma between two numbers of one type is on their level |
| BidiLaws.TerminatorLevel | mlkit-src/js/codemirror/codemirror.js:7551-7564 | terminators directly before a European number are on its level, and on level 1 after an Arabic letter |
| BidiLaws.NeutralLevel | mlkit-src/js/codemirror/codemirror.js:7575-7590 | neutrals next to left-to-right text or an edge are on level 0, between right-to-left text on level 1 |
| BidiLaws.WeakLevel | mlkit-src/js/codemirror/codemirror.js:7551-7590 | so are separators and terminators among letters and boundary neutrals |
| BidiLaws.AllLeftIff | mlkit-src/js/codemirror/codemirror.js:7503-7514 | a line without Hebrew and Arabic is on level 0 altogether if and only if nothing neutral stands between two boundary neutrals |
| Bidi.Resolve | mlkit-src/js/codemirror/codemirror.js:7518-7590 | the passes resolve the types in order, and white space at either end of the line becomes L |
| Bidi.BuildRtl | mlkit-src/js/codemirror/codemirror.js:7596-7616 | the spans of a right-to-left stretch, right to left and with its numbers, tile the stretch |
| Bidi.BuildSpans | mlkit-src/js/codemirror/codemirror.js:7592-7617 | the spans tile the line: each has one level, they are in visual order and cover it exactly |
| Bidi.TilesExactlyOnce | mlkit-src/js/codemirror/codemirror.js:7592-7617 | in a tiling every character lies in exactly one span, of its own level, which is 0, 1 or 2 |
| Bidi.TrimSpaces | mlkit-src/js/codemirror/codemirror.js:7618-7625 | leaves spans alone that begin and end at level 0 or have no white space at the ends |
| Bidi.BidiOrdering | mlkit-src/js/codemirror/codemirror.js:7513-7630 | an order exactly when a character is right-to-left or in the Arabic block; then a tiling of the line, with at most an empty span added so that it ends at the level it starts with, and the levels of its spans keep the laws of BidiLevels; with no order, the line is left-to-right altogether if and only if nothing neutral stands between two boundary neutrals |
| Bidi.W5AsWrittenIff | mlkit-src/js/codemirror/codemirror.js:7551-7564 | W5 as written is W5 of UAX #9 if and only if no terminator follows a number without preceding one |
| Bidi.PercentSignAfterNumber | mlkit-src/js/codemirror/codemirror.js:7551-7564 | the line of a Hebrew letter, a digit and a per cent sign: the per cent sign is ordered on level 0, by the standard on level 2 |
| Bidi.BlankBetweenBoundaries | mlkit-src/js/codemirror/codemirror.js:7503-7514 | a line of a blank between two control characters gets no order, though the blank is not on level 0 |
| Highlight.ReadTokenMoves | mlkit-src/js/codemirror/codemirror.js:5628-5634 | a token that is read ends after its start and within the line |
| Highlight.TokensTile | mlkit-src/js/codemirror/codemirror.js:5637-5668 | the mode's tokens tile the line |
| Highlight.RunMode | mlkit-src/js/codemirror/codemirror.js:5637-5668 | the emitted ends rise strictly to the line's length, and each character gets the style of its token, however tokens are joined or cut |
| Overlays.TakeUpTo | mlkit-src/js/codemirror/codemirror.js:5687-5695 | cutting segments at a position paints the same characters |
| Overlays.Restyle | mlkit-src/js/codemirror/codemirror.js:5696-5705 | a piece under an overlay's style, opaque or not, character by character |
| Overlays.MergeOverlay | mlkit-src/js/codemirror/codemirror.js:5683-5707 | an overlay keeps the segments a tiling, each character with the combination of its two styles |
| StyleLookup.HighlightLine | mlkit-src/js/codemirror/codemirror.js:5674-5710 | each character has its token's style and behind it, in order, the marker and style of each overlay that paints there, or only those from the last opaque one on; each from the overlay's own tokens |
| StyleLookup.StackReads | mlkit-src/js/codemirror/codemirror.js:5696-5705 | stacked styles, read as words: the own style and then the marker and style of each painting layer, from the last opaque one on |
| StyleLookup.StyleBefore | mlkit-src/js/codemirror/codemirror.js:3968-3977 | the binary search finds the style a linear scan finds |
| StyleLookup.StripsToBaseIff | mlkit-src/js/codemirror/codemirror.js:3980-3981 | under transparent overlays that paint, cutting at the marker gives back the base style if and only if that style and a blank do not contain the marker |
| StyleLookup.StripsOwnIff | mlkit-src/js/codemirror/codemirror.js:3980-3981 | where no overlay paints, cutting gives back the style if and only if the marker is not in it |
| StyleLookup.StripsStackIff | mlkit-src/js/codemirror/codemirror.js:3980-3981 | without an opaque overlay, cutting gives back the mode's style if and only if it has none, or overlays paint and the style with a blank does not contain the marker, or none paints and the style does not contain it |
| StyleLookup.MarkerAsOwnStyle | mlkit-src/js/codemirror/codemirror.js:3980-3981 | a mode style that getTokenTypeAt does not give back |
| StyleLookup.StackCarries | mlkit-src/js/codemirror/codemirror.js:5696-5705 | unless an opaque overlay hides it, a stacked style starts with the mode's own style |
| StyleLookup.HiddenStack | mlkit-src/js/codemirror/codemirror.js:5697-5699 | what an opaque overlay has painted is stripped to null |
| StyleLookup.FoundLayers | mlkit-src/js/codemirror/codemirror.js:5697-5699 | the layers at a position are those of the overlays' own tokens: one hides the mode's style exactly where an opaque overlay has a style, one paints exactly where some overlay has |
| StyleLookup.TokenTypeAt | mlkit-src/js/codemirror/codemirror.js:3968-3982 | null under an opaque overlay; elsewhere the style the mode gave to the character before the position, if and only if the overlay marker does not get in the way, painted or not |
| SmlGrammar.StringEndIff | mlkit-src/js/codemirror/sml.js:193-209 | a string ends where the grammar has it: units, each a character other than a quote or a backslash, or a backslash with any one character, and then a quote |
| SmlGrammar.CloseOfIff | mlkit-src/js/codemirror/sml.js:211-222 | a comment ends exactly behind the closing that follows its body: single characters, whole comments, and openings that close themselves |
| SmlGrammar.ReadsToEnd | mlkit-src/js/codemirror/sml.js:211-222 | comments that are open end, the outermost last, where the grammar has it |
| SmlGrammar.ReadsOpen | mlkit-src/js/codemirror/sml.js:211-222 | the depth at the end of the line is the number of comments that the grammar leaves open |
| SmlGrammar.LoopReads | mlkit-src/js/codemirror/sml.js:211-222 | the loop with its previous character reads openings and closings as a left-to-right reading does |
| SmlGrammar.ReadingsAgreeIff | mlkit-src/js/codemirror/sml.js:211-222 | this is the reading in which every opening counts if and only if none that was read is directly followed by ) |
| SmlGrammar.NestedOpeningClosesItself | mlkit-src/js/codemirror/sml.js:211-222 | a line on which the two readings end at different closings |
| SmlGrammar.DepthStaysNatural | mlkit-src/js/codemirror/sml.js:211-222 | commentDepth does not go below zero |
| SmlMode.ReadString | mlkit-src/js/codemirror/sml.js:193-209 | the loop ends where the grammar ends the string, or at the end of the line when it does not |
| SmlMode.ReadComment | mlkit-src/js/codemirror/sml.js:211-222 | the loop ends where the grammar ends all open comments, or at the end of the line with commentDepth the number of those still open |
| SmlMode.StringTokens | mlkit-src/js/codemirror/sml.js:78-209 | from a quotation mark, with or without # before it, or inside a string, a token goes up to the end of the string, or is an error to the end of the line |
| SmlMode.CommentTokens | mlkit-src/js/codemirror/sml.js:78-222 | from an opening, or inside a comment, a token goes up to the end of the outermost comment, or to the end of the line with the comments still open |
| SmlMode.DepthAfterLine | mlkit-src/js/codemirror/sml.js:211-230 | over the rest of a line that is in comments: it goes on as ordinary text behind their end, or leaves the comments open that the grammar leaves open |
| SmlMode.SmlAdvances | mlkit-src/js/codemirror/sml.js:78-222 | every token call advances within the line, and commentDepth is positive exactly in the comment state |
| SmlMode.SmlNeverStuck | mlkit-src/js/codemirror/sml.js:78-230 | runMode never fails on the SML mode |
| SmlMode.HighlightSml | mlkit-src/js/codemirror/sml.js:224-230 | every line of SML in every state gets segments that tile it, with the styles of its tokens |
| SmlMode.ConsistentAfterLine | mlkit-src/js/codemirror/sml.js:224-230 | the state carried to the next line has commentDepth positive exactly in the comment state |
| Deferred.StepInv | mlkit-src/js/doc/jquery-1.9.1.js:1004-1253 | every call and every return, inside callbacks too, keeps the invariant of the three lists, and only the first resolve or reject settles |
| Deferred.FirstSettling | mlkit-src/js/doc/jquery-1.9.1.js:1217-1233 | the first resolve or reject runs the three functions of its list, which settle it, disable the other side and lock progress, and calls the first registration |
| Deferred.WinnerLoop | mlkit-src/js/doc/jquery-1.9.1.js:1029-1054 | a loop on the side that won calls the next registration, or ends with all of them called |
| Deferred.LoopEnds | mlkit-src/js/doc/jquery-1.9.1.js:1042-1053 | what follows a loop: the next waiting notification, an emptied list, or a disabled one |
| Deferred.ProgressLoop | mlkit-src/js/doc/jquery-1.9.1.js:1029-1054 | the loop on the progress list, through all notifications that wait, leaves the two sides alone |
| Deferred.AddWon | mlkit-src/js/doc/jquery-1.9.1.js:1058-1087 | a registration on the side that won joins the running loop or starts a new one |
| Deferred.RunInv | mlkit-src/js/doc/jquery-1.9.1.js:1168-1253 | the invariant holds after every run, and what has settled is the first resolve or reject of the run |
| Deferred.SettlesAtMostOnce | mlkit-src/js/doc/jquery-1.9.1.js:1168-1253 | in every run a Deferred settles at most once, never as both, and stays settled |
| Deferred.CallsOfAnyRun | mlkit-src/js/doc/jquery-1.9.1.js:1004-1253 | in every run done and fail callbacks are called in the order of registration, each at most once and with the settling data; none of the side that lost, and all of the side that won when its loop is over |
| Deferred.RegsOfOnce | mlkit-src/js/doc/jquery-1.9.1.js:1058-1087 | the registrations of a list, each once and in order |
| Deferred.NotifyAfterSettling | mlkit-src/js/doc/jquery-1.9.1.js:1129-1152 | once settled, notify does nothing, in every run |
| Deferred.NotifyCallsAll | mlkit-src/js/doc/jquery-1.9.1.js:1029-1152 | a notification calls every progress callback once and in order, and is over when they have returned |
| DeferredNotes.RunTalks | mlkit-src/js/doc/jquery-1.9.1.js:1029-1152 | every run keeps to the schedule made from its calls: which callbacks run, which notification is being delivered and to whom, and what each registration has heard |
| DeferredNotes.ProgressCallsOfAnyRun | mlkit-src/js/doc/jquery-1.9.1.js:1029-1152 | after every run a progress callback has been called with its notifications in order, nested or not, and with all of them when none is being delivered |
| DeferredNotes.LoopTalks | mlkit-src/js/doc/jquery-1.9.1.js:1036-1053 | a loop on the progress list calls the next registration, goes on with the notification waiting longest, or ends |
| DeferredNotes.NotesOfRun | mlkit-src/js/doc/jquery-1.9.1.js:1129-1152 | until something settles every notification is delivered in the order of the calls; afterwards those of them whose delivery has begun |
| DeferredNotes.NotesWhenSettled | mlkit-src/js/doc/jquery-1.9.1.js:1129-1138 | resolve and reject drop the notifications that wait behind the one being delivered, and no other |
| DeferredNotes.NotesStay | mlkit-src/js/doc/jquery-1.9.1.js:1141-1152 | once settled, no notification is added or lost |
| DeferredNotes.RegisteredHears | mlkit-src/js/doc/jquery-1.9.1.js:1058-1087 | registered before anything settles, a progress callback hears the notification being delivered, or else the last one, and all later ones |
| DeferredNotes.HearsLastIffNoneWaits | mlkit-src/js/doc/jquery-1.9.1.js:1058-1087 | it hears exactly the last notification before its registration and all later ones if and only if none was waiting |
| DeferredNotes.RegisteredLate | mlkit-src/js/doc/jquery-1.9.1.js:1058-1087 | registered after something has settled, it is called once with the last notification delivered at all, or never |
| DeferredNotes.RegisteredWhileOneWaits | mlkit-src/js/doc/jquery-1.9.1.js:1058-1087 | a callback registered inside a callback that has notified again hears the earlier notification too |
| DeferredObjects.DeferredObject.constructor | mlkit-src/js/doc/jquery-1.9.1.js:1168-1233 | the three lists with the options and first functions that Deferred gives them |
| DeferredObjects.DeferredObject.Continue | mlkit-src/js/doc/jquery-1.9.1.js:1036-1053 | the loop of fire takes the lists where the state machine takes them |
| DeferredObjects.DeferredObject.Fire | mlkit-src/js/doc/jquery-1.9.1.js:1029-1054 | fire takes the lists where the state machine takes them |
| DeferredObjects.DeferredObject.FireWith | mlkit-src/js/doc/jquery-1.9.1.js:1141-1152 | resolve, reject and notify are steps of the state machine; what becomes of notifications is said in DeferredNotes |
| DeferredObjects.DeferredObject.Add | mlkit-src/js/doc/jquery-1.9.1.js:1058-1087 | done, fail and progress are steps of the state machine; what a progress callback hears is said in DeferredNotes |
| DeferredObjects.DeferredObject.Returned | mlkit-src/js/doc/jquery-1.9.1.js:1036-1053 | a callback's return is a step of the state machine |
| DeferredObjects.DeferredObject.Perform | mlkit-src/js/doc/jquery-1.9.1.js:1004-1253 | each call or return on the objects is a step of the state machine |
| DeferredObjects.RunAll | mlkit-src/js/doc/jquery-1.9.1.js:1004-1253 | any sequence of calls and returns takes a new Deferred where the state machine goes, with its done and fail callbacks called in order, at most once, and all of the winning side when nothing is running, and its progress callbacks called with their notifications in order |

## Left out

- HashMap, PolyHashMap, BinaryHeap: C integer widths and the overflow of allocation sizes; sizes are unbounded. An
  allocation is a boolean that may be false. What stays behind in a slot that is not used is not kept.
- HashMap: `hashapply`, `hashmap`, `hashMap` and the codes that no path returns; they would only add easy members.
- The typed wrapper macros, and the uses of the tables in Export.c and Dlsym.c beyond the calls of the map.
- LineTree: the tree is a value; updating nodes in place is a new value. Documents start at line 0.
- LineLinks.RemoveKeepsLinks: says nothing about the parent links of the nodes and lines that have been removed.
- LineLinks.RunKeepsTree: says nothing about the parent links of the nodes and lines that have been removed.
- LineIndex: collapsed spans.
- Document.Doc: with no editor the code gives every line the height 1; that is an `estimate` that is always 1.
- Session.Session: marked spans, linked documents, event handlers, read-only clipping; undoing and redoing selections
  alone; clearHistory, setHistory and getHistory. The selection after a change is a parameter; the time between two
  changes is a boolean.
- Selection.NormalizeSelection: the order that the built-in sort makes is a parameter, any that sorts by start.
- ViewCache.Display.RegChange: without collapsed spans each line has one view; redrawing and measuring are left out.
- Highlight.RunMode: `blankLine`, `addModeClass`, line classes and indentation. A mode is its token function; ten
  calls that do not advance are an error, as in the code.
- SmlMode: the token functions' styles are those of the code; what numbers, words and symbols they recognise is not
  stated beyond that.
- BidiTypes: characters are their codes; the type tables are those of the code.
- Bidi.TrimSpaces: states nothing for spans with white space to trim, which do not occur.
- Deferred: the state machine is on values; the objects that take its steps are in DeferredObjects. The options
  `unique` and `stopOnFalse`, `remove` and `empty`, exceptions thrown by callbacks, `then`, `always` and `when` are not
  modelled. A callback's data is a number.
- All other parts of the editor and of jQuery, the ML compiler itself, and the run-time system.
