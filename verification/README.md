# Verified models of the editor, the codec, the gateway and three widgets

This project models the parts of the repository that carry real algorithms, and proves what they promise.

**The rich-text editor** (`wysihtml5-0.3.0.js`, with Rangy).  A document is a tree of elements and texts whose
nodes have identities; a node reference is an identity, and all parentless trees hang below a virtual root.
Methods walk the tree through parents, children and siblings as the program does, and a `Document` is changed in
place by the DOM calls the program makes.
- `Tree`, `Positions`, `Navigation`: nodes, paths, points, and the order of points in two independent readings,
  as encoded paths and as the number of tags and characters before a point.
- `Slices`, `Ranges`, `Traversal`, `RangeIterators`, `RangeQueries`, `NodeOrder`, `DomRange`, `Selecting`: what lies
  between two points, stated on the tree; the iterators, getNodes, toString, the setters, intersection and union,
  proved against that.
- `Documents`, `RangeContents`, `RangeEditing`, `OutsideRange`, `Splitting`, `BoundarySplits`, `NodeSplits`:
  deleting, extracting and splitting.
- `Formatting`, `HtmlApplier`, `Surround`, `RangeApplier`: which characters stand under an element the applier
  accepts, and what applyToRange does to that.
- `UndoManagers`: the undo history against two stacks.

**The object codec** (`buffer_base`).  `Wire`, `Values`, `Encoding`, `Decoding` say what is written and read;
`WriteBuffers` and `ReadBuffers` are the two classes, with their loops, proved against that; `WireFormat` and `Utf8`
give the format in numbers.  `RoundTrip`, `Reencoding` and `IterationOrder` relate the two directions, and `Contents`
says the same on concrete contents.

**Connector selection** (`game_gateway`).  `ConnectorGroups` holds the classes, `ConnectorRuns` the interleavings
of threads that bind without a lock.

**Three widgets**.  `Masks` and `MaskedInputs` (masked input), `CreditCards` (card number check), `Sliders`
(aligned values and ordered handles).  `Wrappers` declares the option type that all parts share.

Where a promise does not hold on all inputs, the exact condition is proved instead:
- applyToRange leaves the document text alone just when the range is not collapsed (a collapsed one gets U+FEFF),
  and leaves unselected characters alone just when no boundary touches an unformatted text node from the outside;
- the codec returns the normal form just when no map of it has two equal keys;
- typing and backspace cancel out just when the moved characters have a gap to go to with no character behind it;
- erasing a selection keeps the characters behind it just when the selection has a slot, or nothing is behind it;
- slider values stay in range, and the two handles in order, just when at most half a step is left at the end.

`UnselectedFormatted`, `DateKeyLost`, `SecondDigitLost`, `LiteralErases` and `PastMax` exhibit inputs on which the
conditions fail.

`dafny verify dfyconfig.toml` checks the project.

## Model

| member | source | states |
|---|---|---|
| Navigation.ComparePoints | game_manage/src/main/webapp/matrix/js/wysihtml5-0.3.0.js:525-564 | compares two points of one tree by section 2.5 of DOM Level 2 Traversal and Range; the result is the sign of the lexicographic order of the encoded points, so neither exception can be raised |
| Positions.CmpIsPos | game_manage/src/main/webapp/matrix/js/wysihtml5-0.3.0.js:525-564 | lexicographic order of encoded points is the order of the points in the written-out document (tags and characters before them), and earlier points have no more text before them |
| Positions.CmpZero | game_manage/src/main/webapp/matrix/js/wysihtml5-0.3.0.js:528-531 | only equal points compare as equal |
| Positions.CmpAntisymmetric | game_manage/src/main/webapp/matrix/js/wysihtml5-0.3.0.js:525-564 | exchanging the points negates the comparison |
| Positions.CmpTransitive | game_manage/src/main/webapp/matrix/js/wysihtml5-0.3.0.js:525-564 | the comparison is transitive |
| Navigation.GetNodeIndex | game_manage/src/main/webapp/matrix/js/wysihtml5-0.3.0.js:392-398 | counting previous siblings gives the index of a node among its parent's children |
| Navigation.GetCommonAncestor | game_manage/src/main/webapp/matrix/js/wysihtml5-0.3.0.js:405-418 | the deepest node on both parent chains, or null for nodes of different trees |
| Navigation.IsAncestorOf | game_manage/src/main/webapp/matrix/js/wysihtml5-0.3.0.js:420-430 | the climb finds an ancestor just when its path is a prefix |
| Navigation.GetClosestAncestorIn | game_manage/src/main/webapp/matrix/js/wysihtml5-0.3.0.js:432-442 | the child of the ancestor on the way down to the node, or null when there is none |
| Navigation.GetRootContainer | game_manage/src/main/webapp/matrix/js/wysihtml5-0.3.0.js:517-523 | the climb ends at the parentless root of the tree |
| Tree.PathUnique | game_manage/src/main/webapp/matrix/js/wysihtml5-0.3.0.js:405-418 | in a tree without repeated nodes a node has one path, on which all node references of the model rest |
| Documents.Document.InsertBefore | game_manage/src/main/webapp/matrix/js/wysihtml5-0.3.0.js:741-746 | puts new nodes (one, or those of a fragment) in front of another one and changes nothing else; no node occurs twice afterwards |
| Documents.Document.InsertAfter | game_manage/src/main/webapp/matrix/js/wysihtml5-0.3.0.js:449-457 | puts new nodes behind another one and changes nothing else |
| Documents.Document.AppendChild | game_manage/src/main/webapp/matrix/js/wysihtml5-0.3.0.js:743-744 | new nodes become the last children |
| Documents.Document.MoveBefore | game_manage/src/main/webapp/matrix/js/wysihtml5-0.3.0.js:741-746 | insertBefore with a node that is in a tree already: it is taken out with all below it and put in front of the other one; refused, changing nothing, just when it would come to stand below itself |
| Documents.Document.MoveAfter | game_manage/src/main/webapp/matrix/js/wysihtml5-0.3.0.js:449-457 | insertAfter with such a node, likewise |
| Documents.Document.MoveInto | game_manage/src/main/webapp/matrix/js/wysihtml5-0.3.0.js:743-744 | appendChild with such a node, likewise |
| Documents.Document.Remove | game_manage/src/main/webapp/matrix/js/wysihtml5-0.3.0.js:942-943 | takes a subtree out and changes nothing else |
| Documents.CountReplaced | game_manage/src/main/webapp/matrix/js/wysihtml5-0.3.0.js:449-466 | replacing a child conserves the number of occurrences of every node |
| Traversal.NodeIterator.Next | game_manage/src/main/webapp/matrix/js/wysihtml5-0.3.0.js:591-619 | one call returns the first of the nodes that remain in document order, and leaves the rest |
| Traversal.IterateNode | game_manage/src/main/webapp/matrix/js/wysihtml5-0.3.0.js:793-799 | the iterator loop visits exactly the nodes of a subtree, in document order |
| RangeIterators.RangeIterator.Next | game_manage/src/main/webapp/matrix/js/wysihtml5-0.3.0.js:910-930 | moves to the next child of the common ancestor; a boundary text node is shown cut at the boundary when clones are asked for |
| RangeIterators.RangeIterator.GetSubtreeIterator | game_manage/src/main/webapp/matrix/js/wysihtml5-0.3.0.js:956-978 | the iterator for a partially selected node covers the same part of that node as the outer range |
| RangeIterators.SubContent | game_manage/src/main/webapp/matrix/js/wysihtml5-0.3.0.js:956-978 | the content of that inner range is the children of the outer content's node |
| RangeIterators.ContentAt | game_manage/src/main/webapp/matrix/js/wysihtml5-0.3.0.js:894-930 | node by node, what the iterator stops at against the part of it inside the range, stated on the tree |
| RangeIterators.IterateSubtree | game_manage/src/main/webapp/matrix/js/wysihtml5-0.3.0.js:771-802 | the nested iteration visits exactly the content of the range, in document order |
| RangeQueries.IntersectsNode | game_manage/src/main/webapp/matrix/js/wysihtml5-0.3.0.js:1395-1409 | intersectsNode without touching, with all its outcomes: false for a node of another document, NOT_FOUND_ERR for a parentless node, an exception for another tree, and otherwise the answer of the two comparisons |
| RangeQueries.ContentIsHits | game_manage/src/main/webapp/matrix/js/wysihtml5-0.3.0.js:868-978 | the nodes of the content of a range that is not collapsed are the candidates that intersect it, in preorder |
| RangeQueries.GetNodes | game_manage/src/main/webapp/matrix/js/wysihtml5-0.3.0.js:838-853 | getNodes is the preorder filter: of the candidates those that intersect the range and are accepted; nothing for a collapsed range |
| NodeOrder.NodesOfRange | game_manage/src/main/webapp/matrix/js/wysihtml5-0.3.0.js:838-853 | that list is strictly in document order (so without duplicates) and holds exactly the accepted nodes below the common ancestor that intersect the range, and the ancestor itself only if it is a text |
| RangeQueries.ToString | game_manage/src/main/webapp/matrix/js/wysihtml5-0.3.0.js:1328-1346 | toString is the slice of the flattened document text between the text offsets of the boundaries |
| Ranges.UpdateBoundaries | game_manage/src/main/webapp/matrix/js/wysihtml5-0.3.0.js:1828-1846 | the cached collapsed flag and common ancestor are correct after every boundary update |
| Ranges.RangeShape | game_manage/src/main/webapp/matrix/js/wysihtml5-0.3.0.js:1828-1833 | where the boundaries of a valid range lie below its common ancestor |
| DomRange.Range.SetRangeStart | game_manage/src/main/webapp/matrix/js/wysihtml5-0.3.0.js:1605-1616 | setStart: the end collapses to the start just when it would lie before it or in another tree |
| DomRange.Range.SetRangeEnd | game_manage/src/main/webapp/matrix/js/wysihtml5-0.3.0.js:1618-1629 | setEnd, likewise |
| DomRange.Range.SetBeside | game_manage/src/main/webapp/matrix/js/wysihtml5-0.3.0.js:1594-1603 | the four before and after setters; a document, a fragment, or a node that is in neither raises an exception and changes nothing |
| DomRange.Range.Perform | game_manage/src/main/webapp/matrix/js/wysihtml5-0.3.0.js:1605-1689 | every setter call has exactly the asked effect, or fails and changes nothing; said without the boundaries it computes: collapse keeps the old start or the old end, selectNode ends with the points right in front of and right behind the node, and so on |
| DomRange.CallKeepsValid | game_manage/src/main/webapp/matrix/js/wysihtml5-0.3.0.js:1593-1687 | whatever boundaries a call asks for, they are ordered points of one tree again; the effect of a call is stated without saying so |
| DomRange.CallEffect | game_manage/src/main/webapp/matrix/js/wysihtml5-0.3.0.js:1593-1689 | the asked boundaries have that effect, in terms of positions in the written-out document: the before and after points are one tag in front of the node and one tag behind it |
| Selecting.NodeSelected | game_manage/src/main/webapp/matrix/js/wysihtml5-0.3.0.js:1681-1688 | after selectNode the content of the range is exactly the node |
| Selecting.ContentsSelected | game_manage/src/main/webapp/matrix/js/wysihtml5-0.3.0.js:1671-1679 | after selectNodeContents it is exactly the children of the node, or all of a text |
| DomRange.RunKeepsValid | game_manage/src/main/webapp/matrix/js/wysihtml5-0.3.0.js:1593-1687 | over every run of setter calls that starts in a valid state both boundaries stay in one tree, start not after end, and the cached fields stay correct |
| DomRange.Range.Intersection | game_manage/src/main/webapp/matrix/js/wysihtml5-0.3.0.js:1437-1453 | an exception for ranges of different documents or trees, null just for ranges that share no point or only touch, else a range from the later start to the earlier end; no setter collapses the clone |
| DomRange.Range.Union | game_manage/src/main/webapp/matrix/js/wysihtml5-0.3.0.js:1455-1468 | for ranges that share a point, be it one where they touch, a range from the earlier start to the later end; no setter collapses the clone; else an exception, as for ranges of different documents or trees |
| DomRange.IntersectsExactly | game_manage/src/main/webapp/matrix/js/wysihtml5-0.3.0.js:1424-1435 | ranges intersect just when some point is in both, and without touching just when besides none ends where the other starts |
| DomRange.IntersectsSymmetric | game_manage/src/main/webapp/matrix/js/wysihtml5-0.3.0.js:1424-1435 | which does not depend on their order |
| DomRange.IntersectionExact | game_manage/src/main/webapp/matrix/js/wysihtml5-0.3.0.js:1437-1453 | the intersection contains exactly the points in both ranges |
| DomRange.UnionLeast | game_manage/src/main/webapp/matrix/js/wysihtml5-0.3.0.js:1455-1468 | the union is the smallest range that contains both |
| DomRange.UnionCovers | game_manage/src/main/webapp/matrix/js/wysihtml5-0.3.0.js:1455-1468 | it contains no point that is in neither |
| RangeContents.RemoveCurrent | game_manage/src/main/webapp/matrix/js/wysihtml5-0.3.0.js:932-948 | removing the current node of a range iterator leaves the characters of a boundary text outside the range, or nothing |
| RangeEditing.DeleteSubtree | game_manage/src/main/webapp/matrix/js/wysihtml5-0.3.0.js:804-815 | the nested deletion leaves the tree cut at the two points |
| RangeEditing.DeleteContents | game_manage/src/main/webapp/matrix/js/wysihtml5-0.3.0.js:1560-1591 | deleteContents leaves the document with the content cut out; the range ends collapsed at a valid point with the old start's text in front of it: in the old common ancestor, at its first point that is not before the old start |
| RangeEditing.DeletedText | game_manage/src/main/webapp/matrix/js/wysihtml5-0.3.0.js:1560-1591 | the remaining text is the text before the start plus the text after the end |
| RangeEditing.ExtractSubtree | game_manage/src/main/webapp/matrix/js/wysihtml5-0.3.0.js:817-836 | the nested extraction returns a copy of the content and leaves the tree cut at the two points |
| RangeEditing.ExtractContents | game_manage/src/main/webapp/matrix/js/wysihtml5-0.3.0.js:1560-1591 | extractContents leaves the same document as deleteContents, ends at the same point, returns the content, and conserves every node: moved, left, or cloned under a new identity |
| RangeEditing.ExtractedText | game_manage/src/main/webapp/matrix/js/wysihtml5-0.3.0.js:1560-1591 | the fragment has the range's text, and the document keeps the rest |
| RangeEditing.PointAfterDeletion | game_manage/src/main/webapp/matrix/js/wysihtml5-0.3.0.js:1568-1575 | the point computed before the deletion is valid after it, at the old start's text offset |
| RangeEditing.CutPoint | game_manage/src/main/webapp/matrix/js/wysihtml5-0.3.0.js:1568-1575 | that point is the first of the common ancestor that is not before the old start |
| OutsideRange.OutsideUntouched | game_manage/src/main/webapp/matrix/js/wysihtml5-0.3.0.js:804-836 | a node outside the range that holds no boundary is, with all below it, what it was |
| OutsideRange.DeletedExactly | game_manage/src/main/webapp/matrix/js/wysihtml5-0.3.0.js:804-836 | the nodes left after a deletion are exactly those outside the range and those that hold a boundary |
| Splitting.SplitDataNode | game_manage/src/main/webapp/matrix/js/wysihtml5-0.3.0.js:460-466 | splits a text node in two neighbours and changes nothing else |
| Splitting.SplitMoves | game_manage/src/main/webapp/matrix/js/wysihtml5-0.3.0.js:460-466 | what a split does to every point: its text offset stays, and its position moves on by two tags if it lies behind the cut |
| Splitting.SplitCarries | game_manage/src/main/webapp/matrix/js/wysihtml5-0.3.0.js:460-466 | the same for points given by node and offset, with the one child index that shifts |
| BoundarySplits.SplitBoundaries | game_manage/src/main/webapp/matrix/js/wysihtml5-0.3.0.js:1711-1736 | splitBoundaries keeps the document text, the text offsets of both boundaries and their order, also in one shared text node and with the end in the start text's parent; no boundary is left strictly inside a text node; it makes one new node for each boundary that was, and no other |
| BoundarySplits.SplitContent | game_manage/src/main/webapp/matrix/js/wysihtml5-0.3.0.js:460-466 | a split changes neither the text nor the formatting of any character |
| NodeSplits.SplitNodeAt | game_manage/src/main/webapp/matrix/js/wysihtml5-0.3.0.js:6401-6426 | terminates for every descendant point; the original keeps what is before the point, the returned next sibling has the rest, and the rest of the tree is unchanged; the text nodes of the two halves are those of the element, but for one that the point cuts, which becomes two that are not empty |
| NodeSplits.SplitResult | game_manage/src/main/webapp/matrix/js/wysihtml5-0.3.0.js:6401-6426 | the same from the resulting document: the texts of the two halves are the old text cut at the point, the right half has the shape of the tree from the point on, and the document text is unchanged |
| NodeSplits.AdjustedParts | game_manage/src/main/webapp/matrix/js/wysihtml5-0.3.0.js:6384-6409 | whatever the point: the text nodes of the two halves, with their identities and data, are those of the element, or one more if the point lies strictly inside a text |
| NodeSplits.SplitElement | game_manage/src/main/webapp/matrix/js/wysihtml5-0.3.0.js:6413-6424 | the loop that moves the children of an element from an index on to its clone |
| Formatting.StatusPut | game_manage/src/main/webapp/matrix/js/wysihtml5-0.3.0.js:6478-6488 | exchanging a subtree changes the formatting of its own characters alone |
| Formatting.InheritsWay | game_manage/src/main/webapp/matrix/js/wysihtml5-0.3.0.js:6478-6488 | a node inherits the formatting just when some element on the way to it is accepted |
| Formatting.AddClassKeeps | game_manage/src/main/webapp/matrix/js/wysihtml5-0.3.0.js:6340-6353 | addClass keeps the name and, in their order, exactly the classes that are not similar, and puts the wanted one last |
| Formatting.HasClassExactly | game_manage/src/main/webapp/matrix/js/wysihtml5-0.3.0.js:6331-6338 | an element has the class just when the class is on it and no similar one follows |
| Formatting.AcceptsExactly | game_manage/src/main/webapp/matrix/js/wysihtml5-0.3.0.js:6478-6488 | so which elements an applier accepts |
| Formatting.OtherStays | game_manage/src/main/webapp/matrix/js/wysihtml5-0.3.0.js:6340-6353 | an applier none of whose classes is similar accepts an element after addClass just when it did before |
| HtmlApplier.GetAncestorWithClass | game_manage/src/main/webapp/matrix/js/wysihtml5-0.3.0.js:6478-6488 | finds an element just when the node is formatted, and then an accepted element at or above it |
| HtmlApplier.ApplyToTextNode | game_manage/src/main/webapp/matrix/js/wysihtml5-0.3.0.js:6580-6591 | the characters of the text node become formatted, no other character changes, and every valid range stays valid; the element around it is its old parent with its name and all classes that are not similar, or a new one with the first name; no character gets or loses a format that has nothing to do with this one |
| HtmlApplier.SelectedSpan | game_manage/src/main/webapp/matrix/js/wysihtml5-0.3.0.js:6620-6652 | the text nodes of a range hold exactly the characters between two text offsets |
| HtmlApplier.FormatNodes | game_manage/src/main/webapp/matrix/js/wysihtml5-0.3.0.js:6637-6642 | the loop formats exactly the characters of the given text nodes |
| HtmlApplier.FormatRange | game_manage/src/main/webapp/matrix/js/wysihtml5-0.3.0.js:6632-6652 | splitting and formatting leave the text unchanged and format, besides what was formatted, exactly one span of characters, and leave unrelated formats alone; if the range meets a text node, it ends at the start of a text node and the end of one, which hold the first and the last of these characters |
| HtmlApplier.OnlySelectedChange | game_manage/src/main/webapp/matrix/js/wysihtml5-0.3.0.js:6620-6652 | every selected character becomes formatted; no unselected character changes just when no unformatted text node is touched by the start at its end or by the end at offset 0 |
| HtmlApplier.UnselectedFormatted | game_manage/src/main/webapp/matrix/js/wysihtml5-0.3.0.js:6620-6652 | a paragraph of the texts "a" and "b" with the range from behind the "a" to behind the "b": however it is formatted, the unselected "a" gets formatted |
| Surround.InsertNodeAtPosition | game_manage/src/main/webapp/matrix/js/wysihtml5-0.3.0.js:735-749 | puts a new node, or the nodes of a fragment, between two children, splitting a text at the point if need be, and changes nothing else; returns the first of them |
| Surround.SpotStands | game_manage/src/main/webapp/matrix/js/wysihtml5-0.3.0.js:735-749 | between the two children is the point itself, or is one tag of its text away |
| Surround.Inserted | game_manage/src/main/webapp/matrix/js/wysihtml5-0.3.0.js:735-749 | the text of the nodes comes in at the text offset of the point, and exactly their nodes are added |
| Surround.EmptyInserted | game_manage/src/main/webapp/matrix/js/wysihtml5-0.3.0.js:735-749 | an empty element changes neither the text nor the formatting of any character, and stands at the text offset of the point |
| Surround.CanSurroundContents | game_manage/src/main/webapp/matrix/js/wysihtml5-0.3.0.js:1693-1705 | looking at the first and last node is enough to find out whether a boundary cuts an element |
| Surround.CutExactly | game_manage/src/main/webapp/matrix/js/wysihtml5-0.3.0.js:1693-1705 | a boundary cuts an element just when some element of the document holds one boundary and not the other |
| Surround.SurroundContents | game_manage/src/main/webapp/matrix/js/wysihtml5-0.3.0.js:1293-1315 | fails, changing nothing, just when a boundary cuts an element; else the element loses its children, the text is unchanged, exactly the selected characters stand under the element, formats outside it stay, and the range ends right in front of and right behind it |
| RangeApplier.SelectNode | game_manage/src/main/webapp/matrix/js/wysihtml5-0.3.0.js:6688-6707 | an empty element gets an invisible space, and the range selects the content of the node or stands at its end; behind an empty text node it stands outside, if the setters do not refuse |
| RangeApplier.ApplyToRange | game_manage/src/main/webapp/matrix/js/wysihtml5-0.3.0.js:6620-6652 | for a range that is not collapsed the text is unchanged and exactly the painted span gets the formatting, on every path, and the range ends at the text offsets of that span, around text nodes if it met any; outside the span unrelated formats stay; a collapsed range gets one formatted invisible space at its place, and ends behind it, and no other character changes its format |
| RangeApplier.TextKeptUnlessCollapsed | game_manage/src/main/webapp/matrix/js/wysihtml5-0.3.0.js:6620-6652 | corollary of the two outcomes of ApplyToRange: the document text is unchanged just when the range was not collapsed |
| UndoManagers.UndoManager.Transact | game_manage/src/main/webapp/matrix/js/wysihtml5-0.3.0.js:7828-7844 | records an edit; afterwards the entry at the position is the content |
| UndoManagers.UndoManager.Undo | game_manage/src/main/webapp/matrix/js/wysihtml5-0.3.0.js:7846-7855 | records the last edit and goes one entry back, if there is one |
| UndoManagers.UndoManager.Redo | game_manage/src/main/webapp/matrix/js/wysihtml5-0.3.0.js:7857-7864 | goes one entry forward, if there is one |
| UndoManagers.RunRefines | game_manage/src/main/webapp/matrix/js/wysihtml5-0.3.0.js:7722-7727 | over every run the history and its position are a bounded undo stack and a redo stack, 1 <= position <= history length <= 41 |
| UndoManagers.TransactedRefines | game_manage/src/main/webapp/matrix/js/wysihtml5-0.3.0.js:7828-7844 | recording an edit drops exactly the redo part, and beyond 40 entries the oldest one |
| UndoManagers.RecordExactly | game_manage/src/main/webapp/matrix/js/wysihtml5-0.3.0.js:7828-7844 | what recording does to the two stacks, with the bound as a number |
| UndoManagers.FortyUndos | game_manage/src/main/webapp/matrix/js/wysihtml5-0.3.0.js:7828-7855 | after any number of different edits exactly the last 40 entries before the current one can be undone |
| UndoManagers.UndoneRefines | game_manage/src/main/webapp/matrix/js/wysihtml5-0.3.0.js:7846-7855 | an undo is a pop after recording, the content is the new top, and a redo undoes the pop |
| UndoManagers.RedoneRefines | game_manage/src/main/webapp/matrix/js/wysihtml5-0.3.0.js:7857-7864 | a redo is the inverse of a pop, and a pop after it brings the stacks back |
| UndoManagers.UndoThenRedo | game_manage/src/main/webapp/matrix/js/wysihtml5-0.3.0.js:7846-7864 | k undos that each move, and then k redos, bring back the content and the recorded history |
| UndoManagers.MovesAreVisible | game_manage/src/main/webapp/matrix/js/wysihtml5-0.3.0.js:7828-7864 | neighbouring entries differ, so every undo that moves changes the content |
| UndoManagers.RedoForgetsEdit | game_manage/src/main/webapp/matrix/js/wysihtml5-0.3.0.js:7857-7864 | corollary of the body of redo, which does not look at the content: an edit that was not recorded is lost |
| WriteBuffers.WriteBuffer.WriteObject | buffer_base/src/com/cellsgame/common/buffer/WriteBuffer.java:298-359 | appends the encoding of the value; an object of an unknown class raises an exception and leaves what was written so far |
| WriteBuffers.WriteBuffer.WriteStr | buffer_base/src/com/cellsgame/common/buffer/WriteBuffer.java:62-178 | compact tags for lengths 0 to 25 and 32, else the string tag and the length |
| WriteBuffers.WriteBuffer.WriteMap | buffer_base/src/com/cellsgame/common/buffer/WriteBuffer.java:185-197 | table tag, size, and key and value of every entry |
| WriteBuffers.WriteBuffer.WriteSet | buffer_base/src/com/cellsgame/common/buffer/WriteBuffer.java:199-209 | a set is written as a table with the keys 1, 2, ... |
| WriteBuffers.WriteBuffer.WriteItems | buffer_base/src/com/cellsgame/common/buffer/WriteBuffer.java:224-260 | lists and arrays of boxed elements |
| WriteBuffers.WriteBuffer.WriteEach | buffer_base/src/com/cellsgame/common/buffer/WriteBuffer.java:233-279 | primitive arrays, written as the boxed or list form |
| WriteBuffers.ObjectToBytes | buffer_base/src/com/cellsgame/common/buffer/Helper.java:127-133 | returns the encoding just for values of known classes |
| ReadBuffers.ReadBuffer.ReadObject | buffer_base/src/com/cellsgame/common/buffer/ReadBuffer.java:74-248 | reads what the decoding says and moves the cursor by as much, also when it raises an exception; terminates on all bytes |
| ReadBuffers.ReadBuffer.ReadStringImpl | buffer_base/src/com/cellsgame/common/buffer/ReadBuffer.java:250-256 | empty for lengths up to 0, else that many bytes through the charset |
| ReadBuffers.ReadBuffer.ReadItems | buffer_base/src/com/cellsgame/common/buffer/ReadBuffer.java:121-158 | the element loop of lists and arrays, with the cast of every element |
| ReadBuffers.ReadBuffer.ReadEntries | buffer_base/src/com/cellsgame/common/buffer/ReadBuffer.java:106-115 | the entry loop of tables, with HashMap.put |
| ReadBuffers.ObjectFromBytes | buffer_base/src/com/cellsgame/common/buffer/Helper.java:177-182 | reads one object from the front |
| Decoding.Dec | buffer_base/src/com/cellsgame/common/buffer/ReadBuffer.java:74-248 | on every byte sequence reading fails, or consumes at least one byte and no more than there are |
| Wire.NumbersBack | buffer_base/src/com/cellsgame/common/buffer/Helper.java:16-34 | little-endian ints, longs and doubles come back |
| Wire.CompactLength | buffer_base/src/com/cellsgame/common/buffer/Type.java:21-47 | the 27 compact tags are one-to-one with the lengths 0 to 25 and 32 |
| Utf8.WellFormedExactly | buffer_base/src/com/cellsgame/common/buffer/ReadBuffer.java:250-256 | the bytes called well-formed are exactly the encodings of sequences of Unicode scalar values (section 3 of RFC 3629) |
| WireFormat.NumberBytes | buffer_base/src/com/cellsgame/common/buffer/Helper.java:13-34 | ints, longs and doubles: lowest byte first, two's complement |
| WireFormat.ScalarCodes | buffer_base/src/com/cellsgame/common/buffer/Type.java:4-47 | the bytes of every value without parts, with the tags as numbers |
| WireFormat.ContainerCodes | buffer_base/src/com/cellsgame/common/buffer/Type.java:4-47 | the bytes of lists, arrays, maps and sets: tag, number of elements, and the elements one after the other |
| WireFormat.UnknownTags | buffer_base/src/com/cellsgame/common/buffer/ReadBuffer.java:74-248 | which first bytes are refused, with the tags as numbers |
| WireFormat.BadNumbers | buffer_base/src/com/cellsgame/common/buffer/ReadBuffer.java:74-158 | what a missing or negative number behind the tag leads to, tag by tag |
| RoundTrip.RoundTrip | buffer_base/src/com/cellsgame/common/buffer/WriteBuffer.java:298-359 | for every supported value with scalar map keys and any bytes behind it, reading what was written returns the normal form and leaves exactly those bytes |
| Contents.StringsBack | buffer_base/src/com/cellsgame/common/buffer/ReadBuffer.java:140-149 | an array of nulls and well-formed strings comes back, and the bytes behind it are left |
| Contents.IntegersBack | buffer_base/src/com/cellsgame/common/buffer/ReadBuffer.java:121-130 | and one of nulls and Integers |
| Contents.LongsBack | buffer_base/src/com/cellsgame/common/buffer/ReadBuffer.java:131-139 | and one of nulls and Longs |
| Contents.OtherClassRefused | buffer_base/src/com/cellsgame/common/buffer/ReadBuffer.java:121-149 | an element of any other class raises ClassCastException, right behind that element |
| Contents.PrimitivesBack | buffer_base/src/com/cellsgame/common/buffer/WriteBuffer.java:233-287 | arrays of ints and longs come back as boxed arrays, of booleans as a list, and dates as strings |
| Contents.SetsBack | buffer_base/src/com/cellsgame/common/buffer/WriteBuffer.java:199-209 | sets come back as maps from 1, 2, and so on |
| Contents.MapsBack | buffer_base/src/com/cellsgame/common/buffer/ReadBuffer.java:106-115 | maps from null, booleans, Integers, Longs and strings to such values come back |
| Contents.PutExactly | buffer_base/src/com/cellsgame/common/buffer/ReadBuffer.java:106-115 | HashMap.put: the first equal key keeps its place and its form and gets the new value, and a new key comes last |
| Contents.KeysEqual | buffer_base/src/com/cellsgame/common/buffer/ReadBuffer.java:106-115 | when the objects that the reader builds are equal as keys |
| RoundTrip.RoundTripExact | buffer_base/src/com/cellsgame/common/buffer/ReadBuffer.java:74-248 | for every supported value whatever its keys: the normal form comes back just when no map has two equal keys in its normal form |
| RoundTrip.ReadAfterWrite | buffer_base/src/com/cellsgame/common/buffer/ReadBuffer.java:74-248 | without any condition on keys: what is read is the normal form with its maps built again by put |
| RoundTrip.DateKeyLost | buffer_base/src/com/cellsgame/common/buffer/WriteBuffer.java:337-339 | a map with a date and the date's text as keys loses an entry |
| Encoding.EncNorm | buffer_base/src/com/cellsgame/common/buffer/WriteBuffer.java:199-287 | sets, primitive arrays, boolean arrays and dates are written exactly as their normal forms |
| Encoding.NormSupported | buffer_base/src/com/cellsgame/common/buffer/WriteBuffer.java:298-359 | the normal form consists of classes that the reader builds |
| Reencoding.OnlyReads | buffer_base/src/com/cellsgame/common/buffer/ReadBuffer.java:74-256 | what is read depends on the consumed bytes alone |
| Reencoding.CutOffRefused | buffer_base/src/com/cellsgame/common/buffer/ReadBuffer.java:74-256 | no proper prefix of an accepted message is accepted |
| Reencoding.ReadIsGood | buffer_base/src/com/cellsgame/common/buffer/ReadBuffer.java:74-256 | what is read from a well-formed message can be written, in no more bytes than were consumed |
| Reencoding.Reencode | buffer_base/src/com/cellsgame/common/buffer/ReadBuffer.java:74-256 | an accepted message with well-formed strings, written again, is read as the same value and is not longer |
| Reencoding.StrictAgrees | buffer_base/src/com/cellsgame/common/buffer/ReadBuffer.java:250-256 | a message without malformed strings means the same to every charset that reads well-formed bytes as they are |
| IterationOrder.ReencodeInAnyOrder | buffer_base/src/com/cellsgame/common/buffer/ReadBuffer.java:106-115 | the same in any iteration order of the maps, for scalar keys |
| IterationOrder.TableFreeBytes | buffer_base/src/com/cellsgame/common/buffer/WriteBuffer.java:224-359 | what was written for a value without sets and maps is written byte for byte again after reading |
| ConnectorGroups.ConnectorGroup.GetBinding | game_gateway/src/main/java/com/cellsgame/gateway/ConnectorGroup.java:93-102 | returns the first connector with the least load, whose counter no other one is below; if it is active its counter grows by one, however many entries of the list share it, and no other counter changes |
| ConnectorGroups.ConnectorGroup.AddConnection | game_gateway/src/main/java/com/cellsgame/gateway/ConnectorGroup.java:72-81 | takes a connector in only if it has the destination of the first one |
| ConnectorGroups.ConnectorGroup.RemoveConnection | game_gateway/src/main/java/com/cellsgame/gateway/ConnectorGroup.java:83-86 | removes the first occurrence |
| ConnectorGroups.RemovedExactly | game_gateway/src/main/java/com/cellsgame/gateway/ConnectorGroup.java:83-86 | which leaves everything before and behind it |
| ConnectorGroups.Registry.AddConnector | game_gateway/src/main/java/com/cellsgame/gateway/ConnectorGroup.java:31-37 | adds to the group of the game server, creating it if needed, also a connector that is in it already, and changes no other group |
| ConnectorGroups.Registry.RemoveConnector | game_gateway/src/main/java/com/cellsgame/gateway/ConnectorGroup.java:39-45 | removes from the group of the game server, and changes no other group |
| ConnectorGroups.Registry.DistributeConnector | game_gateway/src/main/java/com/cellsgame/gateway/ConnectorGroup.java:47-57 | null for a missing or empty group, else the group's binding |
| ConnectorGroups.ConnectorAttachment.IncrementSession | game_gateway/src/main/java/com/cellsgame/gateway/ConnectorAttachment.java:31-33 | the counter grows by one |
| ConnectorGroups.FirstMin | game_gateway/src/main/java/com/cellsgame/gateway/ConnectorGroup.java:93-96 | the least load, and the first of those |
| ConnectorRuns.SpreadBound | game_gateway/src/main/java/com/cellsgame/gateway/ConnectorGroup.java:93-102 | with T threads that take the minimum and increment in two interleaved steps, no two loads in any reachable state differ by more than T, and the loads add up to the finished bindings |
| ConnectorRuns.SpreadReached | game_gateway/src/main/java/com/cellsgame/gateway/ConnectorGroup.java:93-102 | for every T and two or more connectors some run reaches the difference T |
| ConnectorRuns.BindTimes | game_gateway/src/main/java/com/cellsgame/gateway/ConnectorGroup.java:93-102 | calls of GetBinding one after the other on active connectors are a run with one thread: the loads add up to the number of calls and differ by at most one |
| MaskedInputs.MaskedInput.constructor | game_manage/src/main/webapp/matrix/js/masked.js:7 | a fresh buffer has the literals of the mask and placeholders in the slots |
| MaskedInputs.PositionsExactly | game_manage/src/main/webapp/matrix/js/masked.js:7 | the characters of a mask are its positions, but for question marks |
| MaskedInputs.MaskedInput.SeekNext | game_manage/src/main/webapp/matrix/js/masked.js:7 | the next slot |
| MaskedInputs.MaskedInput.SeekPrev | game_manage/src/main/webapp/matrix/js/masked.js:7 | the previous slot |
| MaskedInputs.MaskedInput.ShiftLeft | game_manage/src/main/webapp/matrix/js/masked.js:7 | pulls characters to the left until one does not fit, and keeps the buffer valid |
| MaskedInputs.MaskedInput.ShiftRight | game_manage/src/main/webapp/matrix/js/masked.js:7 | pushes characters to the right until one does not fit, and keeps the buffer valid |
| MaskedInputs.MaskedInput.KeyDown | game_manage/src/main/webapp/matrix/js/masked.js:7 | backspace and delete, with and without selection; literals and accepted characters are kept |
| MaskedInputs.MaskedInput.KeyPress | game_manage/src/main/webapp/matrix/js/masked.js:7 | typing a character, with and without selection; literals and accepted characters are kept |
| Masks.PushedKeeps | game_manage/src/main/webapp/matrix/js/masked.js:7 | pushing keeps literals, and every slot on the placeholder or an accepted character |
| Masks.PulledKeeps | game_manage/src/main/webapp/matrix/js/masked.js:7 | pulling keeps them as well |
| Masks.TypingMoves | game_manage/src/main/webapp/matrix/js/masked.js:7 | with one test for all slots: a typed character comes in front of the run of characters from its slot on, which moves on by one slot into the gap behind it, and everything else stays; in a full buffer the last one is lost |
| Masks.ErasingMoves | game_manage/src/main/webapp/matrix/js/masked.js:7 | what erasing a span of slots does to the characters behind it: a run moves up, until a gap |
| Masks.ErasingKeeps | game_manage/src/main/webapp/matrix/js/masked.js:7 | the characters behind a selection are kept just when it has a slot or no character follows |
| Masks.LiteralErases | game_manage/src/main/webapp/matrix/js/masked.js:7 | the mask with a dash between two digits, "1-2" and the dash selected: erasing leaves "1-" and a placeholder |
| MaskedInputs.TypeThenBackspace | game_manage/src/main/webapp/matrix/js/masked.js:7 | with one test for all slots: backspace after typing restores the buffer just when the characters from the slot on have a gap to move into and no character right behind that gap |
| MaskedInputs.GapFreeRestored | game_manage/src/main/webapp/matrix/js/masked.js:7 | which is so in every buffer without gaps that is not full |
| MaskedInputs.FullBufferLoses | game_manage/src/main/webapp/matrix/js/masked.js:7 | and in no full buffer: there the last characters are lost |
| MaskedInputs.SecondDigitLost | game_manage/src/main/webapp/matrix/js/masked.js:7 | two slots for digits with "12": typing "3" in front and backspace leave "1" and a placeholder |
| CreditCards.CreditCard | game_manage/src/main/webapp/matrix/js/jquery.validate.js:1061-1084 | accepts just the texts of digits, blanks and dashes whose digits have a Luhn sum (Annex B of ISO/IEC 7812-1) divisible by ten |
| CreditCards.SumIsFromRight | game_manage/src/main/webapp/matrix/js/jquery.validate.js:1067-1084 | the sum the loop computes is that of the digits from the right, every second one doubled, beginning with the second |
| CreditCards.DigitsExactly | game_manage/src/main/webapp/matrix/js/jquery.validate.js:1067-1084 | the digits of a text are those of its characters, one after the other |
| CreditCards.SingleDigitChange | game_manage/src/main/webapp/matrix/js/jquery.validate.js:1073-1084 | any change of one digit of an accepted number is rejected |
| CreditCards.AdjacentSwap | game_manage/src/main/webapp/matrix/js/jquery.validate.js:1073-1084 | a swap of two different neighbours is accepted just for 0 and 9 |
| Sliders.AlignInRange | game_manage/src/main/webapp/matrix/js/jquery.ui.custom.js:5953-5974 | if at most half a step is left behind the last whole one, aligned values stay in the interval |
| Sliders.InRangeExactly | game_manage/src/main/webapp/matrix/js/jquery.ui.custom.js:5953-5974 | and only then |
| Sliders.AlignMonotone | game_manage/src/main/webapp/matrix/js/jquery.ui.custom.js:5953-5974 | under the same condition alignment keeps the order of values |
| Sliders.AlignIdempotent | game_manage/src/main/webapp/matrix/js/jquery.ui.custom.js:5953-5974 | and does not move aligned values |
| Sliders.AlignNearest | game_manage/src/main/webapp/matrix/js/jquery.ui.custom.js:5953-5974 | whatever the step, a value in the interval goes to a grid point at most half a step away, and up from the middle between two |
| Sliders.WholeStepsStay | game_manage/src/main/webapp/matrix/js/jquery.ui.custom.js:5953-5974 | values that are whole steps away from the minimum do not move, but to the ends of the interval |
| Sliders.Slider.Move | game_manage/src/main/webapp/matrix/js/jquery.ui.custom.js:5761-5788 | for all options, _slide stops one handle at the other one, aligns it, and drops a slide that changes nothing or is refused |
| Sliders.SlideMoves | game_manage/src/main/webapp/matrix/js/jquery.ui.custom.js:5761-5788 | a refused slide changes nothing, and an allowed one shows its handle at the aligned target, at most at the other handle on a range, and moves no other handle |
| Sliders.SlideKeepsOrder | game_manage/src/main/webapp/matrix/js/jquery.ui.custom.js:5761-5788 | if at most half a step is left, a slide keeps the handles in order |
| Sliders.RunKeepsOrder | game_manage/src/main/webapp/matrix/js/jquery.ui.custom.js:5761-5788 | and so does every run of slides |
| Sliders.OrderKeptExactly | game_manage/src/main/webapp/matrix/js/jquery.ui.custom.js:5761-5788 | with any other step some slide breaks the order: all slides keep it just when at most half a step is left |

## Left out

Of the editor:
- Selections, iframes, toolbar, native range wrappers, event wiring and timers are browser calls; the HTML sanitizer depends on the browser's parser.
- Comment, CDATA and document type nodes; read-only nodes and hierarchy errors raised by the browser; detached ranges and range events.
- Documents and fragments are elements named `#document` and `#document-fragment`.  Of the program's own check of a range (lines 1108-1123), which refuses ranges outside documents and fragments, the model keeps what the proofs need: the root of the range's tree is not a text.
- DomRange.Range.Perform: selectNode of a parentless element or text, which leaves the real range with null containers, is not modelled.
- Documents.Document.InsertBefore: like InsertAfter and AppendChild for nodes that are new to the document; the browser's call with a node that is in a tree is MoveBefore (MoveAfter, MoveInto).
- Surround.InsertNodeAtPosition: the node is new to the document; a node that is in a tree already, which the browser would move, is modelled in `MoveBefore`, `MoveAfter` and `MoveInto` only.
- Surround.SurroundContents: the element is new to the document, or has been taken out of it.
- Element attributes other than the class; splitNodeAt's removal of the id attribute is not visible.  Tag names are lower case.
- Class names are lists of tokens, and the applier's regular expression is a test on single tokens.
- `iterateSubtree` cannot be stopped by its callback, because none of the modelled callbacks returns false.
- `HTMLApplier.postApply` merging (normalisation is off), `undoToRange`, `insertNode`, `cloneContents`, `containsRange`, `normalizeBoundaries`.
- RangeApplier.ApplyToRange: all parentless trees are taken to have an element, document or fragment as root; exceptions that the browser raises while surrounding are not modelled.
- innerHTML is modelled as far as `selectNode` needs it: whether it is empty or the invisible space, and setting it to a text.
- UndoManager: the composer gives back the value that was set; the real one may normalise the HTML.  Key and context-menu handling is left out.

Of the codec:
- IoBuffer is a byte sequence and a cursor; strings are their UTF-8 bytes, doubles their 64 bits, dates the text the formatter gives.  Running out of memory on a huge announced length is not modelled.
- What Java makes of malformed UTF-8 is a parameter, of which only is required that well-formed bytes are read as they are.
- A map keeps its entries in the order in which they were put; that any other order does as well is `IterationOrder`.  Arrays are keys by identity, so two read arrays are never equal keys.
- `read_table` (Hashtable), `read_bytes`, `write_table` for lists, and the file methods.

Of the gateway:
- Releases, removal and inactive connectors during a run are outside the spread bound, and taking the minimum is one step.  Counters do not wrap around.
- Networking, handshake and reconnect.

Of the widgets:
- Masked input: `checkVal`, the escape key, and the DOM.  A selection, its caret and typing are values passed in and out.
- Card check: the test whether the field is optional.
- Slider: rounding to five decimals, sliders with a single value, and the DOM.  Numbers are exact.
