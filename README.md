# rte.js editing core in Dafny

This project models the document-editing logic of `rte.js`, a small rich-text
editor that runs inside an iframe. The model covers:

- the backspace controller (`deletePreviousNode`, with `getPreviousNode`,
  `cleanEditor` and `nodeLen`);
- the selection sanitizer (`sanitize`);
- the bold toggle (`toggleBoldLogic`, `checkNode`, `containsRteSpanClass`,
  `isBold`, `isBoldDecorativeTag`);
- the horizontal-rule command (`insertHRLogic`);
- the caret-position count (`getCharacterCaretPosition`);
- the editor's state record (`class Rte`).

The host document is an arena (`Dom.Tree`):

- Nodes are numbered.
- An element lists its children by number, and a parent map gives every
  attached node its parent.
- A rank that strictly decreases from parent to child witnesses that the
  parent chains are finite.
- `Dom.Valid` states that the arena is a forest: parent and child links agree,
  and no element lists a child twice.

Node identity is number equality, as the source compares nodes with `==`.

Boundary points and ranges follow sections 5.2 and 5.5 of the DOM Living
Standard. A point is ordered by its key: the root of its tree, the child
indices down to its node, then its offset. `Text.splitText` follows section
4.11, and the TreeWalker calls follow section 6.2.

Every host mutation the core performs is a function from tree to tree, and each
is proved to keep `Valid` and to change only what it should:

- `removeChild`;
- `splitText`;
- `replaceChild` with a new span;
- wrapping a node in a new span;
- setting `style.fontWeight`;
- `appendChild` of a new element.

The operations that loop or update variables step by step are methods proved
against specification functions, and the object whose fields its setters
update is a class:

| operation | method | specification |
|---|---|---|
| `getPreviousNode` | `GetPreviousNode` | `PreviousNode` |
| `cleanEditor` | `CleanEditor` | `Cleaned` |
| the walker descent | `Descent` | `Descend` |
| `getCharacterCaretPosition` | `GetCharacterCaretPosition` | `CaretPosition` |
| `checkNode` and its loop | `BoldWalk.CheckNode`, `CheckChildren` and `CheckChild` | `Classify`, `ToggleNode`, `Visited` and `Within` |
| `toggleBoldLogic` | `BoldWalk.CheckRange` and `ToggleBoldLogic` | `ChildrenVisited` and `Within` |
| `class Rte` | `RteState.Rte` | its getters |

The host's exceptions are explicit results rather than crashes:

- `Option.None` in `DeletePreviousNode`, `Sanitize` and `GetCharacterCaretPosition`;
- `Status.Thrown` in `BoldWalk.CheckNode` and `BoldWalk.ToggleBoldLogic`; the
  latter takes the selection's first range as an `Option`, `None` being the
  selection with no range on which `getRangeAt(0)` throws.

The code and its own comment disagree once. The comment at rte.js:468 says
that when no suitable target is found the handler does nothing and only stops
the host's back navigation. By then `cleanEditor(editor)` (rte.js:444) has
already run, so empty DIV children of the editor are removed even in that case.
The model follows the code: `Backspace.DeletePreviousNode` returns the cleaned
tree there.

## Model

| member | source | states |
|---|---|---|
| Dom.NodeLen | rte.js:594-598 | the length of a text node's data for a text node, the number of children for any other node; a function, so nothing changes |
| Dom.PreviousSibling | rte.js:448 | `previousSibling`: the entry before the node in its parent's child list, or none when the node is first or detached |
| Dom.Ancestors | rte.js:515-524 | the parent chain the climb walks: it starts at the node, each entry is the parent of the one before, and it ends at a node with no parent |
| Dom.IndexUnique | rte.js:463 | a child sits at exactly one index of its parent's child list, so `childNodes[i]` and the index of a node agree |
| Boundary.LexCmpZero | rte.js:191-193 | two boundary keys compare equal exactly when they are the same point |
| Boundary.LexCmpFlip | rte.js:191-193 | comparing the other way round negates the result |
| Boundary.LexCmpTrans | rte.js:191-193 | the order of boundary points is transitive, strictly where one step is strict |
| Boundary.CompareBoundaryPoints | rte.js:192-193 | START_TO_START, START_TO_END, END_TO_END and END_TO_START compare the points section 5.5 of the DOM Living Standard names: this range's start or end with the source range's start or end |
| Boundary.NodeRange | rte.js:189-190 | `selectNode(n)`: the range from the point just before `n` in its parent to the point just after it |
| Boundary.NodeRangeOrdered | rte.js:189-190 | the start of a node's range comes strictly before its end |
| Boundary.CommonAncestor | rte.js:182 | `commonAncestorContainer`: an inclusive ancestor of both ends that every common inclusive ancestor is an ancestor of; none exactly when the ends are in different trees |
| Backspace.ClimbCases | rte.js:513-527 | the climb returns `null` exactly when no node from the start up has a previous sibling and no parent passed on the way is the editor |
| Backspace.ClimbStops | rte.js:513-527 | otherwise it stops at the first ancestor that has a previous sibling, returning that sibling, or at the editor, returning the editor |
| Backspace.PreviousNode | rte.js:513-527 | `getPreviousNode` returns the node's previous sibling when it has one, and `null` only when no inclusive ancestor of the node has a previous sibling and no proper ancestor is the editor |
| Backspace.PreviousNodeCases | rte.js:513-527 | the converse: `getPreviousNode` returns `null` exactly in that case |
| Backspace.GetPreviousNode | rte.js:513-527 | the loop over `prev` and `parent` returns what the climb specification gives |
| Backspace.KeptIsSubsequence | rte.js:534-541 | the children `cleanEditor` keeps stay in their original relative order |
| Backspace.KeptMembers | rte.js:537-538 | only empty DIVs are removed: every other child is kept, and every kept node was a child |
| Backspace.KeptNoEmptyDiv | rte.js:535-540 | when no two empty DIVs are adjacent, no empty DIV survives the pass |
| Backspace.SecondEmptyDivSurvives | rte.js:535-538 | because the index advances after a removal, the second of two adjacent empty DIVs survives |
| Backspace.Cleaned | rte.js:534-541 | after the pass the tree is valid, the editor lists the kept children, removed children are detached, and no other node's record changes |
| Backspace.CleanEditor | rte.js:534-541 | the in-place index loop yields exactly `Cleaned` |
| Backspace.ChildOrSelf | rte.js:463-466 | `childNodes[offset]` when that child exists, otherwise the node itself |
| Backspace.Target | rte.js:445-469 | the descent's start: a node of the tree other than the editor, or none where the handler returns `false` |
| Backspace.TargetIsPreviousSibling | rte.js:457-466 | at offset 0 with a previous sibling, the target is that sibling, because `nodeLen(prev)` names no child |
| Backspace.ClimbReachesEditor | rte.js:516-522 | when no inclusive ancestor below the editor has a previous sibling, the climb returns the editor |
| Backspace.TargetAtStart | rte.js:449-453 | at the start of the editor's first content the handler stops before the descent |
| Backspace.Descend | rte.js:472-490 | the walker descent keeps the tree valid and ends at a node of the tree |
| Backspace.DescendEnds | rte.js:475-490 | the descent ends at a descendant of its start. Either that node has no children and nothing changed, or its last child was rejected by the filter and is the one node removed |
| Backspace.Descent | rte.js:487-489 | the `while (walker.lastChild())` loop yields what `Descend` specifies |
| Backspace.PickTarget | rte.js:445-469 | the steps that choose the target return what `Target` specifies |
| Backspace.RemoveIfEmpty | rte.js:491-502 | returns `true` with no change exactly when the target has text; otherwise removes the target and returns `false`, or throws when it is detached |
| Backspace.DeletePreviousNode | rte.js:427-503 | three early returns with the tree unchanged: `true` when not collapsed, `false` without a focus node, `true` inside text past its start. Otherwise the editor is cleaned; `false` with no further change when no target is found; then the descent, and `true` exactly when the final target has text, else it is removed and the result is `false` |
| Edit.Detach | rte.js:501 | `removeChild`: the node leaves its parent's list at its index and becomes a root; nothing else changes; the tree stays valid |
| Edit.SplitText | rte.js:245 | `splitText(offset)`: the node keeps the data before the offset, the new node gets the rest, the two concatenate to the original data, and the new node is placed right after the old one when there is a parent |
| Edit.SplitTextFrame | rte.js:245 | the split changes only the split node, the new node and the parent's child list, where the new node sits at the old one's index plus one |
| Edit.SetFontWeight | rte.js:196-197 | `style.fontWeight = w` changes that one field of that one element and no child list |
| Edit.WrapInSpan | rte.js:216-222 | a new span takes the node's place among its parent's children and holds it as its only child; everything else is kept |
| Edit.ReplaceWithSpan | rte.js:199-203 | a new span of the given weight takes the element's place and receives its children; the element is left detached |
| Edit.AppendElement | rte.js:367 | `appendChild` of a new element puts it last among the parent's children and changes nothing else |
| Sanitizer.SplitPoint | rte.js:245 | how a split moves a live boundary point: into the new node past the offset, one index on in the parent past the split node, otherwise unchanged |
| Sanitizer.SplitRangeValid | rte.js:245-250 | both ends of a live range stay valid across a split, and an end that was not in text stays out of text |
| Sanitizer.SplitKeeps | rte.js:245-249 | a split keeps every other node's kind and keeps attached nodes attached, so the second half sees the node the first left |
| Sanitizer.SetStart | rte.js:246 | setting the start (section 5.5 of the DOM Living Standard): the new start is taken, and the end follows it when it would otherwise come before it |
| Sanitizer.SetEnd | rte.js:250 | setting the end: the new end is taken, and the start follows it when it would otherwise come after it |
| Sanitizer.Before | rte.js:246 | the point just before a node in its parent; none, where the host throws, when the node has no parent |
| Sanitizer.SanitizeStart | rte.js:244-247 | a range starting in text: the node is split at the start offset, and the start moves to just before the new tail node in the parent. A start not in text leaves tree and range unchanged |
| Sanitizer.SanitizeEnd | rte.js:248-251 | the same for the end of the range |
| Sanitizer.Sanitize | rte.js:243-253 | a range with no end in text is returned unchanged. With only one end in text, the tree is that node split at that end's offset, that end lies just before the new tail node in the split node's parent, and the other end is where the split moved it (or, where the setter collapsed the range, the same point). Every element keeps its text content. Unless a split text node is detached, neither end of the result is in a text node and the result is ordered |
| Edit.SplitKeepsText | rte.js:245 | a split leaves the text content of every element unchanged: the head and the new tail node concatenate to the old data in place |
| Bold.ContainsRteSpanClass | rte.js:255-257 | `classList.contains("rte_span")` on an element; never true of a text node, which has no class list |
| Bold.IsBold | rte.js:262-264 | `style.fontWeight == "bold"` on an element; never true of a text node, which has no `style` |
| Bold.IsBoldDecorativeTag | rte.js:266-268 | the node name is STRONG or B; never true of a text node, whose name is `#text` |
| Bold.ClassifyKeys | rte.js:191-230 | the tests of `checkNode` on boundary keys, as intended (END_TO_START for the disjoint-after test): contained when the range starts at or before the node and ends at or after it, disjoint when it ends at or before the node's start or starts at or after its end |
| Bold.Classify | rte.js:189-193 | the two tests as intended; a node is contained only by a range whose start comes strictly before its end |
| Bold.ClassifyAsWritten | rte.js:226-229 | the tests as written agree with the intended ones on containment, and call disjoint every node the intended tests call disjoint, and more (see Findings) |
| Bold.AsWrittenKeys | rte.js:227-229 | the second test as written compares the range's start with the node's start a second time |
| Bold.TypoSkipsSelectedText | rte.js:229 | a paragraph the range crosses, whose first text the range contains, is classified disjoint by the test as written, so that text is not made bold |
| Bold.DisjointChildren | rte.js:227-231 | returning without recursion on a disjoint node is safe: every child of a disjoint node is disjoint too |
| Bold.ChildRangeInside | rte.js:189-190 | the range selecting a child lies strictly inside the range selecting its parent |
| Bold.ToggleNode | rte.js:194-225 | the contained-node branch keeps the tree valid |
| Bold.ToggleWithin | rte.js:194-225 | the contained-node branch changes nothing outside the node's place in its parent |
| Bold.ToggleFlipsWeight | rte.js:195-197 | an `rte_span`, or any other element that is not STRONG or B, keeps everything but its weight and is bold afterwards exactly when it was not bold before |
| Bold.ToggleReplacesTag | rte.js:198-203 | a STRONG or B without `rte_span` gives its place and children to a new span of normal weight |
| Bold.ToggleWrapsText | rte.js:213-222 | an unstyled text node ends up as the only child of a new bold `rte_span` span at the text node's former position |
| Bold.ToggleTwiceRestores | rte.js:195-197 | toggling an in-place element twice restores the tree when its weight was "bold" or "normal" |
| Bold.ToggleTextTwice | rte.js:195-222 | toggling a text node and then its new span leaves a normal `rte_span` holding the text |
| Bold.ToggleVisited | rte.js:194-224 | what the contained-node branch leaves at the node's place: the node itself with its weight flipped and its subtree kept; a new normal-weight span that holds the old children of a STRONG or B, with everything below still below it; or a new bold `rte_span` span holding the unchanged text node |
| Bold.FontWeightWithin | rte.js:196-197 | setting `style.fontWeight` changes nothing outside the node's place in its parent |
| Frame.WithinStep | rte.js:233-235 | a change inside the first `i` children of a node followed by a change at child `i` is a change inside the first `i + 1` children |
| Frame.WithinLift | rte.js:233-235 | changes below the children of a node are changes at the node's place in its parent, and leave the parent's record as it was |
| Frame.LiftKeeps | rte.js:233-235 | a node outside the subtree of a node whose children changed keeps its record and its parent |
| BoldWalk.ChildHeight | rte.js:233-234 | a child is at least one level lower than its parent, so each recursive call has less depth left |
| BoldWalk.HeightSame | rte.js:233-235 | a subtree that earlier turns of the loop left alone has the same height as before |
| BoldWalk.KeyInside | rte.js:189-193 | a boundary point inside an attached node lies strictly between the two points `selectNode` gives that node |
| BoldWalk.EndNotContained | rte.js:191-193 | an attached ancestor of either end of the range is not contained in it |
| BoldWalk.CommonCrossing | rte.js:182-193 | an attached ancestor of both ends is crossed by the range, so the walk searches it rather than toggle or skip it |
| BoldWalk.ContainedChild | rte.js:189-193 | a child of a contained node is contained, so toggling a contained node without visiting its children misses nothing |
| BoldWalk.VisitedChild | rte.js:232-235 | every child of a visited node the range crosses is visited |
| BoldWalk.Reached | rte.js:226-235 | every node below a visited node lies in a contained subtree, is visited itself, or lies in a subtree the walk kept whole |
| BoldWalk.StepVisited | rte.js:233-235 | a turn of the loop keeps the children checked before it visited and leaves the keys of the range's ends unchanged |
| BoldWalk.VisitedTransfer | rte.js:233-235 | a child visited by its own call, on the tree the earlier turns left, is visited with respect to the tree before the loop |
| BoldWalk.VisitedFrame | rte.js:233-235 | a visited node stays visited when a later turn changes only another child's place |
| BoldWalk.CheckNode | rte.js:188-237 | throws exactly when the node is in another tree than the range. Otherwise a contained node is toggled, a disjoint node and a crossing text node are left alone, and changes stay inside the node's place. A normal end leaves the node visited: its place holds the toggled node, or the node with its subtree untouched, or, when the range crosses an element, that element with every child visited. With at least the node's height as fuel, a node in the range's tree ends normally |
| BoldWalk.CheckChildren | rte.js:233-235 | the loop over the live child list changes nothing outside the node's children, and a normal end leaves every original child visited. With at least the node's height as fuel it ends normally in the range's tree |
| BoldWalk.CheckChild | rte.js:234 | one turn of the loop: the change stays inside the first `i + 1` children, and on a normal end the child is visited and the earlier children stay visited |
| BoldWalk.CheckRange | rte.js:182-185 | after the split, the walk over the children of the common ancestor ends normally. It visits every child, changes nothing outside the ancestor, and leaves every node the range misses as it was. With no common ancestor nothing changes |
| BoldWalk.DisjointUntouched | rte.js:226-231 | the toggle stays local: once every child of the common ancestor is visited, every attached node the range misses keeps its record |
| BoldWalk.ToggleBoldLogic | rte.js:179-186 | throws and changes nothing when the selection has no range for `getRangeAt(0)`; throws when the start is in a parentless text node, and ends normally when every end in text is attached. For a range with no end in text: with no common ancestor nothing changes; otherwise changes stay below the ancestor's children, every child is visited, and every node the range misses keeps its record |
| Caret.TextsFrom | rte.js:566-568 | the nodes a `SHOW_TEXT` walker rooted at the node visits: text nodes of the tree, in tree order |
| Caret.AcceptedIsFilter | rte.js:569-574 | the filter accepts a text node exactly when `compareBoundaryPoints(END_TO_END, range)` on its node range is below 1 |
| Caret.Weights | rte.js:580-582 | each visited node adds its length when the filter accepts it and nothing when it rejects it |
| Caret.CaretPosition | rte.js:565-587 | the result throws exactly when the node has text below it and lies in another tree than the range; otherwise it is at least the start offset and at most the length of all text below the node plus that offset |
| Caret.GetCharacterCaretPosition | rte.js:565-587 | the loop's count is the sum of the accepted lengths plus the start offset when the range starts in text; none where the filter's comparison throws |
| Caret.CountAccepted | rte.js:579-582 | the walker loop adds exactly the weights of the text nodes, and throws exactly when one of them is in another tree than the range |
| Caret.CaretOfAll | rte.js:579-586 | when no node is in another tree, the position is the counted total plus the start offset |
| Caret.CaretInRow | rte.js:565-587 | for a caret at offset `o` in the `j`-th of a row of text nodes, the position is the length of the texts before it plus `o` |
| Caret.RowAccepted | rte.js:569-574 | in a row the filter accepts exactly the texts before the caret's |
| HorizontalRule.InsertHRLogic | rte.js:363-368 | a new HR with `contenteditable` "false" and `pointer-events: none` becomes the editor's last child; no other node's record or parent changes |
| HorizontalRule.InsertHRTwice | rte.js:363-368 | two inserts append two rules after the former children, in order |
| HorizontalRule.InsertHRKeepsText | rte.js:363-368 | inserting a rule changes no node's text content |
| RteState.Rte.constructor | rte.js:2-11 | root, width and height are as given; editor, document and command bar are unset |
| RteState.Rte.GetRoot | rte.js:12-14 | returns the `root` the constructor stored |
| RteState.Rte.GetWidth | rte.js:15-17 | returns the `width` the constructor stored |
| RteState.Rte.GetHeight | rte.js:18-20 | returns the `height` the constructor stored |
| RteState.Rte.GetEditor | rte.js:24-26 | returns the editor field, `null` until `setEditor` runs |
| RteState.Rte.GetContentDocument | rte.js:37-39 | returns the document field, `null` until `setContentDocument` runs |
| RteState.Rte.GetCommandArea | rte.js:50-52 | returns the command-bar field, `null` until `setCommandArea` runs |
| RteState.Rte.SetEditor | rte.js:21-23 | `getEditor` returns what was set; every other getter is unchanged |
| RteState.Rte.SetContentDocument | rte.js:31-33 | `getContentDocument` returns what was set; every other getter is unchanged |
| RteState.Rte.SetCommandArea | rte.js:44-46 | `getCommandArea` returns what was set; every other getter is unchanged |
| RteState.Setup | rte.js:1-53 | after the three setters, each getter returns what was set and the construction arguments are kept |

## Left out

- Iframe and editor creation, the toolbar and its buttons (rte.js:60-172 and
  rte.js:274-356): host rendering and UI wiring. The stub handlers that only
  alert or do nothing are left out too: they have no behaviour to state.
- The keydown listener with `preventDefault` and `stopPropagation`
  (rte.js:409-421): event plumbing. Only the boolean result of
  `deletePreviousNode` is modelled.
- `moveCaret` (rte.js:550-557), the empty `getSelection` wrapper
  (rte.js:381-384) and the field-only `Selection` class (rte.js:396-403). Only
  the selection fields the handler reads are kept, as `Backspace.Selection`.
- `console.log` (rte.js:215).
- The `innerHTML` copy in the STRONG/B branch (rte.js:199-203):
  `Edit.ReplaceWithSpan` moves the children into the new span instead of
  serializing and reparsing them. The detached original therefore ends up
  empty rather than keeping copies.
- The live TreeWalker (rte.js:472-490) is modelled as an explicit descent over
  last children. A rejected child is removed and the walk ends there, because
  the removed node has no siblings and no parent left to walk to.
- Mutation in place: each DOM mutation returns a new tree value. Aliasing of
  host objects is therefore not modelled.
- BoldWalk.CheckNode: recursion depth is bounded by a fuel argument.
  `BoldWalk.CheckRange` passes the height of the common ancestor, and the
  contracts prove that the `OutOfFuel` status is then never reached.
- BoldWalk.CheckNode/ToggleBoldLogic: use the intended END_TO_START test at
  rte.js:229, not the literal START_TO_START. The literal test is modelled
  separately by `Bold.ClassifyAsWritten` (see Findings).
- BoldWalk.CheckNode: the walk keeps the range as a fixed value. In the host, a
  live range whose end is at (p, i+1) moves to (p, i) when `replaceChild`
  replaces the child at index i of p. This changes no later classification,
  because every node visited after a contained node is disjoint from the
  range under either end.
- BoldWalk.ToggleBoldLogic: when an end of the range is in text, its contract
  states the outcome (a parentless text start throws, attached text ends end
  normally) and validity, but not the tree. `BoldWalk.CheckRange` states the
  walk for the range `Sanitizer.Sanitize` returns; with one end in text
  `Sanitize` states that tree and range, with both ends in text it does not
  (next line).
- Sanitizer.Sanitize: when both ends are in text, neither the tree nor the
  range is stated as the two splits in sequence. The contract states validity,
  that every element keeps its text content, and that neither end of the
  result is in text and the result is ordered.
- Sanitizer.Sanitize: with one end in text, the other end is stated as either
  where the split moved it or collapsed onto the new end. For an ordered range
  the setter never collapses it; that is not proved.
- Bold.ToggleNode: the text-node case of rte.js:205-209 cannot be reached
  (`isBold` is false on a text node, which has no `style`). It is commented,
  not modelled separately.
- Text lengths: a node's `data` is a Dafny `string`, one `char` per Unicode
  scalar value, where the host's `data.length`, the `splitText` offsets and the
  lengths summed at rte.js:581 count UTF-16 code units (the host gives 2 for
  an emoji, the model 1). No operation of the core looks at individual
  characters, so reading each `char` as one code unit loses no behaviour.
- Integer widths: counts and offsets are unbounded. JavaScript numbers cannot
  overflow on realistic documents.
- RteState.Rte: `width` and `height` are integers, and the content document is
  a `Dom.Tree` value. The host objects they stand for are not modelled.

## Findings

| source | as written | input that shows it | evidently intended | confidence | as-written member | corrected member |
|---|---|---|---|---|---|---|
| rte.js:229 | `range.compareBoundaryPoints(Range.ENDT_TO_START, nodeRange) >= 0`. `Range.ENDT_TO_START` does not exist, so the call receives `undefined`, which converts to 0 = START_TO_START. The test then asks whether the range starts at or after the node's start | an editor DIV holding a paragraph with the texts "a" and "b"; the range runs from offset 0 of the DIV to between the texts, selecting "a". The paragraph is classified disjoint, so "a" is never made bold | `Range.END_TO_START`: disjoint when the range starts at or after the node's end | not executed | Bold.ClassifyAsWritten, Bold.TypoSkipsSelectedText | Bold.Classify, Bold.DisjointChildren |
