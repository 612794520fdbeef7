# Page-builder document tree, in Dafny

This project models the document tree of a drag-and-drop page builder. It
covers the tree itself, the operations that query and rewrite it, and the drag
gesture that combines them. A document is an ordered sequence of root
elements. Each element carries an `id`, a type (`div`, `text`, `image`,
`button`), a map of props, and a children array. Only a `div` gets a children
array.

- `elements.dfy`, module `Elements`:
  - the element datatype (`Node`, with `Children = NoChildren | ChildList(nodes)`);
  - the preorder walk (`Preorder`, `Ids`, `Tags`) and the lookup that every search is specified by (`Lookup`: the first node in depth-first preorder carrying an id);
  - well-formedness (`UniqueIds`, `ChildrenOnDivs`, `WellFormed`);
  - the facts about these that the other modules share.
- `arraymove.dfy`, module `ArrayMoves`: `arrayMove` of `@dnd-kit/sortable`. It cuts one item out and splices it back in, and indices are normalised the way `Array.prototype.splice` does it.
- `settings.dfy`, module `SettingsPanel`: the settings panel's single-key props merges (`handleChange`, `toggleStyle`) and its controls.
- `app.dfy`, module `App`:
  - the App component's pure helpers: `addToParent`, `updateRecursive` and `findById`, the last as a loop method;
  - its state, the class `AppState` with the fields `elements` and `selectedId`, updated by `AddElement`, `UpdateElement` and `SelectElement`.
- `canvas.dfy`, module `Canvas`:
  - the canvas's tree helpers: `removeElementById`, `insertElementInto`, `updateText`, `reorderInArray`, `updateInTree` and the drag-end logic;
  - its handlers, as methods that replace `AppState.elements`.

Each `setElements`/`setSelectedId` call is an assignment to a field of `AppState`. The generated id of a new element (`Date.now().toString()`) is a parameter, `freshId`, and must not occur in the document yet.

The code has no error results, never clears the selection when the selected node is removed, has no `field` element type, and has no general move operation. The model adds none of them.

Whole-document statements are made on the preorder tags of a document (`Tags`). A node's tag is its id, type, props, whether it has a children array, and its number of children. `Elements.TagsDetermine` proves that the preorder tags determine the document. An equation between tag sequences therefore fixes every node: its place, its props and its children.

## Model

| member | source | states |
|---|---|---|
| `Elements.Lookup` | src/App.js:86-95 | The specification of every search: nothing is found exactly when no node at any depth carries the id; otherwise the node found is in the document and carries the id. `FirstWithIdIsFirst` adds that it is the first such node in preorder. |
| `Elements.FirstWithIdIsFirst` | src/components/Canvas.js:60-69 | The search finds nothing exactly when no node in the preorder carries the id. Otherwise it returns the node at some position k that carries the id, and no node before k carries it. |
| `Elements.LookupUnique` | src/App.js:86-95 | With unique ids, any node of the document carrying the id is the node the search returns. |
| `Elements.PermutationKeepsNodes` | src/components/Canvas.js:114-119 | Root sequences that are permutations of each other hold the same multiset of nodes and of ids, at every depth. |
| `Elements.PermutationKeepsWellFormed` | src/components/Canvas.js:114-119 | Permuting the roots keeps the node count, and keeps the document well-formed, in both directions. |
| `ArrayMoves.ArrayMove` | src/components/Canvas.js:115-119 | Same length and a permutation of the input. Result position k holds the input item `MoveSource(k, from, to)`: the moved item lands at the target, and the items in between shift by one. Indices are normalised as splice does, with the target taken from the full length. |
| `ArrayMoves.ArrayMoveInPlace` | src/components/Canvas.js:114-119 | Moving an item onto its own position leaves the array unchanged. |
| `ArrayMoves.ArrayMoveIsNotSwap` | src/components/Canvas.js:114-119 | Array-move, not swap semantics: moving A onto C in [A, B, C] gives [B, C, A]. |
| `ArrayMoves.ArrayMoveMissingSource` | src/components/Canvas.js:117 | A `findIndex` result of -1 as the source moves the LAST item to the target position. |
| `SettingsPanel.HandleChange` | src/components/SettingsPanel.js:10-18 | Same id, type and children. The keys are the old keys plus `field`, `props[field]` is the new value, and every other key keeps its value. |
| `SettingsPanel.ToggleStyle` | src/components/SettingsPanel.js:20-23 | Sets `props[field]` to the boolean negation of the current value's truthiness, and changes nothing else. |
| `SettingsPanel.ToggleAbsentFlag` | src/components/SettingsPanel.js:20-23 | An absent flag becomes `true`. |
| `SettingsPanel.ToggleTwice` | src/components/SettingsPanel.js:20-23 | Toggling a flag that holds a boolean twice gives back the original element. |
| `SettingsPanel.HandleChangeLastWins` | src/components/SettingsPanel.js:10-18 | Two changes of the same field keep only the last value. |
| `SettingsPanel.ParseIntDecimal` | src/components/SettingsPanel.js:74-79 | `parseInt` of the decimal text of a size option gives back that size. |
| `SettingsPanel.Apply` | src/components/SettingsPanel.js:29-104 | Each control the panel offers keeps the element's id, type and children, adds only its own key, and keeps every other props key. The value written is: the typed text for text, title and background color; the chosen font or alignment option; the chosen size as an integer (`parseInt` of the option's text gives the size back); and, for bold, italic and underline, the negation of the current value's truthiness. |
| `App.NewElement` | src/App.js:11-20 | The new element has the given id and type and no children, and it has a children array exactly when it is a div. |
| `App.NewElementDefaults` | src/App.js:11-20 | A new element has the given id and type and exactly the props text, backgroundColor and fontFamily. Text is "טקסט חדש" for text, "כפתור" for button and "" otherwise. The other two are "#ffffff" and "inherit". Its children are `[]` exactly for a div. |
| `App.NewElementWellFormed` | src/App.js:11-20 | A new element is a one-node well-formed document whose only id is its own. |
| `App.AddToParent` | src/App.js:36-47 | The number of roots stays. The lemmas below carry the rest: `AddToParentIsUpdate`, `AddToParentSplices`, `AddToParentIds` and `AddToParentWellFormed`. |
| `App.AddToParentNoTarget` | src/App.js:36-47 | Without a div carrying the parent id, the document is unchanged. |
| `App.AddToParentAppends` | src/App.js:36-47 | When the first node carrying the parent id is a div, that node now has the new element as its last child, after its old children in order. |
| `App.AddToParentKeepsRoots` | src/App.js:36-47 | The roots keep their positions, ids, types and props. A root whose subtree has no target div is unchanged. `AddToParentSplices` states the frame at every depth. |
| `App.AddToParentIsUpdate` | src/App.js:36-47 | With unique ids and a div n carrying the parent id, adding is replacing n, wherever it sits, by n with the new element appended to its children. |
| `App.AddToParentSplices` | src/App.js:36-47 | With unique ids and a div n carrying the parent id, n sits at some preorder position k. In the whole document, only n's tag changes (it gains one child), and the tags of the new element's subtree enter right after n's old subtree. Every tag before n and after its subtree stays. |
| `App.AddToParentIds` | src/App.js:36-47 | With unique ids, the ids of the new element's subtree are added exactly once if the target div exists, and nothing is added otherwise. |
| `App.AddToParentContains` | src/App.js:36-47 | If the target div exists, the new element is in the document afterwards. |
| `App.AddToParentChildrenOnDivs` | src/App.js:36-47 | Only divs have children arrays before, and so also after. |
| `App.AddToParentWellFormed` | src/App.js:36-47 | Adding a well-formed element with fresh ids keeps the document well-formed. The count grows by the element's size exactly when the target div exists. |
| `App.UpdateRecursive` | src/App.js:49-59 | The number of roots stays. The lemmas below carry the rest: `UpdateRecursiveSplices`, `UpdateRecursiveRetags`, `UpdateRecursiveIds` and `UpdateRecursiveReplaces`. |
| `App.UpdateRecursiveAbsent` | src/App.js:49-59 | An id that no node carries leaves the document unchanged. |
| `App.UpdateRecursiveReplaces` | src/App.js:49-59 | After the update, the search for the id finds the new node itself (wholesale replacement, no merge). |
| `App.UpdateRecursiveKeepsRoots` | src/App.js:49-59 | The roots keep their positions and ids. A root whose subtree lacks the id is unchanged. `UpdateRecursiveSplices` states the frame at every depth. |
| `App.UpdateRecursiveSplices` | src/App.js:49-59 | With unique ids, the node n carrying the id sits at some preorder position k. Replacing it replaces exactly n's stretch of preorder tags by the tags of the new node's subtree. Every tag before and after that stretch stays, so every node outside n's subtree is unchanged. |
| `App.UpdateRecursiveIds` | src/App.js:49-59 | With unique ids, the replaced node's subtree ids leave the document, the new node's subtree ids enter it, and all other ids stay. |
| `App.UpdateRecursiveRetags` | src/App.js:49-59 | With unique ids, replacing a node by one with the same children changes only that node's tag in the preorder tags. Because the tags determine the document, every other node, at any depth, is unchanged and in its place. |
| `App.UpdateRecursiveKeepsShape` | src/App.js:49-59 | Replacing a node by one of the same type with the same children keeps the id sequence and well-formedness. |
| `App.PanelEditChangesOnlyThatField` | src/App.js:49-59 | A settings-panel change to the selected node, passed to `updateElement`, changes only that node's `props[field]`: the preorder tags differ only in that node's props, which fixes every other node. The document stays well-formed. |
| `App.FindById` | src/App.js:86-95 | The loop returns the first preorder match, and returns nothing for a null selection. |
| `App.AppState.constructor` | src/App.js:7-8 | Starts with an empty document and no selection. |
| `App.AppState.AddElement` | src/App.js:10-34 | The document stays well-formed and grows by one node, found by the fresh id with the default props. A div, or any element when the selection is not a div, is appended at the root. Otherwise the element becomes the selected div's last child. The new element is selected. |
| `App.AppState.UpdateElement` | src/App.js:49-59 | The document becomes `updateRecursive` of the old one, and the selection is untouched. An unknown id changes nothing. A replacement with the same type and children as the node it replaces keeps the document well-formed. |
| `App.AppState.SelectElement` | src/App.js:75 | The selection becomes the given id, and the document is untouched. |
| `Canvas.FindElementById` | src/components/Canvas.js:60-69 | The search returns the first preorder match. It returns nothing exactly when no node at any depth carries the id. |
| `Canvas.RemoveById` | src/components/Canvas.js:71-81 | There are no more roots than before, and no root carries the id. `RemoveByIdIsUpdate` and `RemoveByIdSplices` state the frame at every depth; the other lemmas below state what happens to ids, labels and leaves. |
| `Canvas.RemoveByIdGone` | src/components/Canvas.js:71-81 | No node, at any depth, carries the id afterwards. |
| `Canvas.RemoveByIdAbsent` | src/components/Canvas.js:71-81 | Removing an id that no node carries changes nothing. |
| `Canvas.RemoveByIdShrinks` | src/components/Canvas.js:71-81 | The removal never adds an id. |
| `Canvas.RemoveByIdTakesSubtree` | src/components/Canvas.js:71-81 | With unique ids, the removed ids are exactly the ids of the node's whole subtree. |
| `Canvas.RemoveByIdKeepsOrder` | src/components/Canvas.js:71-81 | Without any assumption on ids: the surviving nodes keep their id, type, props and whether they have a children array, and their preorder order. Their labels (tags without the child count) are the original labels with some deleted, selected by a mask. Labels do not fix the nesting; with unique ids `RemoveByIdSplices` does. |
| `Canvas.RemoveByIdSubsequence` | src/components/Canvas.js:71-81 | The same, as a subsequence statement on the preorder labels, for any ids. The nesting is fixed by `RemoveByIdSplices`. |
| `Canvas.RemoveByIdIsUpdate` | src/components/Canvas.js:71-81 | With unique ids, the node n carrying the id is either the i-th root, and the removal is the roots with entry i taken out, or the i-th child of a node p found by its id, and the removal is `updateRecursive` replacing p by p without its i-th child. |
| `Canvas.RemoveByIdSplices` | src/components/Canvas.js:71-81 | With unique ids, in the whole document's preorder tags: n's stretch is gone, and if n has a parent p (whose tag sits at position k), p's child count drops by one. Every other tag stays in place, so every other node keeps its parent and its place among its siblings. For a root n, only the stretch (starting at k) is gone. |
| `Canvas.RemoveByIdKeepsLeaves` | src/components/Canvas.js:73-79 | Every node without children that survives is a node of the original document, unchanged. |
| `Canvas.RemoveByIdWellFormed` | src/components/Canvas.js:71-81 | The removal keeps a document well-formed. |
| `Canvas.InsertElementInto` | src/components/Canvas.js:83-98 | The number of roots stays. `InsertElementIntoIsAddToParent` carries the rest. |
| `Canvas.InsertElementIntoIsAddToParent` | src/components/Canvas.js:83-98 | `insertElementInto` is the same operation as `addToParent`, so all the `AddToParent` facts hold of it, `AddToParentSplices` included. |
| `Canvas.UpdateText` | src/components/Canvas.js:100-111 | The number of roots stays. `UpdateTextIsPanelEdit` and `UpdateTextChangesOnlyText` carry the rest. |
| `Canvas.UpdateTextAbsent` | src/components/Canvas.js:100-111 | An id that no node carries leaves the document unchanged. The explicit `children: undefined` on leaves is the same as no children. |
| `Canvas.UpdateTextIsPanelEdit` | src/components/Canvas.js:100-111 | With unique ids, editing the text on the canvas gives the same document as the panel's text field: `handleChange("text", …)` passed to `updateElement`. |
| `Canvas.UpdateTextChangesOnlyText` | src/components/Canvas.js:100-111 | Only `props.text` of the edited node changes: the preorder tags differ only in that node's props, which fixes every other node and prop. An unknown id changes nothing. The document stays well-formed. |
| `Canvas.IndexOf` | src/components/Canvas.js:117-118 | The first root position carrying the id, or -1 exactly when no root carries it. |
| `Canvas.ReorderInArray` | src/components/Canvas.js:114-119 | A permutation of the same length. The active item lands at the over item's position. With the active id missing, the last item is moved instead. |
| `Canvas.UpdateInTree` | src/components/Canvas.js:121-129 | The number of roots stays. `UpdateInTreeIsUpdate`, `UpdateInTreeSplices` and `UpdateInTreeKeepsIds` carry the rest. |
| `Canvas.UpdateInTreeAbsent` | src/components/Canvas.js:121-129 | Without a node carrying the parent id, the document is unchanged. |
| `Canvas.UpdateInTreeReorders` | src/components/Canvas.js:121-129 | The node carrying the parent id now has its children reordered by `reorderInArray`, and keeps everything else. |
| `Canvas.UpdateInTreeKeepsRoots` | src/components/Canvas.js:121-129 | The root order and every root's tag stay. A root whose subtree lacks the parent id is unchanged. `UpdateInTreeSplices` states the frame at every depth. |
| `Canvas.UpdateInTreeIsUpdate` | src/components/Canvas.js:121-129 | With unique ids, reordering in the tree is replacing the node n carrying the parent id, wherever it sits, by n with its children reordered by `reorderInArray`. |
| `Canvas.UpdateInTreeSplices` | src/components/Canvas.js:121-129 | With unique ids, the node n carrying the parent id sits at some preorder position k. In the whole document, only the tags inside n's subtree change: n keeps its tag, and its children's subtrees follow in the new order. Every tag before n and after its subtree stays. |
| `Canvas.UpdateInTreeKeepsIds` | src/components/Canvas.js:121-129 | The document keeps the same multiset of ids. |
| `Canvas.UpdateInTreeChildrenOnDivs` | src/components/Canvas.js:121-129 | Only divs have children arrays before, and so also after. |
| `Canvas.Reorder` | src/components/Canvas.js:131-135 | The number of roots stays. Among the roots (no parent id) the result is a permutation of them. `ReorderKeepsDocument` carries the rest. |
| `Canvas.ReorderKeepsDocument` | src/components/Canvas.js:131-135 | With or without a parent id, the reorder keeps every node and keeps the document well-formed. |
| `Canvas.DragEnd` | src/components/Canvas.js:138-161 | The handler as written. A drag that does not apply leaves the document as it is. The fallback gives a permutation of the roots left after the removal, so it never brings the dragged node back (`DragEndFallbackLosesActive`). |
| `Canvas.DragEndIgnored` | src/components/Canvas.js:139-142 | A missing or empty id, equal ids, or an unknown active id leave the document unchanged. |
| `Canvas.CutOut` | src/components/Canvas.js:144 | With unique ids, the removal splits the document into the rest and the dragged subtree. Both are well-formed, they share no id, and the active id is gone from the rest. |
| `Canvas.DragEndIntoDiv` | src/components/Canvas.js:144-150 | Dropping onto a div makes the dragged node that div's last child. Every node is kept exactly once and the document stays well-formed. The div is not inside the dragged node, so no cycle is made. |
| `Canvas.DragEndIntoDivSplices` | src/components/Canvas.js:144-150 | Dropping onto a div, in the whole document: next to the document with the dragged subtree removed, only the div's tag changes (one more child), and the dragged subtree's tags enter right after the div's old subtree. Every other tag stays in place. `RemoveByIdSplices` states the removal step itself, so the drop is pinned from the original document. |
| `Canvas.DragEndFallbackLosesActive` | src/components/Canvas.js:152-157 | Finding: in the fallback, the dragged node and its subtree are gone from the result, and the node count drops. |
| `Canvas.DragEndLosesExample` | src/components/Canvas.js:152-157 | Finding, concrete: dragging a onto b among the text roots [a, b, c] gives [c, b]. |
| `Canvas.DragEndFixed` | src/components/Canvas.js:138-161 | The handler with the corrected fallback. A drag that does not apply leaves the document as it is, and the fallback is a permutation of the original roots. |
| `Canvas.RootMove` | src/components/Canvas.js:152-157 | Corrected fallback: a permutation of the roots that puts the active root at the over root's position. It leaves the document unchanged when either is not a root. |
| `Canvas.DragEndFixedKeepsDocument` | src/components/Canvas.js:138-161 | The corrected drag never loses or duplicates a node, and keeps the document well-formed. |
| `Canvas.DragEndFixedExample` | src/components/Canvas.js:152-157 | The corrected drag of a onto b among [a, b, c] gives [b, a, c]. |
| `Canvas.HandleTextChange` | src/components/Canvas.js:100-111 | The document becomes `updateText` of the old one, and stays well-formed. |
| `Canvas.HandleReorder` | src/components/Canvas.js:113-136 | The document becomes the reorder of the old one, with the same ids, and stays well-formed. |
| `Canvas.HandleDragEnd` | src/components/Canvas.js:138-161 | The drag-end handler, with the corrected fallback, applied to the document. The ids are kept and well-formedness is preserved. |

## Left out

- Rendering is not modelled. That covers `ElementBox`, `Sidebar`, the JSX of every component, the panel's "select an element" message, and the dnd-kit sensors, collision detection, sortable context and CSS transforms. Only the `{active, over}` ids that reach `handleDragEnd` are modelled.
- Id generation with `Date.now()` is left out. The id is the parameter `freshId` of `AddElement`, which must not occur in the document, because the code does not ensure uniqueness.
- React's state batching and updater functions are left out. Each setter is a sequential assignment to an `AppState` field.
- `arrayMove` is not part of the repository. `ArrayMoves.ArrayMove` defines it after the published `@dnd-kit/sortable` helper.
- `ArrayMoves.ArrayMove`, `Canvas.ReorderInArray`, `Canvas.UpdateInTree`, `Canvas.Reorder`, `Canvas.HandleReorder`, `Canvas.DragEnd`: each requires a non-empty array wherever `arrayMove` is applied. On an empty array JavaScript's `arrayMove` yields `[undefined]`, which is not an element; for `updateInTree` this is a parent with no or empty children.
- `Canvas.HandleReorder`: `handleReorder` is modelled although no component calls it, because `ElementBox` does not take `onReorder`.
- `Canvas.HandleDragEnd` runs the corrected fallback (`DragEndFixed`). The code as written is `Canvas.DragEnd`; see Findings.
- Props values are strings, integers and booleans. `NaN`, `null` and `undefined` values are not modelled, and neither is `parseInt` of anything but the panel's decimal option values.
- A props key bound to `undefined` is not distinguished from a missing key.
- Leaves carry `children: undefined` after `updateText` and `updateInTree`. This is modelled as no children, which every reader of the tree treats the same way.
- `App.AppState.Valid` covers only the well-formedness of the document. The code never clears `selectedId` when the selected node disappears, so the selection may name a missing node, and the model does not claim otherwise.
- Drag ids are strings. dnd-kit also allows numeric ids, which this program never creates.
- Object identity is not modelled: the model compares elements by value.

## Findings

| source | as written | input that shows it | evidently intended | confidence | as-written member | corrected member |
|---|---|---|---|---|---|---|
| src/components/Canvas.js:152-157 | The fallback looks for the dragged id with `findIndex` in `newTree`, from which that id was already removed, so the index is always -1. `arrayMove` then moves the last root to the drop target's index, and the dragged element and its subtree are lost from the document. | Roots [a, b, c], all text; drag a onto b. The result is [c, b]. | Move the dragged root to the drop target's position among the roots ("move to same level"), keeping every element: [b, a, c]. | not executed | `Canvas.DragEndFallbackLosesActive` | `Canvas.DragEndFixedKeepsDocument` |
