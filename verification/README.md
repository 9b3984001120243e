# StreamField block tree, modelled in Dafny

The `StreamField` component of dnd-streamfield-playground edits an ordered
forest of blocks. Each block is a record `{id, title, type, closed, children}`,
and each block owns its ordered `children` list. The component addresses a
block by an index path from the root list. It can move a block up or down
among its siblings, duplicate it (the "+" buttons use the same edit), delete
it, open or close it, and drag it from one list into another. The
drag-and-drop library names each list by a droppable ID. The ID is `"root-"`
followed by the list's path, with the indices joined by `"-"`. `onDragEnd`
parses the ID back into a path.

This model represents the forest as an immutable `Block` datatype with
`seq<Block>` children. Each edit is a pure function from the old forest to the
new one. The in-place `splice` calls of the source become the three list edits
in `Splice`. The in-place mutation of a nested list becomes `Tree.SetListAt`,
which rebuilds the blocks along the path. Every edit is stated through its
effect on one list: `Tree.OnlyListChanged` says the rest of the forest is
unchanged. There is one exception, a drop between two lists neither of which
contains the other. That drop is stated as two such writes, which commute.
The `SetListAt*` lemmas spell out what a write leaves alone:

- lists aside from the edited one keep their contents;
- on the lists above it, only the `children` of the one block on the way
  down change;
- lists below it are those of the new list.

`Tree.ForestSize` counts blocks. It serves as an invariant across edits:

- moving or toggling a block keeps the count;
- duplicating a block adds the size of its subtree;
- deleting a block removes the size of its subtree.

Block ids are not unique. A duplicate keeps the id of its original, so
`Delete` is stated as the loss of one list element (one occurrence in the
list's multiset), not as the disappearance of an id.

Files: `wrappers.dfy` (Option), `splice.dfy` (list edits), `tree.dfy` (blocks,
paths, lookup and update, frame and size lemmas), `droppable_id.dfy` (ID
encoding and parsing), `stream_field.dfy` (the store's operations),
`examples_forest.dfy` (worked examples on small forests).

## Model

| member | source | states |
|---|---|---|
| `StreamField.GetBlock` | src/index.js:222-235 | The walk along a valid path returns nothing for the empty path. For a block path it returns the list that holds the block and the block at the last index. The list a drop lands in is the block's children, or the root list when there is no block. |
| `Tree.ListAtConcat` | src/index.js:229-233 | Following `q` and then `s` is valid exactly when following `q + s` is valid, and both reach the same list. |
| `Tree.BlockPathValid` | src/index.js:229-233 | A non-empty path is valid exactly when its parent path is valid and its last index falls inside the parent list. The list it reaches is then that block's children. |
| `Tree.ValidPrefix` | src/index.js:229-233 | Every prefix of a valid path is valid. |
| `Tree.NodeAt` | src/index.js:231 | The block a path names. Its children are the list the path reaches. |
| `Tree.SetListAt` | src/index.js:224-232 | Replacing the list at `q` leaves `q` valid, and `q` then reaches exactly the new list. |
| `Tree.SetListAtSame` | src/index.js:224-232 | Writing back the list already at `q` changes nothing. |
| `Tree.SetListAtTwice` | src/index.js:224-232 | A second write to the same list overrides the first. |
| `Tree.SetListAtBelow` | src/index.js:224-232 | After the write, paths below `q` reach the lists of the new list. |
| `Tree.SetListAtAside` | src/index.js:224-232 | A list whose path is neither a prefix nor an extension of `q` is still reachable and unchanged. |
| `Tree.SetListAtAbove` | src/index.js:224-232 | On each list above `q`, only the block on the way down changes, and only in its `children`. |
| `Tree.SetListAtConcat` | src/index.js:224-232 | Writing the list at `q + s` is writing the list at `q` with its own list at `s` replaced. |
| `Tree.SetListAtDeeper` | src/index.js:224-232 | After a write below `q`, the list at `q` is the old one with that deeper write applied. |
| `Tree.SetListAtBelowOverridden` | src/index.js:224-232 | A write to the list at `q` overrides an earlier write below it. |
| `Tree.SetListAtMerged` | src/index.js:224-232 | A write below `q` after a write at `q` merges into that first write. |
| `Tree.SetListAtCommute` | src/index.js:258-259 | Writes to two lists where neither contains the other can be made in either order. |
| `Tree.SetListAtSize` | src/index.js:224-232 | Replacing a list changes the block count by the difference between the new list's count and the old one's. |
| `Splice.Remove` | src/index.js:307 | `splice(i, 1)`: one element shorter. Elements before `i` are kept, later ones shift left by one, and the multiset loses exactly `s[i]`. |
| `Splice.Insert` | src/index.js:301 | `splice(i, 0, x)`: one element longer, with `x` at `i`. Elements before `i` are kept, later ones shift right by one, and the multiset gains exactly `x`. |
| `Splice.Relocate` | src/index.js:286 | Same length and same multiset, with the moved element at its target. Elements outside the range between source and target are kept, and those in the range shift by one towards the source. |
| `Splice.RemoveInserted` | src/index.js:298-309 | Removing the element just inserted restores the list. |
| `Splice.RelocateBack` | src/index.js:286 | Relocating an element back to where it came from restores the list. |
| `Splice.RelocateNeighbour` | src/index.js:286 | A relocation by one place exchanges the two neighbours. |
| `Splice.CopyBeforeIsCopyAfter` | src/index.js:301 | Inserting a copy of `s[i]` before it gives the same list as inserting it after it. |
| `StreamField.Move` | src/index.js:279-288 | If `index + offset` lies outside the list, the forest is unchanged. Otherwise the parent list is a permutation of itself of the same length, with the block at `index + offset`. Nothing outside the parent list changes, and the block count is kept. |
| `StreamField.MoveUp` | src/index.js:290-292 | The first sibling does not move. Any other block trades places with the sibling before it, and nothing else changes. |
| `StreamField.MoveDown` | src/index.js:294-296 | The last sibling does not move. Any other block trades places with the sibling after it, and nothing else changes. |
| `StreamField.MoveUpThenDown` | src/index.js:290-296 | Moving a block down after moving it up restores the forest. |
| `StreamField.Duplicate` | src/index.js:298-303 | The parent list grows by one. The elements at `i` and `i+1` both equal the original, earlier elements are kept, and later elements shift right by one. Nothing else changes, and the count grows by the size of the block's subtree. |
| `StreamField.Add` | src/index.js:275-277 | The "+" after a block performs the duplicate edit. The list that results is the list with a copy inserted after the block. |
| `StreamField.AddToEnd` | src/index.js:193-198 | The "+" on a non-empty list appends a copy of its last block, and nothing else changes. |
| `StreamField.Delete` | src/index.js:305-309 | The parent list shrinks by one. Earlier elements are kept, later ones shift left by one, and its multiset loses exactly the block. Nothing else changes, and the count drops by the size of the block's subtree. |
| `StreamField.DeleteUndoesDuplicate` | src/index.js:298-309 | Deleting a block right after duplicating it restores the forest. |
| `StreamField.SetClosed` | src/index.js:263-273 | The named block becomes the same record with only `closed` set. Every other element of its list, and everything outside that list, is unchanged. The count is kept. |
| `StreamField.Open` | src/index.js:263-267 | The block is open afterwards, and it differs from before in nothing else. Its list keeps its length and every other element, and nothing outside the list changes. |
| `StreamField.Close` | src/index.js:269-273 | The block is closed afterwards, and it differs from before in nothing else. Its list keeps its length and every other element, and nothing outside the list changes. |
| `StreamField.CloseIdempotent` | src/index.js:269-273 | Closing twice is closing once. |
| `StreamField.OpenUndoesClose` | src/index.js:263-273 | Opening a block that was open before it was closed restores the forest. |
| `StreamField.RebaseAfterRemoval` | src/index.js:253-259 | There is no destination exactly when the destination list lies inside the dragged block. Otherwise the rebased path has the same length as the original. |
| `StreamField.RebaseReachesSameList` | src/index.js:253-259 | After the removal, the rebased path reaches the list that the destination path reached before it. The exception is the source list or one of its ancestors, whose path stays the same. |
| `StreamField.Reorder` | src/index.js:253-260 | A drop keeps the block count. A drop into the dragged block's own subtree loses exactly that subtree. The five `Reorder*` case lemmas below cover every pair of source and destination lists: the same list, unrelated lists, an ancestor list, a list in a sibling's subtree, and a list in the dragged block's own subtree. Each states the whole resulting forest. |
| `StreamField.ReorderWithinList` | src/index.js:258-259 | A drop within one list relocates the block to the clamped destination index. The list is a permutation of itself, and nothing else changes. |
| `StreamField.ReorderWrites` | src/index.js:253-259 | A drop with a destination is exactly two writes. First the source list loses the block. Then the list at the rebased path gains it at the clamped index. |
| `StreamField.ReorderBetweenLists` | src/index.js:253-259 | A drop between two lists where neither contains the other gives the source list with the block removed and the destination list with the block inserted at the clamped index. The result is exactly these two writes, in either order. So lists beside both are unchanged, and on the lists above them only the children of the blocks on the way down differ. |
| `StreamField.ReorderToAncestorList` | src/index.js:253-259 | A drop into a list that contains the source list inserts the block at the clamped index. The entry on the way down to the source list keeps its place, or moves one right when the insertion lands at or before it. Only its `children` change. Those children are the entry's old children with only the source list rewritten, and the source list has lost the block. Nothing outside the destination list changes. |
| `StreamField.ReorderIntoSiblingSubtree` | src/index.js:253-259 | A drop into a list inside a sibling of the dragged block removes the block from its list. The sibling on the way down keeps its index, or moves one left when it came after the block. Only its `children` change. Those children are the sibling's old children with only the destination list rewritten, and the destination list has the block inserted at the clamped index. Nothing outside the source list changes. |
| `StreamField.ReachThroughMovedEntry` | src/index.js:253-259 | When an entry of a list moves to another index of the replacement list, every list below it is reached through the new index and is unchanged. |
| `StreamField.ReorderIntoOwnSubtree` | src/index.js:253-259 | A drop into a list inside the dragged block removes the block from its list, and its subtree leaves the forest. |
| `StreamField.OnDragEnd` | src/index.js:237-261 | A drop with no destination, or a cancelled drag, leaves the forest unchanged. A drop within one list permutes that list and changes nothing else. After a drop within one list, the block sits at the destination index, clamped to the last position. Any drop not into the block's own subtree keeps the block count. |
| `StreamField.OnDragEndOfRenderedIds` | src/index.js:186-259 | A drop reported with the droppable IDs that the lists were rendered with is resolvable. It performs the drop on the paths those lists were rendered from. |
| `DroppableId.NatToString` | src/index.js:160 | An index prints as a non-empty string of digits, with a leading zero only for 0 itself. |
| `DroppableId.JoinIndices` | src/index.js:187 | `path.join("-")` is empty exactly for the empty path, and consists only of digits and separators. |
| `DroppableId.Split` | src/index.js:248 | `split("-")` gives at least one piece, and no piece contains a separator. |
| `DroppableId.JoinSplit` | src/index.js:248 | Joining the pieces of a split with `"-"` gives the string back. |
| `DroppableId.ParseAll` | src/index.js:249 | `map(Number)` yields one index per piece, each the value of its piece. It fails only when some piece is not a string of digits. |
| `DroppableId.Decode` | src/index.js:242-250 | The result is the empty path exactly for the bare `"root-"`. Any ID that decodes starts with `"root-"`. |
| `DroppableId.Encode` | src/index.js:186-187 | An ID starts with `"root-"`. It is exactly `"root-"` for the root list. |
| `DroppableId.ParseNatToString` | src/index.js:249 | `Number` recovers an index from its decimal text. |
| `DroppableId.ParseSplitJoin` | src/index.js:246-249 | Splitting joined indices at `"-"` and parsing the pieces returns the indices. |
| `DroppableId.DecodeEncode` | src/index.js:242-250 | `droppableIdToPath` recovers every path from the ID that line 187 builds for it (prefix and separator from lines 6-7), including the empty path, whose ID is `"root-"`. |
| `DroppableId.EncodeInjective` | src/index.js:186-190 | Distinct lists get distinct droppable IDs. |

## Left out

- React rendering of blocks and lists, refs, and the `setTimeout` height
  animations in `open` and `close`. The model keeps only the state edit each
  of these triggers.
- `preventDefault` and `stopPropagation` on the action buttons. This is DOM
  event wiring.
- The drag-and-drop library's contract. The model does not include its type
  scoping: each list's droppable type is its own ID, so in the running widget
  a drop lands in the list it started from. The model treats any source and
  destination pair of valid paths as possible, so it also covers drops
  between lists and drops into the dragged block's own subtree. The drag
  result is a parameter, and the library guarantees that its source index
  names an existing block. That guarantee is a precondition in the model.
- The deep copy through `JSON.stringify`/`JSON.parse`. A copy of an immutable
  value equals the original.
- Object identity. The source finds a block's index with `indexOf` by
  reference. No block object occurs twice in the tree, so the model uses the
  last path index instead. The source mutates nested lists that its previous
  state shares, after a shallow `slice` of the root list. The model has no
  sharing: each edit returns a new forest.
- Out-of-range paths, for which the source throws on `block.children`. Every
  operation requires a valid path. `AddToEnd` requires a non-empty list,
  because the source's `blocks.length - 1` names no block otherwise.
- `DroppableId.Decode`: it returns `None` for an ID that lacks the `"root-"`
  prefix, or that has a segment with a non-digit character. `Number` would
  yield `NaN` or accept signs, spaces and exponents in such a segment.
  An empty segment parses as 0, as `Number("")` does.
- The 50-block sample forest and the `ReactDOM.render` bootstrap.
  `examples_forest.dfy` uses small forests instead.
