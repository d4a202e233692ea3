# apvlv outline panel (ApvlvContent) in Dafny

apvlv is a PDF/EPUB viewer. Its outline panel (`ApvlvContent`) shows the
content index of what is open: directories, files and pages. It keeps a
Qt tree widget that mirrors the index and works on it in these ways:

- building or merging the tree from the index;
- filtering it with an explicit-stack depth-first walk;
- sorting it level by level from a worklist;
- moving the single selection around;
- searching for the item of a page;
- renaming and deleting files through it.

This project models that panel and proves what each of those operations
does.

The model's parts:

- **Index.** The content index is a value: `Index.FileIndex` holds an
  `Entry` and ordered children.
- **Item tree.** The widget's item tree is a value too. `Tree.Node` holds
  an `Item`, which is an entry plus the hidden, expanded and selected
  flags, and ordered children.
- **Paths.** An item is addressed by its path of child positions from the
  invisible root; `[]` is the invisible root itself.
- **The class.** `Outline.Content` holds the root item tree, the index it
  was built from (`mIndex`) and the sort settings. Its methods are the
  source's methods.
- **Loops.** The source's loops stay loops with invariants:
  - the filter stack;
  - the sort worklist and its take/insert moves;
  - the deselect and expand loops of `setItemSelected`;
  - the scroll loops;
  - the walk up in `treeItemToFileIndex`;
  - the confirmation loop of `onFileDelete`.
- **Specifications.** Each method is proved against a declarative
  specification, with lemmas about that specification:
  - `Reach`/`Final` for filtering;
  - `Level`/`SortNode` for sorting;
  - `Reselected` for selection;
  - `FindAt` for search;
  - `Plan`/`Prune` for deletion.
- **Index pointers.** Each tree item stores a pointer to its index node.
  The model resolves that pointer through the entries of the item and of
  those above it (`Tree.Chain`). At each level it takes the first index
  child with an equal entry (`Index.Locate`). `Tree.ChainLocates` proves
  that this leads back to the node the item was built from whenever
  siblings have distinct entries. Resolving by entries assumes that an
  index node stays where it is when a sibling is removed; see "## Left out".
- **Deletion.** `onFileDelete` removes items in place, one after another.
  - Each later item is found again at its original path, shifted past the
    siblings already removed (`Pruning.Moved`).
  - `Pruning.RemoveMoved` proves that each in-place removal agrees with a
    declarative pruning of the original tree.

Where the code and its description differ, the model follows the code:

- With the ascending flag set, the sort uses `std::ranges::greater`, so
  keys decrease. Without it, the sort uses `less`.
- The sort is not stable, so only order and permutation are promised.
- A directory with a single child is not descended into by the sort.
- The modification-time filter compares the stored time with whatever
  number the bound was parsed into (a millisecond count): the bound is a
  plain integer parameter.

## Model

| member | source | states |
|---|---|---|
| Outline.Content.AddIndex | src/ApvlvContent.cc:230-241 | The item at r gains, as its last child, an item tree that mirrors the index node: the node's entry, then one child per index child, in order. Nothing else changes. |
| Outline.Content.AddChildren | src/ApvlvContent.cc:237-240 | The item at r gains one mirrored item tree per index node in cs, appended in order. |
| Outline.Content.RefreshIndex | src/ApvlvContent.cc:244-258 | The index becomes the new one, and the tree becomes the sorted mirror of its children under the same invisible root. |
| Outline.RefreshFacts | src/ApvlvContent.cc:244-258 | After a refresh there is one top-level item per index child. No item is hidden, expanded or selected. Every level the sort reaches is in sort order. |
| Outline.Content.SetIndex | src/ApvlvContent.cc:183-205 | An empty tree or a directory index rebuilds everything. Otherwise a file index is merged into the selected item only when `MergeTarget` finds one: the index node gains the new children and the item gains their mirrors. In every other case nothing changes. |
| Outline.MergeTarget | src/ApvlvContent.cc:192-195 | A merge target exists only when the outline shows a directory, the new index is a file, the selected item's pointer resolves, and it resolves to a file node with no children. |
| Outline.MergeMirrors | src/ApvlvContent.cc:195-202 | After a merge into an item without children, that item's new children read back (`StripAll`) exactly as the index node's new children, which are the merged index's children. |
| Tree.BuildMirrors | src/ApvlvContent.cc:230-241 | The built item tree has exactly the index's positions, each carrying the index's entry with every flag clear. |
| Tree.StripBuild | src/ApvlvContent.cc:230-241 | Reading an item tree back gives the index it was built from. |
| Tree.BuildClear | src/ApvlvContent.cc:232-233 | A freshly built item tree has no hidden, expanded or selected item. |
| Tree.ChainLocates | src/ApvlvContent.cc:286-294 | In a tree built from an index whose siblings have distinct entries, following an item's entry chain from the index root gives back exactly the position the item was built from. |
| Index.Locate | src/ApvlvContent.cc:286-294 | A resolved pointer names a valid index position as deep as the chain, and the node there carries the chain's last entry. |
| Index.EditAt | src/ApvlvContent.cc:585-592 | An in-place edit through a pointer changes exactly the node the pointer resolves to. When the pointer resolves to nothing, the index is unchanged. |
| Index.RemoveChildEffect | src/ApvlvContent.cc:585-592 | removeChild drops exactly one child, the first with the entry, when there is one; otherwise it changes nothing. |
| Outline.Content.FilterItemBy | src/ApvlvContent.cc:311-358 | After the pass, every item's hidden flag is the one `Final` gives and nothing else changes. Items below r are shown exactly when something at or below them is reached by a showing verdict. Items above r are shown when anything below r is. |
| Outline.Content.VisitTop | src/ApvlvContent.cc:322-356 | One round of the loop keeps the walk invariant and strictly lowers the weight of the stack, so the loop ends. |
| Outline.Content.SetVisibility | src/ApvlvContent.cc:329-343 | A matching item is shown with every item above it up to the top level; a non-matching one is hidden. |
| Outline.Content.SetItemChildrenFilter | src/ApvlvContent.cc:360-366 | Every item below r gets the same visibility. The items above r are shown when that visibility is "shown" and r has children; otherwise they keep their flag. |
| Filter.MatchShowsAncestors | src/ApvlvContent.cc:329-339 | An item the pass judges and that matches is shown, and so is every item on its way up to the start of the pass. |
| Filter.HiddenOnlyWithoutMatch | src/ApvlvContent.cc:311-358 | An item stays hidden exactly when neither its own verdict nor any verdict below it shows it. |
| Filter.BlanketChildrenFollowFile | src/ApvlvContent.cc:345-348 | Below a file whose predicate asks for `same_as_file`, every item is shown exactly when the file matched; their own predicates are never consulted. |
| Filter.ConstReach | src/ApvlvContent.cc:360-366 | Under the constant predicate of setItemChildrenFilter, every item below the start gets that constant. |
| Filter.EffOfFree | src/ApvlvContent.cc:327-329 | An item that no `same_as_file` file above it covers is judged by its own predicate. |
| Filter.EffOfBlanket | src/ApvlvContent.cc:345-348 | An item below a `same_as_file` file gets that file's verdict. |
| Filter.Contains | src/ApvlvContent.cc:627-636 | `find(text) != npos` holds exactly when the text occurs somewhere in the title. |
| Filter.KindsOfPredicates | src/ApvlvContent.cc:624-672 | Every predicate except the title filter shows only files and hands its verdict down to a file's children. The title filter never hands its verdict down. |
| Outline.Content.OnFilter | src/ApvlvContent.cc:608-679 | An empty trimmed text shows every item. Otherwise the predicate of the chosen kind runs over the whole tree, and then expandAll expands every item with children whose way from the top level the pass left visible. An unknown kind filters nothing but still expands. |
| FilterStep.ClearingShowsAll | src/ApvlvContent.cc:613-617 | Clearing the filter shows every item and changes no other flag, entry or child count. |
| FilterStep.FilterThenExpand | src/ApvlvContent.cc:624-678 | After a pass over the whole tree followed by expandAll, every item has the pass's hidden flag. It is expanded iff it was expanded, or it has children and the pass hid nothing from the top level down to it. Nothing else changes. |
| Tree.ExpandAllAt | src/ApvlvContent.cc:678 | expandAll keeps every item and every other flag. It expands exactly the items that have children and are reached without passing a hidden item. A hidden item and everything below it are left alone. |
| Outline.Content.SetItemSelected | src/ApvlvContent.cc:207-227 | After the call, p is the only selected item and is collapsed. Every item above p up to the top level is expanded, and nothing else changes. |
| Selection.OnlyOneSelected | src/ApvlvContent.cc:210-223 | After setItemSelected(p), an item is selected iff it is p, and selectedTreeItem finds p. |
| Selection.PathToSelectionOpen | src/ApvlvContent.cc:216-225 | After setItemSelected(p), every item above p is expanded and p is not. No hidden flag or entry changed. |
| Outline.Content.ScrollUp | src/ApvlvContent.cc:435-455 | With a selection not at sibling 0, the sibling at i - n is selected, or sibling 0 when n >= i. A negative n selects a later sibling. Otherwise nothing changes. |
| Navigation.UpTarget | src/ApvlvContent.cc:448-452 | scrollUp's target is a sibling of the selected item. For n >= 0 it is min(n, i) places earlier; for n < 0 it is -n places later. |
| Navigation.NonNegativeInRange | src/ApvlvContent.cc:448-473 | With a non-negative count, both scrollUp and scrollDown pick a sibling that exists. |
| Outline.Content.ScrollDown | src/ApvlvContent.cc:457-475 | With a selection, the sibling at min(i + n, count - 1) under the same parent is selected. A negative n selects an earlier sibling. |
| Navigation.DownTarget | src/ApvlvContent.cc:470-473 | scrollDown's target is a sibling. For n >= 0 it is at min(i + n, count - 1), never before the selected item and never past the last sibling. For n < 0 it is -n places earlier. |
| Outline.Content.ScrollLeft | src/ApvlvContent.cc:477-495 | At the top level nothing changes. Otherwise the item max(n, 1) levels up is selected, stopping at the top level. |
| Navigation.LeftTarget | src/ApvlvContent.cc:487-492 | scrollLeft's target is a proper ancestor of the selected item, below the invisible root, exactly max(n, 1) levels up unless it reached the top level. |
| Outline.Content.ScrollRight | src/ApvlvContent.cc:497-514 | On a leaf nothing changes. Otherwise the item reached by max(n, 1) first-child steps is selected, stopping at a leaf. |
| Navigation.RightTargetFacts | src/ApvlvContent.cc:504-513 | scrollRight's target exists and lies below the selected item through first children only. It is max(n, 1) levels down, or less when a leaf is reached first. |
| Outline.Content.TreeItemToFileIndex | src/ApvlvContent.cc:296-309 | Walking up from an item returns the nearest file item at or above it, or none. |
| Search.NearestFile | src/ApvlvContent.cc:296-309 | The result is a file item at or above q, with no file item between it and q. None means there is no file item on the whole way up to the top level. |
| Outline.Content.CurrentItemFileIndex | src/ApvlvContent.cc:852-857 | Without a selection there is no node. Otherwise the node reached carries the selected item's entry. |
| Outline.Content.CurrentFileFileIndex | src/ApvlvContent.cc:860-865 | The node reached is a file node carrying the entry of the nearest file item at or above the selection. There is none without a selection or without such an item. |
| Search.FindAt | src/ApvlvContent.cc:368-408 | The result is the first item in pre-order at or below q that has the requested kind, page and anchor and the right file path. The search never descends below an item of the requested kind. At the invisible root, which carries no index, nothing is ever found. |
| Search.FindAll | src/ApvlvContent.cc:419-424 | The tree-wide search as intended: the first hit in pre-order over the top-level items, or none when there is no hit anywhere. |
| Search.CurrentTargetAsWritten | src/ApvlvContent.cc:410-433 | As written, setCurrentIndex can only find a page below the selected item. |
| Search.CurrentTarget | src/ApvlvContent.cc:410-433 | The corrected tiers give the first page hit below the selection in pre-order when there is one. Otherwise they give the first page hit in the tree, and otherwise the first file hit. A matching page anywhere is always chosen over a file. None means there is no page hit and no file hit anywhere. |
| Search.AsWrittenMissesPage | src/ApvlvContent.cc:419-424 | For a one-file tree without a selection, the as-written search finds nothing, while the page asked for is there and the corrected search finds it. |
| Outline.Content.SetCurrentIndexAsWritten | src/ApvlvContent.cc:410-433 | Selects the as-written target when there is one, and reports whether it found one. |
| Outline.Content.SetCurrentIndex | src/ApvlvContent.cc:410-433 | Selects the corrected target when there is one, and reports whether it found one. |
| Outline.Content.SelectFirstItemAsWritten | src/ApvlvContent.cc:839-849 | As written, on the as-written setCurrentIndex: selects a matching page below the selected item when there is one, else the first top-level item. An empty tree is left unchanged. |
| Outline.Content.SelectFirstItem | src/ApvlvContent.cc:839-849 | On the corrected setCurrentIndex: selects the current page of the open file when it is found anywhere, preferring one below the selection. Otherwise it selects the matching file item, and otherwise the first top-level item. An empty tree is left unchanged. |
| Outline.Content.SortItems | src/ApvlvContent.cc:681-788 | The subtree at r is replaced by `SortNode` of it: every level the worklist reaches is sorted. |
| Outline.Content.SortLevelAt | src/ApvlvContent.cc:690-783 | One worklist round sorts the children of s as `Level` says. It returns the new paths of the children it pushed: directories with more than one child, in item_list order. |
| Outline.Content.ItemList | src/ApvlvContent.cc:693-700 | item_list is the non-page children, in order, each with its expanded flag. |
| Outline.Content.ToPush | src/ApvlvContent.cc:702-711 | The pushed children are the directories in item_list with more than one child, in item_list order. |
| Outline.Content.Reinsert | src/ApvlvContent.cc:770-784 | The moves leave the sorted item_list in front, followed by the pages in their order. |
| Outline.Content.PlaceItem | src/ApvlvContent.cc:775-782 | One move places item i of the sorted item_list at position i. An item already there is not moved. |
| Outline.Content.MoveChild | src/ApvlvContent.cc:779-781 | takeChild, insertChild and setExpanded move the item and give back its recorded expanded flag. |
| Reinsert.MoveRestore | src/ApvlvContent.cc:779-781 | Detaching collapses the moved item; restoring the recorded flag makes the result a plain move. |
| Reinsert.MoveInPlace | src/ApvlvContent.cc:777 | Moving an item to the place it holds changes nothing. |
| Reinsert.PlaceNext | src/ApvlvContent.cc:775-782 | Item i of the sorted item_list is found at or after position i, and moving it there gives the order with i + 1 items placed. |
| Reinsert.PlacedAll | src/ApvlvContent.cc:771-783 | After the loop come the moved items in item_list order, then the pages in their original order. |
| SortLevel.SortStates | src/ApvlvContent.cc:713-768 | The sorted item_list is a permutation of item_list, and no later element compares before an earlier one. |
| SortLevel.BeforeOrder | src/ApvlvContent.cc:713-768 | The comparison is a strict order: `greater` on the key when the ascending flag is set, `less` otherwise. |
| SortLevel.StrLessTotal | src/ApvlvContent.cc:746-751 | std::string's `<` orders any two different titles. |
| SortLevel.LevelPermutation | src/ApvlvContent.cc:690-783 | A sorted level has the same children, each as often as before, under the same item. |
| SortLevel.LevelOrder | src/ApvlvContent.cc:690-783 | After a level is sorted, the non-page children come first in comparison order, and the pages follow in their original order. |
| SortWalk.LevelInOrder | src/ApvlvContent.cc:690-783 | Every sorted level puts pages after the other items, and the other items in comparison order. |
| SortWalk.SortStep | src/ApvlvContent.cc:688-785 | Sorting a level and then the children it pushed sorts the whole subtree. |
| SortWalk.StackStep | src/ApvlvContent.cc:688-711 | One round keeps the worklist's paths valid and disjoint, and lowers the number of items still to sort. |
| SortWalk.SortNodeSorted | src/ApvlvContent.cc:681-788 | After sortItems every level it reaches is in sort order. |
| SortWalk.SortNodeKeeps | src/ApvlvContent.cc:702-711 | Below a file, a page or a directory with fewer than two children nothing is reordered: such children of the result are children of the original, subtree and all. |
| SortWalk.SortKeepsClear | src/ApvlvContent.cc:770-783 | Sorting leaves every flag as it was on a clear tree: it only moves items and restores their expanded flags. |
| PushOrder.PushedFacts | src/ApvlvContent.cc:702-711 | The pushed children are exactly the non-page directories with more than one child, in increasing original position. |
| Outline.Content.OnFileRename | src/ApvlvContent.cc:516-547 | Nothing changes without a selection, for a non-file, for an empty trimmed name, or when the rename fails. Otherwise the item and its index node take the trimmed name as path and what follows its last '/' as title. |
| Outline.RenameAgrees | src/ApvlvContent.cc:536-540 | After a rename, the item and its index node carry the same entry. Its path is the new name, and its title has no '/' and ends the path. |
| Index.TitleFromPath | src/ApvlvContent.cc:539 | The title is the longest '/'-free end of the path, preceded by a '/' when shorter than the path. |
| Index.TitleOfJoinedPath | src/ApvlvContent.cc:539 | A path made of a directory, '/' and a '/'-free name gets that name as title. |
| Index.TrimmedFacts | src/ApvlvContent.cc:613-614 | Trimming removes exactly the leading and trailing white space, which is every character `QChar::isSpace` accepts, the Unicode space, line and paragraph separators included. The result is empty iff the text was all white space. |
| Index.IdeographicSpaceTrims | src/ApvlvContent.cc:613-617 | A filter text of one ideographic space (U+3000) trims to nothing, so it clears the filter. Separators at either end are stripped, U+2028 included. |
| Outline.Content.OnFileDelete | src/ApvlvContent.cc:549-599 | The tree is the original tree pruned of the deleted items. The index has each deleted item's node removed from its parent node, in order. The removed files are the deleted items' paths, in order. All three follow the dialog decisions `Decisions`. |
| Outline.Content.RemoveItem | src/ApvlvContent.cc:581-597 | Removing an item, found at its shifted path, prunes it from the tree and removes its node from its parent index node. It returns its path. |
| DeletePlan.StepsOfPlan | src/ApvlvContent.cc:557-579 | Non-file items are skipped without a question and never deleted. A file is deleted iff the answer is Yes or YesToAll; No skips just that one. msg_res is never NoToAll inside the loop. |
| DeletePlan.PlanQuestions | src/ApvlvContent.cc:565-573 | A file is asked about exactly when msg_res is No or Yes. The k-th question gets the k-th answer, and an item not asked about keeps msg_res. |
| DeletePlan.PlanStops | src/ApvlvContent.cc:575-576 | The loop ends before the last item only at a file that was asked about and answered NoToAll. |
| DeletePlan.AfterYesToAll | src/ApvlvContent.cc:565-579 | With msg_res YesToAll, the loop asks nothing more, deletes every file and runs to the end. |
| DeletePlan.PlanPrefix | src/ApvlvContent.cc:557-598 | After any number i of steps, the loop is those i steps followed by the loop started at item i, with the questions so far answered and msg_res as step i - 1 left it. |
| DeletePlan.YesToAllToTheEnd | src/ApvlvContent.cc:565-579 | Once a question is answered YesToAll, every later step asks nothing and deletes exactly the files, and the loop reaches the last item. |
| Deletion.YesToAllDeletesRest | src/ApvlvContent.cc:565-597 | After YesToAll, every later selected file is deleted without a question and every later non-file is kept. |
| Deletion.DeletesOnlyFiles | src/ApvlvContent.cc:557-561 | Only selected file items are ever deleted. |
| Deletion.DeletedMembers | src/ApvlvContent.cc:557-594 | An item is deleted iff some step deletes it. |
| Deletion.CleanBeforeStep | src/ApvlvContent.cc:557-559 | When step i is reached, neither the item nor anything above it has been deleted, so its pointer is still valid. |
| Pruning.PruneAt | src/ApvlvContent.cc:581-594 | An item not deleted keeps its item and its pruned subtree at its original path, shifted past the removed siblings. |
| Pruning.KeptInOrder | src/ApvlvContent.cc:593 | Siblings that survive keep their order. |
| Pruning.ChainMoved | src/ApvlvContent.cc:581-594 | Removing other items does not change the entries on the way to an item, so under entry-chain resolution its pointer resolves as before. |
| Pruning.RemoveMoved | src/ApvlvContent.cc:581-594 | Removing an item at its shifted path gives the original tree pruned of that item as well. |
| Pruning.PruneNone | src/ApvlvContent.cc:556-557 | Pruning nothing leaves the tree unchanged. |

## Left out

- Widget, toolbar and context-menu construction, icons and headers are not modelled. Neither is the text formatting of dates and sizes in `setFileIndexToTreeItem`. These are user-interface and locale formatting.
- The filter's bounds are integer parameters of `OnFilter`. They stand for what `QDateTime::fromString` and `parseFormattedDataSize` produce from the text.
- `QInputDialog` is not modelled. The trimmed name is a parameter of `OnFileRename`.
- `QMessageBox::question` is not modelled. The buttons pressed are a parameter of `OnFileDelete`; once they run out, the default button No is assumed.
- Offering only Yes and No to a single selected item is not modelled: any answer is allowed.
- `QFile::rename` is not modelled: its outcome is the `renamed` flag.
- `QFile::remove` is not modelled: the paths handed to it are `OnFileDelete`'s result.
- `QTimer::singleShot` is not modelled, so refreshIndex does not call selectFirstItem.
- `setUpdatesEnabled`, `update`, `scrollToItem` and the frame calls on row activation are not modelled: they only affect drawing.
- The item-to-index pointer is modelled by entry-chain resolution: the first index child with the item's entry, at every level. Siblings with equal entries would resolve to the first of them.
- Mouse-driven extended selection is not modelled. `selectedTreeItem` is taken as the first selected item in pre-order, and `selectedItems` as all selected items in pre-order. Qt's real order is the order of selection.
- `std::ranges::sort` is modelled by a deterministic insertion sort. Only the order and the permutation are promised, so equal keys may come out in another order.
- Outline.Content.SetIndex: requires a selected item when the index is a file merged into a directory outline. The source dereferences the selected item's pointer without a check there.
- Outline.Content.OnFileDelete: requires that no selected item lies below a selected file item. Otherwise the loop later reaches that item through a stale pointer. A top-level file's item is freed with `delete`, together with the items below it. A nested file's item is only detached, but its index node is removed from its parent node, so the index pointers of the items below it dangle. The one caller, the context menu at src/ApvlvContent.cc:822-833, offers Delete only when every selected item is a file, so the requires holds there whenever no file item has a file item below it.
- Pruning.ChainMoved and Outline.Content.OnFileDelete: assume that removing an index node leaves its siblings' nodes where they are. Tree items hold raw pointers into their parent node's child container, whose type is not part of this model. If that container moves the later siblings on removal (as a `std::vector` erase does), a later selected sibling's pointer would name the next node. The source would then remove the wrong node and file, while the model always removes the selected one.
- Outline.Content.ScrollUp: requires that the sibling it picks exists (`UpInRange`). A negative count scrolls down instead, and when i - n is past the last sibling, `parent->child` is null and `setItemSelected` dereferences it. Only a negative count can do that (`NonNegativeInRange`).
- Outline.Content.ScrollDown: requires that the sibling it picks exists (`DownInRange`). A negative count scrolls up instead, and when i + n is below 0 the item is null and is dereferenced in the same way.
- Tree.ExpandAll: the expanded flag is modelled as a field of each item, while Qt keeps it per index in the view. expandAll follows QTreeView's layout: items with children are expanded, and a hidden row is not laid out, so it and the rows below it are left as they were.
- Outline.Content.MoveChild and Reinsert.MoveRestore: Qt keeps the expanded, selected and hidden state in the view. takeChild discards all three for the moved item's whole subtree, and setExpanded gives back only the item's own expanded flag. The model keeps the selected and hidden flags of the moved item and all three flags of the items below it. The two agree at the one call of sortItems, after refreshIndex, where every item is collapsed (`SortKeepsClear`).
- Integer widths (`int` page numbers, 64-bit sizes and times) are not modelled: the model's integers are unbounded.
- The filter kinds' names and the sort columns' header strings are not modelled.
- Changing the sort column or direction is not modelled: the slots that do it are not part of this model, so the two settings are fields that no method changes.

## Findings

| source | as written | input that shows it | evidently intended | confidence | as-written member | corrected member |
|---|---|---|---|---|---|---|
| src/ApvlvContent.cc:419-424 | The two tree-wide tiers of setCurrentIndex start findTreeWidgetItem at the invisible root. That root carries no index, so the search returns null at once. | One top-level file "/a.pdf" holding page 3, nothing selected, asking for page 3 of "/a.pdf". The as-written search finds nothing; the page is there (`Search.AsWrittenMissesPage`, and `Outline.Content.SetCurrentIndexAsWritten` selects nothing). | Search every top-level item for a matching page, then for a matching file (`Search.FindAll`). `Outline.Content.SetCurrentIndex` and `Outline.Content.SelectFirstItem` use this. | not executed | Search.CurrentTargetAsWritten | Search.CurrentTarget |
| src/ApvlvContent.cc:841-848 | selectFirstItem relies on setCurrentIndex as written. Whenever no matching page lies below the selected item, it selects top-level item 0. This includes the state with nothing selected. | The same one-file tree with nothing selected, opening page 3 of "/a.pdf". The as-written tiers find nothing (`Search.AsWrittenMissesPage`), so `Outline.Content.SelectFirstItemAsWritten` selects the file item at [0]. The corrected tiers find the page at [0, 0]. | Select the current page wherever it is in the outline (`Search.CurrentTarget` prefers a matching page anywhere to a file), and fall back to the first top-level item only when nothing matches. | not executed | Outline.Content.SelectFirstItemAsWritten | Outline.Content.SelectFirstItem |
