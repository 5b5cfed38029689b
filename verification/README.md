# Permission-tree reconciliation, modelled in Dafny

json-tree-editor is a React page for editing a permission tree. The permissions arrive
as flat spreadsheet rows keyed by `权限id` (id) and `父级权限id` (parent id). The page
builds a forest from the rows and lets the user drag, delete, restore and rename nodes.
It then writes the rows back out with columns that say what happened to each one:
`删除` (deleted), `改名` (renamed), `移动` (moved). This project models the logic that
does this and proves properties about it. The logic exists in several copies, and each
copy is modelled on its own:

- `rows.dfy` (`Rows`): a sheet row as a map from column name to cell text. It also holds
  the column and operation names and an order-keeping `Select` that both two-pass builders
  use for "the ids this pass pushes".
- `trees.dfy` (`Trees`): the `Node(key, title, code, op, fields, children)` datatype.
  It also holds the shared pre-order searches (`FindNode`, `AllKeys`, the per-key `Count`).
  Finally, it holds the object graph that a two-pass builder leaves behind: an id map plus
  the child-key lists. A graph is turned back into a forest by unfolding it from its roots.
- `json_input.dfy` (`JsonInput`): `convertToTree`, the first-import builder. It is a
  method with two loops, proved equal to the unfolding of a specified graph. When there
  is more than one root, the roots go under a synthesised root with key 2.
- `manual_test.dfy` (`ManualTest`): the re-import builder `buildTree`. It detects export
  format and lets non-empty "new" columns override name, parent and code. Rows marked
  deleted or replaced go into the `deleted-root` and `replaced-root` groups. The same
  file's flattener and export-row mapper are modelled too, with the export/re-import
  round trip.
- `tree_display.dfy` (`TreeDisplay`): the tree editor component, as a class holding the
  live forest `data` and the list `deletedNodes`. Each deleted entry remembers the parent
  its subtree was removed from. The class has the drop, delete, restore and retitle
  operations. Its invariant is that each key is held once, counting both the live tree
  and the deleted area. Every operation conserves the count of every key.
- `app.dfy` (`App`): the page component, as a class holding the uploaded rows (`flatData`),
  the columns and the deleted keys. After a tree change it collects the deleted keys and
  walks the tree into a key → (parent, title) map. It then reclassifies every uploaded row.
  It also builds the export rows and header.
- `tree_logic_test.dfy` (`TreeLogicTest`): the test file's own copy of `buildTree`, as a
  method proved to compute the same forest as the re-import builder. It also holds the two
  sample sheets and the shapes the test expects from them, and the test's edit handler,
  which keeps an existing operation mark.

Behaviour the model reproduces as written:

- The wrapper root makes roots look moved. When the first import gathers several roots
  under the synthesised root 2, the page's classifier records 2 as those rows' new parent.
  It compares that with their original (empty, normalised to "0") parent, so the rows are
  marked `移动` although nobody moved them (`App.WrapperRootsMoved`).
- The page's export is not recognised on re-import. The page writes three extra columns
  and no `权限码（新）`. The re-import builder recognises export format only when all four
  extra columns are present. So, unless the caller passes the flag, a page export is
  re-imported as an original sheet (`App.ExportNotReimportFormat`).
- The two builders treat a missing parent differently. The first-import builder makes a
  row whose parent id is unknown a root. The re-import builder drops such a row from the
  result altogether (`ManualTest.DroppedRow`). Its moved row in the sample sheet, which
  names the deleted row as its new parent, is dropped this way (`TreeLogicTest.ExportedSheetTree`).
- An emptied title or code does not survive export and re-import. The editor accepts an
  empty title, and the export writes it to the new-name column as "". On re-import an
  empty new column falls back to the original one, so the node gets its original
  `权限名称` back; an empty code likewise reads as the original `权限码`
  (`ManualTest.ExportReimport`).

## Model

| member | source | states |
|---|---|---|
| JsonInput.ConvertToTree | src/components/JsonInput.js:11-52 | the two loops fill the id map and the child lists (one row per step: `Pass1Step`, `Pass2Step`); the result is the forest those describe, unfolded from the roots, under the key-2 root when there are several roots and no row with id 2 |
| JsonInput.NodeMap | src/components/JsonInput.js:14-21 | the id map holds exactly the row ids, each object under its own key |
| JsonInput.NodePerRow | src/components/JsonInput.js:14-21 | with unique ids, every row yields a node whose key is its id, whose title is its name and which carries its cells |
| JsonInput.PlacedOnce | src/components/JsonInput.js:22-29 | with unique ids, a row with an empty or unknown parent is a root exactly once and in no child list; any other row is in its parent's child list exactly once and nowhere else |
| JsonInput.RootOrder | src/components/JsonInput.js:27 | roots keep input-row order |
| JsonInput.ChildOrder | src/components/JsonInput.js:25 | children of one parent keep input-row order |
| JsonInput.ConvertedTop | src/components/JsonInput.js:32-51 | with more than one root and no row with id 2, the result is one node with key 2, title 菜单权限 and the roots in order as children; otherwise the top level is the roots; no rows give no trees |
| JsonInput.ConvertedNodes | src/components/JsonInput.js:11-52 | no node is invented: every key is a row id or the synthesised 2, and every other node is a row's node with its children attached |
| JsonInput.ParentMapAt | src/components/JsonInput.js:22-29 | with unique ids, a row's id has a parent link exactly when its parent id is non-empty and a row's id, and the link is that parent id |
| JsonInput.ChildLink | src/components/JsonInput.js:22-29 | with unique ids, a child list holds a row's id once when the row hangs under that list's owner, and holds no other key |
| JsonInput.RootLinks | src/components/JsonInput.js:22-29 | with unique ids, every root is a row that hangs under no row, listed once |
| JsonInput.ParentLinks | src/components/JsonInput.js:22-29 | every parent link joins two rows and, with no parent cycle, goes down in rank |
| JsonInput.ConvertedParented | src/components/JsonInput.js:11-29 | with unique ids and no parent cycle, the id map and child lists form a forest of parent links rooted at the rows that hang under no row |
| JsonInput.ChainEndsAtRoot | src/components/JsonInput.js:22-29 | following parent ids up from any row ends at one of the roots |
| JsonInput.RowUnfolded | src/components/JsonInput.js:22-29 | with unique ids and no parent cycle, unfolding the roots yields every row's id once |
| JsonInput.WrapperCount | src/components/JsonInput.js:32-51 | the synthesised root adds no occurrence of any key other than 2, and of no key at all when a row has id 2 |
| JsonInput.RowPlaced | src/components/JsonInput.js:11-52 | with unique ids and no parent cycle, every row's id occurs exactly once in the result |
| ManualTest.NormalMap | src/testutils/ManualTest.js:211-224 | the id map's keys are exactly the ids of the ordinary rows, each object under its own key |
| ManualTest.NormalMapEntry | src/testutils/ManualTest.js:211-224 | every object in the id map is the node of some ordinary row |
| ManualTest.VisitRow | src/testutils/ManualTest.js:165-229 | the pass-1 callback: in export mode a deleted or replaced row is set aside in its list; otherwise the row's node enters the id map and, with an empty effective parent, the roots |
| ManualTest.AttachChildren | src/testutils/ManualTest.js:232-241 | pass 2 leaves every child list equal to the rows placed under it, in row order |
| ManualTest.BuildTree | src/testutils/ManualTest.js:157-264 | the two loops leave the graph whose unfolding from the roots is the ordinary part of the result, followed by the groups (one row per step: `Pass1Next` with its map, child-list and list steps, and `Pass2Step`) |
| ManualTest.HandleExcel | src/testutils/ManualTest.js:146-268 | export mode is the flag or the four export columns on the first row; the result is the specified forest |
| ManualTest.DeletedNodesShape | src/testutils/ManualTest.js:185-193 | the deleted group holds one childless node marked 删除 per deleted row, in row order |
| ManualTest.ReplacedNodesShape | src/testutils/ManualTest.js:197-206 | the replaced group holds one childless node marked 替换 per replaced row, in row order |
| ManualTest.TopKeys | src/testutils/ManualTest.js:226-228 | the ordinary part of the result has one tree per root, in row order |
| ManualTest.UnfoldedKeysNormal | src/testutils/ManualTest.js:238-240 | every key in the ordinary part of the result is an ordinary row's id |
| ManualTest.GroupsTop | src/testutils/ManualTest.js:244-261 | deleted-root is present exactly when some row was deleted and replaced-root exactly when some row was replaced, in that order |
| ManualTest.BuiltTop | src/testutils/ManualTest.js:226-261 | the top level is the ordinary roots in row order, then deleted-root if non-empty, then replaced-root if non-empty |
| ManualTest.SetAsideRow | src/testutils/ManualTest.js:185-206 | in export mode a deleted or replaced row never enters the id map or the ordinary part of the result, and sits in its group |
| ManualTest.PlacedOnce | src/testutils/ManualTest.js:226-240 | with unique ids, an ordinary row with an empty effective parent is a root exactly once, and one with an ordinary parent is in that parent's child list exactly once |
| ManualTest.DroppedRow | src/testutils/ManualTest.js:226-240 | an ordinary row whose effective parent is non-empty but not an ordinary row appears nowhere in the result |
| ManualTest.ParentMapAt | src/testutils/ManualTest.js:232-241 | with unique ids, an ordinary row's id has a parent link exactly when its effective parent is an ordinary row's id, and the link is that parent |
| ManualTest.ChildLink | src/testutils/ManualTest.js:232-241 | with unique ids, a child list holds an ordinary row's id once when that row's effective parent owns the list, and holds no other key |
| ManualTest.RootLinks | src/testutils/ManualTest.js:226-228 | with unique ids, every root is an ordinary row with no parent link, listed once |
| ManualTest.ParentLinks | src/testutils/ManualTest.js:232-241 | every parent link joins two ordinary rows and, with no cycle of effective parents, goes down in rank |
| ManualTest.BuiltParented | src/testutils/ManualTest.js:165-241 | with unique ids and no cycle, the ordinary rows' id map and child lists form a forest of parent links rooted at the rows pass 1 pushed |
| ManualTest.ChainTop | src/testutils/ManualTest.js:226-241 | following effective parents up from an ordinary row ends at an ordinary row that is either a root or has a parent that is no ordinary row; it is among the roots exactly in the first case |
| ManualTest.NotInGroups | src/testutils/ManualTest.js:243-261 | with unique ids and no row claiming a group key, no ordinary row's id is in a group |
| ManualTest.OrdinaryRowPlaced | src/testutils/ManualTest.js:157-264 | with unique ids, no row claiming a group key and no cycle, an ordinary row occurs exactly once in the result when its chain of effective parents ends at a root, and not at all otherwise |
| ManualTest.GroupKeys | src/testutils/ManualTest.js:244-261 | every key in the groups is a group key or the id of a row set aside |
| ManualTest.BuiltNode | src/testutils/ManualTest.js:166-224 | every ordinary node is some ordinary row's node: key the id; title and code the non-empty new column, else the original; operation the row's 操作 in export mode and none otherwise; the row's cells |
| ManualTest.PlainImport | src/testutils/ManualTest.js:148-222 | outside export mode there are no groups and no node carries an operation |
| ManualTest.FlattenTree | src/testutils/ManualTest.js:340-360 | the walk pushes onto the accumulator exactly the specified flattening of the forest |
| ManualTest.FlatPreOrder | src/testutils/ManualTest.js:351-357 | without group keys, flattening is the pre-order list of all nodes |
| ManualTest.FlatGroup | src/testutils/ManualTest.js:343-349 | a group node flattens to its direct children only |
| ManualTest.FlatBuilt | src/testutils/ManualTest.js:340-362 | a built forest flattens to its ordinary nodes in pre-order, then the deleted nodes, then the replaced nodes |
| ManualTest.FlatGroups | src/testutils/ManualTest.js:343-349 | the groups flatten to the deleted nodes followed by the replaced nodes |
| ManualTest.ExportRowColumns | src/testutils/ManualTest.js:365-381 | all four export columns are present; the new name is non-empty exactly when the title is non-empty and differs from 权限名称, and so is the new code; the new parent is blank; 操作 is the operation |
| ManualTest.ExportRowOriginals | src/testutils/ManualTest.js:371-379 | the nine original columns are copied from the node's cells |
| ManualTest.ExportRows | src/testutils/ManualTest.js:365-382 | one export row per flattened node, the i-th being the export row of the i-th node (`ExportRowsAt`) |
| ManualTest.ExportToExcel | src/testutils/ManualTest.js:332-382 | refused exactly for an empty tree; otherwise the export rows of the flattened tree |
| ManualTest.ExportReimport | src/testutils/ManualTest.js:365-381 | re-importing an export row: export mode is detected; key and operation come back; a non-empty title or code comes back, and an empty one reads as the original 权限名称 or 权限码; the parent reverts to the original column; deleted and replaced rows are set aside again |
| ManualTest.NormalRoundTrip | src/testutils/ManualTest.js:365-381 | an ordinary node built in export mode survives export and re-import with key, title, code and operation |
| ManualTest.DeletedRoundTrip | src/testutils/ManualTest.js:365-381 | a deleted node re-imports as a deleted node with the same key and title |
| ManualTest.ReplacedRoundTrip | src/testutils/ManualTest.js:365-381 | a replaced node re-imports as a replaced node with the same key, title and code |
| ManualTest.ExportRecognised | src/testutils/ManualTest.js:148-154 | a non-empty export is always re-imported in export mode |
| Trees.FindNode | src/components/TreeDisplay.js:180-189 | the search finds a node exactly when the key is in the forest, and the node found carries that key |
| Trees.FindNodeIn | src/components/TreeDisplay.js:180-189 | the node found is a node of the forest |
| Trees.FindNodeOnce | src/components/TreeDisplay.js:180-189 | a node whose key occurs once is the node found by that key |
| Trees.UnfoldRooted | src/components/JsonInput.js:22-29 | in a graph where each object has at most one parent, each child list holds its children once, the roots are unplaced objects listed once and a rank falls towards the parent, unfolding the roots yields a key exactly once when its chain of parents ends at a root, and not at all otherwise |
| Trees.ChildrenOnChain | src/components/JsonInput.js:22-29 | a child list holds one key on x's chain of parents when its owner lies strictly above x, and none otherwise |
| Trees.UnfoldNodeCount | src/components/JsonInput.js:22-29 | unfolding an object yields x once when the object lies on x's chain of parents, and not at all otherwise |
| Trees.UnfoldSeqCount | src/components/JsonInput.js:22-29 | unfolding a list of objects yields x as many times as the list holds keys on x's chain |
| TreeDisplay.LoopRemove | src/components/TreeDisplay.js:57-75 | the cut-out node is returned exactly when the dragged key is in the forest, and it carries that key |
| TreeDisplay.LoopRemoveAbsent | src/components/TreeDisplay.js:57-75 | an absent dragged key changes nothing |
| TreeDisplay.LoopRemoveFound | src/components/TreeDisplay.js:57-75 | with the dragged key once, the cut-out node is the subtree found by that key |
| TreeDisplay.LoopRemoveCount | src/components/TreeDisplay.js:57-75 | with the dragged key once, every key's count is split between the rest and the cut-out subtree |
| TreeDisplay.LoopPrependCount | src/components/TreeDisplay.js:79-82 | with the target key once, making x its first child adds exactly x's keys |
| TreeDisplay.LoopPrependPlaced | src/components/TreeDisplay.js:79-82 | the target node, with x in front of its children, is a node of the result |
| TreeDisplay.InsertSiblingCount | src/components/TreeDisplay.js:93-104 | with the target key once, inserting x beside it adds exactly x's keys |
| TreeDisplay.InsertSiblingPlaced | src/components/TreeDisplay.js:93-104 | x is inserted immediately before the target for relative position -1 and immediately after it otherwise |
| TreeDisplay.DropKeys | src/components/TreeDisplay.js:68-104 | with unique drag and target keys and the target outside the dragged subtree, a drop keeps every key's count |
| TreeDisplay.DropPlaced | src/components/TreeDisplay.js:77-104 | the dragged subtree arrives unchanged: as the target's first child for a drop onto it or onto an expanded parent at position 1; otherwise right before the target at -1 and right after it otherwise |
| TreeDisplay.RemoveNode | src/components/TreeDisplay.js:112-127 | a node is returned exactly when the key is in the forest, and it carries that key |
| TreeDisplay.RemoveNodeGone | src/components/TreeDisplay.js:112-127 | after removal no node carries the key |
| TreeDisplay.RemoveNodeAbsent | src/components/TreeDisplay.js:112-127 | an unknown key changes nothing |
| TreeDisplay.RemoveNodeCount | src/components/TreeDisplay.js:112-127 | with the key once, the removed node is the subtree with that key, and every key's count is split between the rest and it |
| TreeDisplay.Filter | src/components/TreeDisplay.js:164-166 | a child is kept exactly when its key differs from the restored key |
| TreeDisplay.FilterCount | src/components/TreeDisplay.js:164-166 | filtering out the one child with the key takes away exactly that child's subtree from every key's count |
| TreeDisplay.FindAndRemoveIn | src/components/TreeDisplay.js:154-169 | a wrapped child entry is found exactly when the key is below it, and it carries the key |
| TreeDisplay.FindAndRemove | src/components/TreeDisplay.js:146-172 | an entry is found exactly when the key is in the deleted area, and its node carries the key |
| TreeDisplay.FindAndRemoveCount | src/components/TreeDisplay.js:146-172 | with the key once in the deleted area, every key's count is split between what is left and the subtree handed back |
| TreeDisplay.FindAndRemoveOrigin | src/components/TreeDisplay.js:149-159 | the entry handed back is a top-level entry or a nested child recorded with the key of the deleted node it hung under |
| TreeDisplay.ResolveParent | src/components/TreeDisplay.js:190-195 | the recorded parent when it is in the tree, else key 2 when that is in the tree, else none |
| TreeDisplay.InsertUnderCount | src/components/TreeDisplay.js:196-210 | with the parent key once, inserting adds exactly x's keys |
| TreeDisplay.InsertUnderPlaced | src/components/TreeDisplay.js:196-210 | the parent node, with x as its new last child, is a node of the result |
| TreeDisplay.RestorePlaced | src/components/TreeDisplay.js:190-211 | a restored subtree becomes the last child of the resolved parent, or goes at the end of the top level when there is none |
| TreeDisplay.UpdateTitleKeys | src/components/TreeDisplay.js:236-245 | retitling keeps the pre-order key list |
| TreeDisplay.UpdateTitleShape | src/components/TreeDisplay.js:236-245 | retitling changes titles only: with titles blanked, the forest is the same, so every node keeps its parent, its children in order and every other field |
| TreeDisplay.UpdateTitleCount | src/components/TreeDisplay.js:236-245 | retitling keeps every key's count |
| TreeDisplay.UpdateTitleFound | src/components/TreeDisplay.js:236-245 | the node with the key carries the new title and is otherwise unchanged |
| TreeDisplay.UpdateTitleOthers | src/components/TreeDisplay.js:236-245 | every other key finds a node with the same title, code, operation and cells |
| TreeDisplay.TreeDisplay.constructor | src/components/TreeDisplay.js:5-13 | the component starts with the given forest and an empty deleted list |
| TreeDisplay.TreeDisplay.Load | src/components/TreeDisplay.js:15-18 | a new tree from the parent replaces the live tree and keeps the deleted list |
| TreeDisplay.TreeDisplay.GetFullTreeData | src/components/TreeDisplay.js:317-356 | the live tree, followed, when something was deleted, by a deleted-root node titled 已删除 whose children are the deleted subtrees |
| TreeDisplay.TreeDisplay.OnDrop | src/components/TreeDisplay.js:50-108 | it throws exactly for a gap drop beside a target that is not in the live tree, and then stores nothing; otherwise the live tree becomes the dropped forest. With the target in the live tree every key's count over live tree and deleted area is kept and the dragged subtree lands as DropPlaced states; with the target outside it, a drop onto the target loses the dragged subtree and every key in it |
| TreeDisplay.DropLost | src/components/TreeDisplay.js:68-91 | a drop onto a key that is not in the live tree cuts the dragged subtree out and puts it nowhere: each key's count falls by its count in that subtree, and the dragged key is gone |
| TreeDisplay.TreeDisplay.HandleDelete | src/components/TreeDisplay.js:111-141 | the key leaves the live tree; when found, the removed subtree is appended to the deleted list with its parent key; an unknown key changes nothing; uniqueness and every key's count are kept |
| TreeDisplay.TreeDisplay.HandleRestore | src/components/TreeDisplay.js:144-216 | a found entry leaves the deleted area and is inserted under the resolved parent or at the end of the top level; an unknown key changes nothing; uniqueness and every key's count are kept |
| TreeDisplay.TreeDisplay.HandleEdit | src/components/TreeDisplay.js:235-252 | the live tree is retitled; keys, their counts and the tree's shape are kept; the node with the key gets the new title |
| App.Norm | src/App.js:101-104 | an empty parent id reads as "0"; any other is kept as it is |
| App.SeedRows | src/App.js:26-30 | every uploaded row is kept with its cells, its parent id and its name recorded as the originals |
| App.KeysOfMember | src/App.js:75-84 | the inner walk collects exactly the non-empty keys of the forest |
| App.EntryKeysMember | src/App.js:71-86 | a deleted entry with a non-empty key contributes exactly the non-empty keys of its subtree; one with an empty key contributes nothing |
| App.DeletedKeysMember | src/App.js:68-90 | a key is collected exactly when it is non-empty and belongs to the subtree of a deleted entry with a non-empty key |
| App.WalkKeys | src/App.js:75-84 | the recursive loop returns the specified key list |
| App.CollectDeletedKeys | src/App.js:68-90 | the loop over deleted entries returns the specified key list |
| App.Dedup | src/App.js:91-92 | the deduplicated keys have the same members, none twice |
| App.DedupOrder | src/App.js:91-92 | the deduplicated keys keep first-occurrence order |
| App.TreeMapDomain | src/App.js:98-119 | the walk records exactly the keys of the tree |
| App.TreeMapNormal | src/App.js:98-119 | every recorded parent id is non-empty |
| App.TreeMapKeep | src/App.js:98-119 | a key the tree lacks keeps its earlier record |
| App.TreeMapTop | src/App.js:98-120 | a top-level node whose key occurs once is recorded with the walk's starting parent id, normalised ("0" for the whole tree), and its title |
| App.TreeMapChild | src/App.js:98-119 | a child whose key occurs once is recorded with its parent's key and its title |
| App.Walk | src/App.js:98-119 | the recursive loop leaves the specified key → (parent, title) map |
| App.ActionOf | src/App.js:150-153 | the action is "", 改名, 移动 or 改名,移动, with 改名 first |
| App.Classify | src/App.js:122-161 | a classified row keeps its cells and originals, and its action is one of the five labels |
| App.ClassifyRows | src/App.js:122-161 | one classified row per row, in order, each keeping its cells |
| App.ClassifyDeleted | src/App.js:125-130 | a deleted row gets 删除 with empty new name and new parent |
| App.ClassifyMissing | src/App.js:154-158 | a row neither deleted nor in the tree gets all three columns blank |
| App.ClassifyLive | src/App.js:131-153 | for a live row, the new name is set exactly when the tree title is non-empty and differs from the original name; the new parent is set exactly when the tree parent differs from the normalised original parent; the action names exactly the changes |
| App.SeedUnchanged | src/App.js:131-153 | a freshly uploaded row whose node still has its original parent and name is left unmarked |
| App.DeletedSubtreeMarked | src/App.js:68-130 | every row whose key is in the subtree of a deleted entry is marked 删除 |
| App.WrapperRootsMoved | src/App.js:98-153 | a root row gathered under the synthesised root 2 at first import is classified as moved to 2 |
| App.Fill | src/App.js:51-53 | each loaded column is copied from the row, and other cells are kept |
| App.ExportRowCells | src/App.js:46-55 | an export row has exactly the header's columns; loaded columns are copied, and the three new columns carry the row's new name, new parent and action unless a loaded column overwrites them |
| App.ExportRows | src/App.js:46-55 | one export row per uploaded row, in order |
| App.ExportNotReimportFormat | src/App.js:43-56 | without a loaded 权限码（新） column, the page's export is not recognised as export format on re-import |
| App.App.constructor | src/App.js:12-16 | the page starts with no tree, rows, columns or deleted keys |
| App.App.HandleExcelParsed | src/App.js:23-36 | rows are seeded only when none are loaded, and columns only when none are loaded |
| App.App.HandleTreeChange | src/App.js:64-164 | the new tree is kept; the deleted keys are the collected keys, once each; the rows are reclassified against the walked tree only when rows and columns are loaded |
| App.App.DownloadExcel | src/App.js:38-62 | refused exactly when no rows or no columns are loaded; otherwise the header is 权限名称（新）, 父级权限id（新）, 操作, then the columns, with one export row per row |
| TreeLogicTest.VisitItem | src/__tests__/TreeLogic.test.js:124-188 | the test's pass-1 callback does what the re-import callback does |
| TreeLogicTest.FirstPass | src/__tests__/TreeLogic.test.js:124-188 | the test's pass 1 leaves the specified id map, roots and set-aside lists |
| TreeLogicTest.SecondPass | src/__tests__/TreeLogic.test.js:191-200 | the test's pass 2 leaves the specified child lists |
| TreeLogicTest.BuildTree | src/__tests__/TreeLogic.test.js:107-223 | the test's copy of the builder computes the same forest as the re-import builder |
| TreeLogicTest.RootAndTwoChildren | src/__tests__/TreeLogic.test.js:226-228 | three plain rows, a root and two rows naming it as parent, build one tree with two children |
| TreeLogicTest.OriginalSheetTree | src/__tests__/TreeLogic.test.js:226-228 | the original sample sheet builds one root with two children |
| TreeLogicTest.RenamedMovedReplacedDeleted | src/__tests__/TreeLogic.test.js:231-249 | four exported rows (renamed root, moved, replaced, deleted) build the renamed root under its new name, then deleted-root and replaced-root with one child each |
| TreeLogicTest.ExportedSheetTree | src/__tests__/TreeLogic.test.js:231-249 | the exported sample builds three top-level entries: the root titled 系统设置, deleted-root with one child and replaced-root with one child |
| TreeLogicTest.Edited | src/__tests__/TreeLogic.test.js:271-282 | the edited node has the new title, keeps an existing operation mark, gets 修改 only when unmarked, and is otherwise unchanged |
| TreeLogicTest.HandleEdit | src/__tests__/TreeLogic.test.js:271-282 | the assignments produce the edited node |
| TreeLogicTest.EditMovedNode | src/__tests__/TreeLogic.test.js:284-296 | editing the moved node keeps 移动 and takes the title 用户管理（编辑后） |

The specification functions that the rows above are stated against model these source
lines: `JsonInput.Converted` (src/components/JsonInput.js:11-52), `ManualTest.Built`
(src/testutils/ManualTest.js:157-264), `ManualTest.Flat` (src/testutils/ManualTest.js:340-360),
`TreeDisplay.Dropped` (src/components/TreeDisplay.js:68-104), `TreeDisplay.InsertUnder`
(src/components/TreeDisplay.js:196-210) and `TreeDisplay.UpdateTitle`
(src/components/TreeDisplay.js:236-245). `TreeDisplay.Untitled` blanks every title, so
that two forests differing in titles only are equal after it.

## Left out

- Rendering and UI state are not modelled: JSX titles, the inline editor and its positioning, expand and collapse key lists (including the key collector in the load effect), `message` toasts, the test log and its clock, and the clipboard.
- File I/O is not modelled: `FileReader`, `XLSX.read`/`sheet_to_json`, `json_to_sheet`/`writeFile` and `JSON.parse`/`JSON.stringify`. Rows go in and rows come out as values. `handleJsonSubmit` and the JSON text view are left out for the same reason.
- The antd drop-position arithmetic on the `pos` string is not modelled. `onDrop` takes the resolved drag key, target key, gap flag, "target expanded with children" flag and relative position.
- Values are strings. Numbers and strings are not told apart, and `undefined`, `null` and `""` are all the empty string. So `=== 2 || === "2"` is `== "2"`, and a missing cell reads as "".
- A numeric cell 0 is not modelled. The spreadsheet reader returns numbers, and the number 0 is falsy where the text "0" is not. So a row whose parent id is the number 0 is a root for `if (!parentId)` (src/testutils/ManualTest.js:226, src/__tests__/TreeLogic.test.js:185) and is never placed under a parent (src/testutils/ManualTest.js:238, src/__tests__/TreeLogic.test.js:197, src/components/JsonInput.js:24). In the model, a cell is falsy only when it is empty, so such a row counts as naming parent "0", and the re-import builder drops it when no row has id "0" (`ManualTest.DroppedRow`). The same holds for the number 0 as a node key in the page's deleted-key walk (src/App.js:71, 78).
- A non-array tree handed to the editor or to the page's walk (wrapped as `[treeData]` in the source) is not modelled. Trees are always forests, and "no tree" is the empty forest.
- A non-string node title, which the page's walk reads as "", is not modelled. Titles are strings.
- Unique ids, and a drop target outside the dragged subtree, are preconditions of the conservation lemmas and of `TreeDisplay.TreeDisplay.OnDrop`. The source does not guard them: duplicate ids, self-parented rows and drops into one's own subtree are not modelled.
- Object sharing is not modelled. The builders' shared node objects become keys in an id map plus child-key lists, and the forest is the unfolding of that graph. When a key occurs twice, the source's in-place splices and the model's value updates can differ: for a gap drop the source inserts only beside the last target found, while `TreeDisplay.InsertSibling` inserts beside every one. The lemmas about drops assume unique keys.
- JsonInput.RowPlaced, ManualTest.OrdinaryRowPlaced: every row is shown to be in the result only when the parent ids form no cycle, stated as a rank that falls from each row to its parent. The source does not check for cycles. Rows on a cycle, and the rows below them, reach no root and are missing from its result as from the model's.
- TreeDisplay.TreeDisplay.OnDrop: a gap drop beside a target outside the live tree throws before the new tree is stored; the model keeps the old tree. In the source, the first splice has by then already removed the dragged node from a child array that the stored tree shares, when the dragged node was not at the top level. That in-place effect is not modelled.
- TreeDisplay.TreeDisplay.OnDrop: the case where the dragged key is absent from the tree (the source then inserts `undefined`) is excluded by its precondition.
- The page's `deletedKeySet` is modelled as membership in the collected key list. The `Set` itself only serves lookups, and its deduplicated form is `App.Dedup`.
- The editor's `onChange` call is modelled by `App.App.HandleTreeChange`, which takes the new forest and the deleted list as arguments.
- `src/App.test.js` is a skipped UI render test and is not part of this model.
