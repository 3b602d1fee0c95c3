# TreeDistance in Dafny

This project models the Swift package TreeDistance, which computes the Zhang–Shasha ordered-tree
edit distance between two labelled trees. It also builds an edit script (deletes, renames and
inserts) that turns the first tree into the second, and it can replay that script on a tree.
The model covers these parts of the package:

- **Preprocessing.** Postorder numbering into a `ReversibleMap`, the leftmost-leaf-descendant
  (LMLD) array, and the keyroot list sorted by postorder number.
- **The distance.** The forest-distance dynamic program over one table per keyroot pair, with
  the shared memo of subtree-pair results. `ForestTrail` and its `totalCost` are included.
- **The edit script.** The walk that turns the winning trail into edits and the sort of those
  edits by operation.
- **Replay.** `transformTree` replays an edit script on a heap of nodes.
- **Supporting types.** `ReversibleMap`, the `TreeNode` child-list operations and the
  `TreeOperation` enum.
- **Test helpers.** The string helpers the tests use: `treeString`, `fromString` and the unit
  cost of `String` labels.

The model has the same shape as the source:

- **Trees.** `Tree<L>` is an immutable value, `Node(id, lbl, children)`. A node's identity is
  its `id`.
- **Trails.** `Trail<L>` is a datatype that links each step to the cell it extends. A
  reused-subtree step also holds the subtree pair's own trail.
- **Costs.** `Cost` is `Fin(n)` or `Inf`.
- **Label costs.** The cost function is a parameter of type `(L, TreeOperation, Option<L>) -> nat`.
- **Tables.** The forest table and the memo are `array2`s, filled by methods whose loops are
  proved against a function `Cell` that defines every table cell.
- **The node heap.** The mutable heap of `TreeNode`s is the class `Arena`. Its fields are the
  maps `labels`, `parents` and `children` (duplicate-free id lists) plus the next unused id.
- **Replay.** Each replay edit is a method on the arena, proved equal to a function on the
  arena's value (`Nodes`).
- **Traps.** Where the source traps (a force-unwrap of `nil`, a missing parent), the model
  returns `None`, `false` or `Trapped`.

All properties are proved for all inputs. Only a delete of the first tree's root costs infinity
(`TreeDistance.swift:72-75` and `:90-93`); an insert in column 0 of a forest table is never
blocked.

## Model

| member | source | states |
|---|---|---|
| Operations.FromRawValue | Sources/TreeDistance/TreeOperation.swift:3-7 | an integer is the raw value of an operation exactly when it is 0, 1 or 2 |
| Operations.RawValueRoundTrip | Sources/TreeDistance/TreeOperation.swift:3-7 | every operation comes back from its raw value, and a raw value names an operation only when it is that operation's raw value |
| Operations.LessOrdersCases | Sources/TreeDistance/TreeOperation.swift:22-26 | delete < rename < insert; no operation is below delete and none is above insert |
| Operations.LessIsStrictTotalOrder | Sources/TreeDistance/TreeOperation.swift:22-26 | `<` is irreflexive, transitive and asymmetric, and it orders any two distinct operations |
| Operations.DescriptionInjective | Sources/TreeDistance/TreeOperation.swift:9-19 | two operations have the same description exactly when they are the same operation |
| ReversibleMaps.ReversibleMap.constructor | Sources/TreeDistance/ReversibleMap.swift:7-10 | both directions start empty |
| ReversibleMaps.ReversibleMap.Put | Sources/TreeDistance/ReversibleMap.swift:20-23 | afterwards `k` looks up `v` and `v` looks up `k`; the two dictionaries stay converse when neither `k` nor `v` was bound before |
| ReversibleMaps.PutFreshKeepsConverse | Sources/TreeDistance/ReversibleMap.swift:20-23 | putting an unbound key with an unbound value keeps the inverse the exact converse of the dictionary |
| ReversibleMaps.PutOverwriteLeavesStaleInverse | Sources/TreeDistance/ReversibleMap.swift:20-23 | an example: rebinding key 1 from 10 to 20 in a converse map leaves the stale entry 10 → 1 in the inverse, so the two dictionaries stop being converse |
| ReversibleMaps.ReversibleMap.Remove | Sources/TreeDistance/ReversibleMap.swift:25-30 | drops the key and its value from both directions and nothing else; an unbound key changes nothing; converse dictionaries stay converse |
| ReversibleMaps.ReversibleMap.RemoveInverse | Sources/TreeDistance/ReversibleMap.swift:32-37 | the mirror image of `Remove`, starting from the value |
| ReversibleMaps.ReversibleMap.PutAll | Sources/TreeDistance/ReversibleMap.swift:39-43 | the new state is that of the pairs put one by one, in order |
| ReversibleMaps.PutPairsAppend | Sources/TreeDistance/ReversibleMap.swift:39-43 | putting `p + q` is putting `p` and then `q` |
| ReversibleMaps.PutPairsBuildsConverse | Sources/TreeDistance/ReversibleMap.swift:12-18 | one-to-one pairs put into an empty map give exactly those bindings in both directions, one key per pair |
| ReversibleMaps.FromPairs | Sources/TreeDistance/ReversibleMap.swift:12-18 | the map built from a pair sequence is the pairs put in turn; for one-to-one pairs every lookup answers in both directions and `Count` is the number of pairs |
| Trees.Post | Sources/TreeDistance/TreeDistance.swift:316-331 | the postorder lists one entry per node and ends with the root |
| Trees.Lmld | Sources/TreeDistance/TreeDistance.swift:333-355 | one LMLD index per node, never after the node itself |
| Trees.SubtreeLayout | Sources/TreeDistance/TreeDistance.swift:316-355 | in postorder, node `k`'s subtree fills the block of its size that ends at `k`, and its LMLD is the first index of that block |
| Trees.LmldLaminar | Sources/TreeDistance/TreeDistance.swift:333-355 | every node inside node `k`'s block has its own LMLD inside that block |
| Trees.LmldOfLeaf | Sources/TreeDistance/TreeDistance.swift:339-346 | a node is its own LMLD exactly when it is a leaf |
| Trees.LmldOfFirstChild | Sources/TreeDistance/TreeDistance.swift:347-350 | an inner node has the same LMLD as its first child, which is numbered before it |
| Trees.ChildrenNumberedLeftToRight | Sources/TreeDistance/TreeDistance.swift:322-328 | children are numbered from left to right, all below their parent |
| Trees.SimilarLayout | Sources/TreeDistance/TreeDistance.swift:316-355 | two trees of the same shape have the same size, the same LMLD array and the same parent indices in postorder |
| Trees.CopyLayout | Sources/TreeDistance/TreeDistance.swift:316-331 | two trees that differ only in node identities have the same shape and the same label at every postorder index |
| Trees.ParentsLayout | Sources/TreeDistance/TreeDistance.swift:316-331 | only the root (numbered last) has no parent; every other node's parent has a higher number and lists the node among its children |
| Preprocessing.PostorderIdentifiers | Sources/TreeDistance/TreeDistance.swift:316-331 | the map numbers the `k`-th node in postorder as `k` for every `k < n`, has `n` keys and is converse: distinct numbers `0..n-1`, with the root numbered `n-1` |
| Preprocessing.Number | Sources/TreeDistance/TreeDistance.swift:322-328 | visiting a subtree puts its nodes in postorder numbered consecutively from `next`, and advances `next` by the subtree's size |
| Preprocessing.NumberedOneToOne | Sources/TreeDistance/TreeDistance.swift:316-331 | for a tree whose node ids are distinct, the postorder numbering pairs are one-to-one |
| Preprocessing.LeftmostLeafDescendants | Sources/TreeDistance/TreeDistance.swift:333-355 | every slot is filled; slot `k` holds the leftmost leaf descendant of the node numbered `k` |
| Preprocessing.Walk | Sources/TreeDistance/TreeDistance.swift:338-352 | visiting a subtree fills the slots of its block and of the pending first-child chain with their LMLD, and leaves every other slot as it was |
| Preprocessing.MarkLeaf | Sources/TreeDistance/TreeDistance.swift:339-346 | a leaf's slot and those of its chain of ancestors get the leaf; nothing else changes |
| Keyroots.KeyrootsAreTops | Sources/TreeDistance/TreeDistance.swift:357-375 | the walk appends exactly the keyroots: the nodes whose LMLD no later node shares |
| Keyroots.WalkLength | Sources/TreeDistance/TreeDistance.swift:362-375 | the walk appends exactly one entry per leaf |
| Keyroots.WalkNoDup | Sources/TreeDistance/TreeDistance.swift:362-375 | the walk appends no node twice |
| Keyroots.CollectKeyroots | Sources/TreeDistance/TreeDistance.swift:362-375 | the recursive visit appends the nodes at the walk's indices, in walk order |
| Keyroots.CollectChildren | Sources/TreeDistance/TreeDistance.swift:370-374 | visiting the children appends the walks of the children in order, with the chain passed only to the first child |
| Keyroots.SortByPostorder | Sources/TreeDistance/TreeDistance.swift:377 | the result is a permutation of the input, in ascending postorder |
| Keyroots.InsertByPostorder | Sources/TreeDistance/TreeDistance.swift:377 | inserting into a sorted list keeps it sorted and adds exactly that node |
| Keyroots.ComputeKeyroots | Sources/TreeDistance/TreeDistance.swift:357-378 | one entry per leaf; every entry is a keyroot and every keyroot is present; the list strictly ascends in postorder and ends with the root |
| Trails.TotalCostIsSum | Sources/TreeDistance/TreeDistance.swift:255-261 | a trail's total is the sum of its steps' own costs along the chain, infinite exactly when some step is |
| Trails.OpStep | Sources/TreeDistance/TreeDistance.swift:240-245 | a plain step's own cost is the label cost of its node under the operation, given the other node's label (the `TreeNode.transformationCost` delegation) |
| Trails.TreeStep | Sources/TreeDistance/TreeDistance.swift:247-253 | a reused-subtree step is a rename that carries the reused trail |
| Trails.TreeStepCost | Sources/TreeDistance/TreeDistance.swift:247-261 | a reused-subtree step's own cost is the reused trail's total, and its total adds the rest of the chain |
| Trails.Blocked | Sources/TreeDistance/TreeDistance.swift:72-75 | a blocked step is the same step at infinite cost, so its total is infinite |
| Trails.CheapestOfThree | Sources/TreeDistance/TreeDistance.swift:106-107 | the winner is one of the three candidates, none of them is cheaper, and ties go to the insert, then to the delete |
| ForestDistances.IndexedOfValid | Sources/TreeDistance/TreeDistance.swift:316-355 | a tree's postorder view has the shape the program relies on: only the root lacks a parent, the root's LMLD is 0, and subtree blocks nest |
| ForestDistances.ForestDistance | Sources/TreeDistance/TreeDistance.swift:45-114 | for one keyroot pair, writes to the memo exactly the subtree pairs that belong to that pair, each with its subtree-pair trail, and leaves every other entry as it was |
| ForestDistances.FillEdges | Sources/TreeDistance/TreeDistance.swift:56-76 | row 0 and column 0 of the table hold the delete and insert chains |
| ForestDistances.FillFirstColumn | Sources/TreeDistance/TreeDistance.swift:59-64 | column 0 holds the insert chain; nothing else changes |
| ForestDistances.FillFirstRow | Sources/TreeDistance/TreeDistance.swift:66-76 | row 0 holds the delete chain, with the root's delete blocked; nothing else changes |
| ForestDistances.FillColumns | Sources/TreeDistance/TreeDistance.swift:79-113 | the interior loops write the memo exactly at the whole-subtree pairs of this keyroot pair |
| ForestDistances.FillColumn | Sources/TreeDistance/TreeDistance.swift:80-112 | one column of the table gets its cells; the memo gets that column's whole-subtree pairs |
| ForestDistances.CellTrail | Sources/TreeDistance/TreeDistance.swift:81-111 | a cell gets its defined trail, and the memo is written at that node pair exactly when both nodes span whole subtrees |
| ForestDistances.RenameTrail | Sources/TreeDistance/TreeDistance.swift:95-104 | returns the rename candidate, and `trees` holds exactly when both nodes span whole subtrees |
| ForestDistances.CellAt | Sources/TreeDistance/TreeDistance.swift:84-107 | an interior cell is the cheapest of its insert, delete and rename candidates |
| ForestDistances.SpansCell | Sources/TreeDistance/TreeDistance.swift:109-111 | when both nodes span whole subtrees, the table cell is the subtree pair's result, the value the memo receives |
| ForestDistances.RenamingSpans | Sources/TreeDistance/TreeDistance.swift:98-100 | for whole subtrees the rename candidate extends the diagonal cell |
| ForestDistances.RenamingReuse | Sources/TreeDistance/TreeDistance.swift:101-104 | otherwise the rename candidate reuses the subtree pair's result |
| ForestDistances.ReuseIs | Sources/TreeDistance/TreeDistance.swift:101-104 | a reuse carries the memo entry and extends the cell to the left of both subtrees |
| CellFacts.InsertColumn | Sources/TreeDistance/TreeDistance.swift:57-64 | column 0 is a chain of inserts of finite cost; cell (0,0) costs 0 |
| CellFacts.DeleteRow | Sources/TreeDistance/TreeDistance.swift:66-76 | row 0 is a chain of deletes, of infinite cost exactly when it reaches the first tree's root |
| CellFacts.CellIsCheapest | Sources/TreeDistance/TreeDistance.swift:79-107 | every interior cell is one of its three candidates, none of them is cheaper, and ties go to the insert, then the delete |
| CellFacts.RootlessFinite | Sources/TreeDistance/TreeDistance.swift:91-93 | a forest that stops short of the root has cells of finite cost |
| CellFacts.RootCell | Sources/TreeDistance/TreeDistance.swift:38-41 | the memo entry for the two roots is the cell for the two whole trees |
| CellFacts.DistanceFinite | Sources/TreeDistance/TreeDistance.swift:41 | the distance between two trees is finite |
| CellFacts.CellWellFormed | Sources/TreeDistance/TreeDistance.swift:84-104 | every cell's trail is well formed: an insert names its parent, a rename names its target, and a reuse costs the reused trail's total |
| CellFacts.SubtreeFree | Sources/TreeDistance/TreeDistance.swift:95-104 | when renaming a label to itself is free, every subtree is at distance 0 from itself |
| CellFacts.SelfDistanceZero | Tests/TreeDistanceTests/TreeDistanceTests.swift:38-46 | a tree is at distance 0 from itself when renaming a label to itself is free |
| CellFacts.RenameSumZero | Sources/TreeDistance/TreeDistance.swift:99-100 | renaming each node into the node at the same index costs nothing in total when the labels agree at every index and renaming a label to itself is free |
| CellFacts.DiagonalBound | Sources/TreeDistance/TreeDistance.swift:79-107 | in trees whose postorder views have the same size and LMLDs, the forest cell with equal windows in both trees is finite and costs at most the sum of renaming each node of the window into the node at the same index |
| CellFacts.SubtreeBound | Sources/TreeDistance/TreeDistance.swift:95-111 | in such trees, the memo entry for a node and the node at the same index is finite and costs at most the sum of renaming each node of its subtree into the node at the same index |
| CellFacts.CellSourced | Sources/TreeDistance/TreeDistance.swift:59-104 | every plain step in a cell's trail costs what the cost function gives its edit, or is infinite; a rename step renames a node of the first tree into a node of the second; reused trails obey the same |
| TreeDistances.ProblemOf | Sources/TreeDistance/TreeDistance.swift:11-26 | both postorder views have the program's shape facts, and their sizes are the trees' node counts |
| TreeDistances.DistanceIsFinite | Sources/TreeDistance/TreeDistance.swift:41 | the distance is finite |
| TreeDistances.DistanceWellFormed | Sources/TreeDistance/TreeDistance.swift:38 | the root-pair trail that the walk reads is well formed |
| TreeDistances.DistanceToSelf | Tests/TreeDistanceTests/TreeDistanceTests.swift:38-46 | a tree is at distance 0 from itself under any cost that makes renaming a label to itself free |
| TreeDistances.SimilarDistance | Sources/TreeDistance/TreeDistance.swift:7-43 | two trees of the same shape have a finite distance of at most the sum of renaming each node of the first into the node at the same postorder index of the second |
| TreeDistances.CopyDistanceZero | Tests/TreeDistanceTests/TreeDistanceTests.swift:38-47 | two trees that differ only in node identities are at distance 0 when renaming a label to itself is free |
| TreeDistances.DistanceSourced | Sources/TreeDistance/TreeDistance.swift:59-104 | every step of the root-pair trail is priced by the cost function or infinite, and renames only first-tree nodes into second-tree nodes |
| TreeDistances.Distance | Sources/TreeDistance/TreeDistance.swift:7-41 | returns the trail of the memo entry for the two roots, and that trail's total cost, which is finite |
| TreeDistances.Prepare | Sources/TreeDistance/TreeDistance.swift:11-20 | postorder map, LMLD array and keyroot list agree with the tree's postorder view; the root is numbered last |
| TreeDistances.KeyrootsOf | Sources/TreeDistance/TreeDistance.swift:19-20 | the keyroot list's postorder numbers are exactly the keyroots, ascending |
| TreeDistances.FillMemo | Sources/TreeDistance/TreeDistance.swift:31-36 | after the two keyroot loops, the memo holds every subtree pair's trail |
| TreeDistances.ReadyAt | Sources/TreeDistance/TreeDistance.swift:32-36 | when the loops reach a keyroot pair, every memo entry that pair reads is already filled |
| TreeDistances.MemoDone | Sources/TreeDistance/TreeDistance.swift:38-41 | after the loops the entry for the two roots holds the root-pair trail |
| TreeNodes.IndexOf | Sources/TreeDistance/TreeNode.swift:27-29 | the index of the first occurrence of the child |
| TreeNodes.InsertAt | Sources/TreeDistance/TreeNode.swift:15-21 | inserting a new member at `p` puts it at `p`, shifts later members right, and keeps the list duplicate-free; deleting it again gives back the list |
| TreeNodes.InsertedFacts | Sources/TreeDistance/TreeNode.swift:15-21 | `addChild` keeps the children duplicate-free and adds exactly the child; a new child lands at the position (last without one) and deleting it again gives back the list; a child already present adds nothing |
| TreeNodes.InsertedMembers | Sources/TreeDistance/TreeNode.swift:15-21 | after `addChild`, the children are the old children plus the new child |
| TreeNodes.RemovedFacts | Sources/TreeDistance/TreeNode.swift:23-25 | `deleteChild` removes exactly that child: the list loses one entry and stays duplicate-free |
| TreeNodes.RemovedMembers | Sources/TreeDistance/TreeNode.swift:23-25 | every other child is kept |
| TreeNodes.AddChildClosed | Sources/TreeDistance/TreeNode.swift:15-21 | `addChild` of a node of the heap keeps every child list duplicate-free and inside the heap |
| TreeNodes.DeleteChildClosed | Sources/TreeDistance/TreeNode.swift:23-25 | `deleteChild` keeps every child list duplicate-free and inside the heap |
| TreeNodes.Arena.constructor | Sources/TreeDistance/TreeNode.swift:4-8 | an empty node heap |
| TreeNodes.Arena.NewNode | Sources/TreeDistance/TreeNode.swift:10-13 | a new node has a fresh identity, the label, no parent and no children |
| TreeNodes.Arena.Clone | Sources/TreeDistance/TreeNode.swift:31-33 | a clone has a fresh identity, the same label, no parent and no children |
| TreeNodes.Arena.AddChild | Sources/TreeDistance/TreeNode.swift:15-21 | only the node's children change, becoming the child inserted at the position (appended without one) |
| TreeNodes.Arena.PositionOfChild | Sources/TreeDistance/TreeNode.swift:27-29 | the index of the child among the node's children; the child must be there |
| TreeNodes.Arena.DeleteChild | Sources/TreeDistance/TreeNode.swift:23-25 | only the node's children change, losing exactly that child |
| TreeNodes.Arena.SetParent | Sources/TreeDistance/TreeNode.swift:7 | only the node's parent link changes |
| TreeNodes.Arena.SetLabel | Sources/TreeDistance/TreeNode.swift:6 | only the node's label changes |
| ChildLists.PromoteSplices | Sources/TreeDistance/TreeDistance.swift:211-214 | inserting the children last-first at one position puts them there in their own order |
| ChildLists.PromoteFacts | Sources/TreeDistance/TreeDistance.swift:211-214 | promoting keeps the parent's list duplicate-free and adds only promoted children |
| ChildLists.PromoteRemoved | Sources/TreeDistance/TreeDistance.swift:209-216 | after promotion and removal, the parent's list is the part before the deleted node, its children, then the part after it |
| ChildLists.AdoptIsFilter | Sources/TreeDistance/TreeDistance.swift:180-189 | the inserted node adopts the parent's children that appear in `descendants`, in the parent's order |
| ChildLists.MatchingIsFilter | Sources/TreeDistance/TreeDistance.swift:180-189 | `toRemove` is that same list, when the descendants are distinct |
| ChildLists.CopiesOnce | Sources/TreeDistance/TreeDistance.swift:182-187 | with distinct descendants, each child is moved at most once |
| ChildLists.RemoveFiltered | Sources/TreeDistance/TreeDistance.swift:191-193 | removing the adopted children leaves the others in their order |
| ChildLists.FilterMembers | Sources/TreeDistance/TreeDistance.swift:180-193 | the adopted children are the parent's children that are descendants; the rest are the others |
| EditScripts.Emitted | Sources/TreeDistance/TreeDistance.swift:116-146 | the walk turns only plain steps into edits |
| EditScripts.EmittedCost | Sources/TreeDistance/TreeDistance.swift:116-146 | the own costs of the steps the walk emits add up to the trail's total |
| EditScripts.StartDescribes | Sources/TreeDistance/TreeDistance.swift:125-145 | the edit for a step has the step's operation and cost; an insert acts on a fresh clone with the inserted node's label, position and sibling count; delete and rename act on the first-tree node |
| EditScripts.Synth | Sources/TreeDistance/TreeDistance.swift:116-166 | the walk appends one edit per emitted step |
| EditScripts.SynthDescribes | Sources/TreeDistance/TreeDistance.swift:116-166 | the walk keeps the earlier edits and appends, in order, one edit describing each emitted step; it only adds fresh nodes and matches exactly the nodes that are inserted or renamed into |
| EditScripts.ScriptCost | Sources/TreeDistance/TreeDistance.swift:116-166 | the costs of the edits the walk appends add up to the trail's total cost |
| EditScripts.MatchedBelowValues | Sources/TreeDistance/TreeDistance.swift:148-163 | every node an insert adopts is the counterpart of a second-tree node |
| EditScripts.Synthesis.constructor | Sources/TreeDistance/TreeDistance.swift:8-29 | no edits and no matches yet |
| EditScripts.Synthesis.ApplyForestTrails | Sources/TreeDistance/TreeDistance.swift:116-166 | the recursive walk leaves the edits, the matches and the heap exactly as the specification walk does |
| EditScripts.Synthesis.StartEdit | Sources/TreeDistance/TreeDistance.swift:125-145 | one plain step's edit and state change, as the specification walk takes them |
| EditScripts.Synthesis.CollectMatched | Sources/TreeDistance/TreeDistance.swift:148-163 | the counterparts of the second-tree node's descendants, in preorder |
| EditScripts.SortEdits | Sources/TreeDistance/TreeDistance.swift:39 | the same edits (a permutation) with the same total cost, every delete before every rename before every insert |
| EditScripts.InsertSorted | Sources/TreeDistance/TreeDistance.swift:39 | inserting an edit after every edit of a lower or equal operation and before every higher one keeps the script sorted, adds exactly that edit and adds its cost |
| EditScripts.SortedGroups | Sources/TreeDistance/TreeDistance.swift:295-297 | in a sorted script no edit is `<` an edit before it |
| EditScripts.TreeDistance | Sources/TreeDistance/TreeDistance.swift:7-43 | for two trees already held in the heap, the cost is the finite total of the root-pair trail; the edits are the walk's edits, sorted by operation, and their costs add up to the distance; the heap ends as the walk leaves it |
| EditScripts.SharedNodesAgree | Sources/TreeDistance/TreeDistance.swift:140-142 | two trees held in one heap give every node they share the same label and the same children, so a rename naming a shared node reads the label the second tree gives it |
| Transforms.InsertIndex | Sources/TreeDistance/TreeDistance.swift:195 | the index is `max(0, count - childrenCount + 1 + position)`, and it is within the list when the position is below the child count |
| Transforms.RenameNode | Sources/TreeDistance/TreeDistance.swift:218-221 | a rename keeps the heap linked and the same set of nodes |
| Transforms.RenameClosed | Sources/TreeDistance/TreeDistance.swift:218-221 | only the first node's label changes, and it becomes the second node's label |
| Transforms.DeleteNode | Sources/TreeDistance/TreeDistance.swift:206-216 | a delete succeeds exactly when the node has a parent that lists it, and keeps the same nodes |
| Transforms.DeleteSplices | Sources/TreeDistance/TreeDistance.swift:206-216 | the deleted node's children take its place among the parent's children, in order, with the parent as their parent |
| Transforms.DeleteClosed | Sources/TreeDistance/TreeDistance.swift:206-216 | afterwards the deleted node is off its parent's list, and its children point to that parent |
| Transforms.Adopted | Sources/TreeDistance/TreeDistance.swift:180-189 | adopting keeps the heap linked and the same nodes |
| Transforms.Detached | Sources/TreeDistance/TreeDistance.swift:191-193 | detaching succeeds exactly when every child to remove is still on the parent's list |
| Transforms.AdoptDetach | Sources/TreeDistance/TreeDistance.swift:180-193 | adopting and then detaching moves exactly the parent's descendant children under the inserted node, in order |
| Transforms.Placed | Sources/TreeDistance/TreeDistance.swift:195-197 | placing keeps the heap linked and the same nodes |
| Transforms.PlacedFresh | Sources/TreeDistance/TreeDistance.swift:195-197 | the inserted node goes to the `max(0, …)` index of the parent's remaining children, and the parent becomes its parent |
| Transforms.InsertUnder | Sources/TreeDistance/TreeDistance.swift:175-197 | an insert under a parent succeeds only for an edit with a position and a sibling count |
| Transforms.InsertAdopts | Sources/TreeDistance/TreeDistance.swift:175-197 | the whole insert: the inserted node takes the parent's descendant children, then sits at the computed index among the rest |
| Transforms.InsertUnderClosed | Sources/TreeDistance/TreeDistance.swift:175-197 | afterwards the inserted node is one of the parent's children and points to it |
| Transforms.InsertUnderSteps | Sources/TreeDistance/TreeDistance.swift:175-197 | an insert under a parent is adopt, then detach, then place |
| Transforms.InsertRoot | Sources/TreeDistance/TreeDistance.swift:198-204 | inserting a root keeps the heap linked with the same nodes |
| Transforms.InsertRootClosed | Sources/TreeDistance/TreeDistance.swift:198-204 | the old root becomes a child of the inserted node (its only child when it had none) and points to it |
| Transforms.Apply | Sources/TreeDistance/TreeDistance.swift:172-222 | an edit that succeeds names nodes of the heap and yields a linked heap with the same nodes and a root among them |
| Transforms.ApplyClosed | Sources/TreeDistance/TreeDistance.swift:172-222 | every successful edit keeps children duplicate-free and all links inside the heap |
| Transforms.Transform | Sources/TreeDistance/TreeDistance.swift:169-226 | a replay that succeeds yields a linked heap with the same nodes and a root among them |
| Transforms.TransformClosed | Sources/TreeDistance/TreeDistance.swift:169-226 | a successful replay keeps children duplicate-free and all links inside the heap |
| Transforms.TransformConcat | Sources/TreeDistance/TreeDistance.swift:172-223 | replaying `a + b` is replaying `a` and then `b` from the result; a failure in `a` fails the whole |
| Transforms.TransformSnoc | Sources/TreeDistance/TreeDistance.swift:172-223 | replaying one more edit applies it to the result of the replay so far, and a failed replay stays failed |
| Transforms.RenameEdit | Sources/TreeDistance/TreeDistance.swift:218-221 | the heap becomes the renamed heap |
| Transforms.DeleteEdit | Sources/TreeDistance/TreeDistance.swift:206-216 | succeeds exactly when the delete is defined, and the heap becomes the one after the delete |
| Transforms.PromoteChildren | Sources/TreeDistance/TreeDistance.swift:211-214 | the loop inserts the children last-first at the position and points each to the parent |
| Transforms.InsertRootEdit | Sources/TreeDistance/TreeDistance.swift:198-204 | the heap becomes the one with the new root |
| Transforms.AdoptChild | Sources/TreeDistance/TreeDistance.swift:182-188 | one child is appended to the inserted node and re-parented when it is among the descendants; it is recorded once per occurrence |
| Transforms.AppendChild | Sources/TreeDistance/TreeDistance.swift:185-186 | the child is appended to the node's children and points to the node; nothing else changes |
| Transforms.AdoptDescendants | Sources/TreeDistance/TreeDistance.swift:180-189 | succeeds exactly when there are descendants or the parent has no children; the heap is the adopted heap and `toRemove` lists the moved children in order |
| Transforms.DetachAll | Sources/TreeDistance/TreeDistance.swift:191-193 | succeeds exactly when every child to remove is found in turn, and the heap becomes the detached heap |
| Transforms.PlaceInserted | Sources/TreeDistance/TreeDistance.swift:195-197 | succeeds exactly when the computed index fits, and the heap becomes the placed heap |
| Transforms.InsertUnderEdit | Sources/TreeDistance/TreeDistance.swift:175-197 | succeeds exactly when the insert is defined, and the heap becomes the heap after it |
| Transforms.ApplyEdit | Sources/TreeDistance/TreeDistance.swift:173-222 | succeeds exactly when the edit is defined, and leaves the heap and the root that the edit yields |
| Transforms.TransformTree | Sources/TreeDistance/TreeDistance.swift:169-226 | succeeds exactly when the replay is defined, and leaves the heap and the root that the replay yields |
| StringTrees.UnitCost | Tests/TreeDistanceTests/StringTreeNode.swift:103-112 | every cost is 0 or 1; a rename is free exactly when the labels are equal; insert and delete cost 1 |
| StringTrees.UnitCostFreeSelfRename | Tests/TreeDistanceTests/StringTreeNode.swift:105-106 | renaming a label to itself is free |
| StringTrees.UnitDistanceToSelf | Tests/TreeDistanceTests/TreeDistanceTests.swift:38-46 | under the unit cost every tree is at distance 0 from itself |
| StringTrees.ShapeString | Tests/TreeDistanceTests/StringTreeNode.swift:12-18 | the serialisation depends only on labels and shape, not on node identities |
| StringTrees.ReadNode | Tests/TreeDistanceTests/StringTreeNode.swift:26-64 | the loop reads what the specification reader reads: the same nodes, the same rest of the input and the same failure |
| StringTrees.FromString | Tests/TreeDistanceTests/StringTreeNode.swift:22-67 | the result is the specification parse from the given first identity, `None` where the source traps; every node of the result is new: the ids are distinct and lie between the first identity and the returned next unused one |
| StringTrees.ReadShort | Tests/TreeDistanceTests/StringTreeNode.swift:54-56 | each non-delimiter replaces the pending label, so every label read is at most one character |
| StringTrees.ParseShort | Tests/TreeDistanceTests/StringTreeNode.swift:54-56 | every label of a parsed tree is at most one character |
| StringTrees.ParseWithoutParentheses | Tests/TreeDistanceTests/StringTreeNode.swift:59-61 | input without "(" parses, when it parses, to a single leaf with a one-character label |
| StringTrees.NoKidsWithoutParent | Tests/TreeDistanceTests/StringTreeNode.swift:37-47 | with no parent the reader never adds a node to a child list |
| StringTrees.ParseDistinct | Tests/TreeDistanceTests/StringTreeNode.swift:33-60 | every node of a parsed tree is a new node: the node ids are distinct, as the distance requires, and lie between the first identity and the next unused one, so trees parsed one after the other share no node |
| StringTrees.RoundTrip | Tests/TreeDistanceTests/StringTreeNode.swift:12-67 | parsing the serialisation of a tree with one-character, non-delimiter labels gives back the tree up to node identities |
| StringTrees.RoundTripString | Tests/TreeDistanceTests/TreeDistanceTests.swift:6-18 | for such trees, serialising the parse of the serialisation gives back the serialisation |
| StringTrees.ShapeCopy | Tests/TreeDistanceTests/StringTreeNode.swift:12-18 | trees with the same labels in the same shape differ only in node identities |
| StringTrees.SameStringDistanceZero | Tests/TreeDistanceTests/TreeDistanceTests.swift:30-47 | reading one serialisation twice, from any two first identities, gives two copies at unit distance 0 (`run(tree, tree, 0)`, `run("a(b)", "a(b)", 0)`) |
| StringTrees.UnitRenameSum | Tests/TreeDistanceTests/StringTreeNode.swift:103-112 | under the unit cost, renaming each node into the node at the same postorder index costs the number of indices whose labels differ |
| StringTrees.UnitSimilarDistance | Tests/TreeDistanceTests/TreeDistanceTests.swift:38-41 | under the unit cost, two trees of the same shape are at most as far apart as the number of postorder indices whose labels differ; this bounds `run("a(c)", "a(d)", 1)` and `run("a(b,c)", "a(b,g)", 1)` by 1 |
| RoundTrips.EmittedPriced | Sources/TreeDistance/TreeDistance.swift:116-146 | every step the walk emits from a sourced trail is priced by the cost function or infinite, and a rename names a first-tree node and a second-tree node |
| RoundTrips.SumZero | Sources/TreeDistance/TreeDistance.swift:41 | a total cost of zero has only zero summands |
| RoundTrips.FreeStep | Sources/TreeDistance/TreeDistance.swift:84-106 | under a cost where inserts and deletes cost something and only renames between equal labels are free, a priced step of cost zero is such a rename |
| RoundTrips.ZeroTrailRenames | Sources/TreeDistance/TreeDistance.swift:116-146 | under such a cost, a sourced trail of total cost zero emits only renames of first-tree nodes into second-tree nodes with the same label |
| RoundTrips.FreeRenamesConcat | Sources/TreeDistance/TreeDistance.swift:121-123 | the steps of two concatenated runs are all such renames exactly when the steps of each run are |
| RoundTrips.SynthRenames | Sources/TreeDistance/TreeDistance.swift:116-146 | walking a trail that emits only renames clones nothing and leaves the heap's labels, parents, children and next id unchanged |
| RoundTrips.TransformIdle | Sources/TreeDistance/TreeDistance.swift:169-226 | replaying renames of heap nodes onto labels they already carry, in any order, succeeds and returns the heap and the root unchanged |
| RoundTrips.DescribedIdle | Sources/TreeDistance/TreeDistance.swift:140-142 | the edits the walk reads off such renames, for two trees held in the heap, rename heap nodes onto the labels they already carry |
| RoundTrips.IdlePermuted | Sources/TreeDistance/TreeDistance.swift:39 | sorting such edits keeps them such edits |
| RoundTrips.CopyReplays | Sources/TreeDistance/TreeDistance.swift:7-43 | for two trees held in a linked heap that differ only in node identities, under such a cost: the distance is 0, the walk leaves the heap unchanged, and `transformTree` replays the script, sorted in any order, to the same heap with the first tree's root as root |
| RoundTrips.UnitOnlySelfRenameFree | Tests/TreeDistanceTests/StringTreeNode.swift:103-112 | the unit cost makes inserts and deletes cost something and renames free only between equal labels |
| RoundTrips.SameStringReplays | Tests/TreeDistanceTests/TreeDistanceTests.swift:50-56 | `run1(a, a)`: the script between two readings of one serialisation, held in a linked heap, replays to the first reading unchanged, and that tree serialises back to the string read |

## Left out

- Costs are `Double` in the source, with `.infinity` for a blocked root delete. The model uses
  `nat` costs with an explicit `Inf` case, which never mixes with finite sums.
- Node identity (`UUID`, `ObjectIdentifier` hashing, `===`) is a `nat` id. For the immutable
  trees the ids are a field; in the heap they are keys handed out by a counter. `clone` takes
  the heap's next unused id. The parser takes its first id as a parameter and returns the next
  unused one, so trees parsed one after the other never share an id.
- `OrderedSet` is modelled only as a duplicate-free sequence. Inserting a member that is
  already present changes nothing.
- All `description` and `CustomStringConvertible` code and WolfBase's `flanked` are left out.
  `TreeOperation.description` is kept only as the three distinct words.
- The stability of Swift's `sort` is not documented, so the order of edits within one operation
  class is left unspecified. The model proves only the class order, the permutation and the
  unchanged total.
- `ReversibleMap`'s iteration as a `Sequence` and its dictionary-literal initialiser are left
  out, because dictionary order is unspecified. `put(contentsOf:)` takes the pairs as a
  sequence in some order.
- The random tree initialisers and the test RNG are left out. The properties they exercise
  (round trip, distance to self) are proved for all trees instead.
- The concrete expectations of `testBasics` for `A(B(C,D,E(F)),G)` are not proved on that
  literal. Their general forms are proved instead: the postorder, LMLD and keyroot
  characterisations.
- StringTrees.UnitSimilarDistance: gives only the upper bound 1 for `run("a(c)", "a(d)", 1)` and
  `run("a(b,c)", "a(b,g)", 1)`, not equality. A lower bound would need every script to touch
  the renamed node. `run("4(1,2,3)", "4(3(1,2))", 2)` relates trees of different shapes and is
  covered only by TreeDistances.DistanceIsFinite.
- EditScripts.TreeDistance: does not promise that replaying its script on `t1` gives `t2`.
  That round trip is proved only for trees that differ only in node identities
  (RoundTrips.CopyReplays, RoundTrips.SameStringReplays). In general the result depends on
  which of several equally cheap trails the tie-breaking picks.
- Transforms.TransformTree: is modelled as written but has no general replay theorem. It puts an
  inserted node at `max(0, parent.children.count - childrenCount + 1 + position)`
  (`TreeDistance.swift:195`), from counts taken when the script was built, before the earlier
  edits ran. Whether that index is the second tree's position is not proved. The model proves
  what each replayed edit does to the heap, that replay keeps the heap well linked, and that
  the script's edits describe the trail's steps.
- TreeDistances.Distance: reads each node's parent from the tree value (its postorder parent
  index). The source reads the mutable `parent` field (`TreeDistance.swift:61,73,84,91,131-133`).
  The two agree when both inputs are whole trees whose roots have no parent, as in every test.
  ForestDistances.FillFirstRow and the interior cells block the delete of the node without a
  parent index, the first tree's root, in the same way. A subtree passed with its parent still
  set is not modelled.
- The label cost function is a total function parameter. `TransformableLabel` is only an
  interface.
- `TreeNodeProtocol`'s declarations that differ from `TreeNode` (`id`, `init(_:id:)`) are
  left out. The model follows the operations `TreeNode` implements.
- StringTrees.UnitCost: a rename with no other label costs 1, where the source force-unwraps
  the other label and traps. No caller renames without a target.
- StringTrees.UnitCost: compares labels code point by code point. Swift's `String ==` uses
  canonical equivalence, so labels that differ only in Unicode normalisation rename for 0 in
  the source and for 1 here.
- StringTrees.ReadNode: reads one code point (`char`) at a time. A Swift `Character` is an
  extended grapheme cluster, so a letter followed by a combining mark is one label character
  in the source and two reads here, where the second replaces the first.
- Traps are modelled as failures: a force-unwrap of `nil` or a missing parent in
  `transformTree`, and a malformed string in `fromString`. Traps inside the distance (the memo
  and postorder force-unwraps) are instead proved not to happen.
- Transforms.TransformTree requires every edit to name nodes of the heap. In the source an
  edit holds node references, which always exist.
- TreeDistances.Distance and EditScripts.TreeDistance require distinct node ids in each tree.
  Reference identity guarantees this in the source. StringTrees.ParseDistinct proves it for
  parsed trees. The two trees may share nodes: the source does not forbid it, and no contract
  here needs them apart.
- EditScripts.TreeDistance requires both trees to be held in the heap (`Holds`). In the source
  the trees' nodes are the heap the walk clones into and reads parents from.
- ForestDistances.ForestDistance requires the memo entries it reads to be filled. The source
  force-unwraps them. TreeDistances.ReadyAt proves the keyroot order provides this.
- Transforms.PromoteChildren takes the deleted node's children as a list read before the
  loop. The source reads `deleted.children` on each pass, but the loop never changes that list.
- StringTrees.RoundTrip compares trees up to node identities, which the parser gives afresh.
  It covers labels of one character that is not a delimiter, as the tests' trees have.
- Integer widths: `Int` overflow is not modelled. Counts and indices are unbounded `nat`s.
