# Red-black tree with a step log

This project models the tree engine of a red-black tree visualiser
(`js/redblacktree.js`, `js/node.js`) and proves it correct in Dafny.

A tree is a `RedBlackTree` object. It holds a `root` reference to `RBNode`
objects, which are linked by `left`, `right` and `parent` references, and an
animation log `steps`. `insert`, `search`, `delete` and `clear` start by
clearing the log; `insert`, `search` and `delete` then append one record per
step they take. The traversals, `height`, `isEmpty`, `count` and `verify`
leave the log alone. A record carries:

- the step's type tag;
- the key of the node concerned;
- a detached snapshot of the whole tree at that moment.

The snapshot is the `serializeTree` value, a `{value, color, left, right}`
tree. The display messages are left out.

Both classes are modelled as Dafny classes, with the same fields. The
operations are methods that rewrite those fields in place:

- `insert`, with its descent and `fixInsert`;
- `delete`, with `searchNode`, `deleteNode`, `transplant`, `minimum` and `fixDelete`;
- the two rotations;
- `search`, `clear` and step logging.

Each node also has ghost bookkeeping:

- the set of nodes in its subtree (`sub`);
- its black height (`bh`, the black nodes strictly below it on every path).

The tree keeps the set of its nodes (`Repr`) as a ghost field.

`Valid()` is the red-black invariant stated on the linked structure:

- parent links agree with child links;
- keys are strictly ordered (a search tree);
- the root is black;
- a red node has black children;
- every path carries the same number of black nodes.

`insert`, `delete` and `clear` are proved to keep `Valid()`, and `insert` and
`delete` to change the set of keys exactly by the key concerned. The rotations
keep the links consistent, the search order and the in-order sequence. Each
fix-up step keeps the weaker invariant of its loop, and the loop ends in
`Valid()`. The logged steps are pinned down exactly for
`search`, for `insert`'s descent and for `delete`'s opening steps. The fix-up
phases are pinned down by step type only.

The pure side lives in module `RBSpec`. It holds the value tree that
snapshots produce, with:

- in-, pre- and post-order traversals, `height` and `count`;
- the red-black properties on values;
- `verify`'s recursive `checkNode` as a function.

The lemmas there connect these to one another, for example:

- `verify` reports no error exactly on red-black trees;
- the traversals are permutations of each other;
- the height is logarithmic in the node count.

The methods on the linked tree are proved against these functions through
`SerializeTree`.

With two children, `deleteNode` relinks the successor node itself into
`z`'s place and gives it `z`'s colour (`js/redblacktree.js:325-343`); no
value is copied between nodes. The model does the same. As a result, the node
`delete` removes is the one holding the key, and every other node keeps its
value.

## Model

| member | source | states |
|---|---|---|
| Nodes.RBNode.constructor | js/node.js:6-12 | a new node holds the given key, is red and has no children and no parent |
| RedBlackTrees.RedBlackTree.GrandparentShape | js/node.js:15-18 | in a well-formed tree a node has a grandparent exactly when neither it nor its parent is the root; the grandparent is then a tree node, distinct from the node, whose subtree holds it and one of whose children is the node's parent |
| Nodes.RBNode.Sibling | js/node.js:31-37 | there is no sibling without a parent; otherwise the node and its sibling are exactly the parent's two children |
| Nodes.RBNode.Uncle | js/node.js:21-28 | the uncle is the parent's sibling, and there is none without a parent |
| Nodes.RBNode.IsRed | js/node.js:40-42 | a node is red exactly when it is not coloured black; with IsBlack, every node is exactly one of red and black |
| Nodes.RBNode.IsBlack | js/node.js:40-47 | a node is black exactly when it is not red (the two colours are exhaustive) |
| RBSpec.Height | js/redblacktree.js:475-478 | the height is at least -1, and it is -1 exactly for the empty tree |
| RBSpec.TraversalSizes | js/redblacktree.js:439-470 | each of the three traversals lists every node once: its length is the node count |
| RBSpec.TraversalsAgree | js/redblacktree.js:439-470 | pre- and post-order are permutations of in-order, and in-order lists exactly the tree's (key, colour) entries |
| RBSpec.InOrderIncreasing | js/redblacktree.js:439-446 | the in-order traversal of a search tree has strictly increasing keys |
| RBSpec.IncreasingUnique | js/redblacktree.js:439-446 | two strictly increasing sequences with the same elements are equal, so in-order is fixed by the tree's entries |
| RBSpec.CountIsKeyCount | js/redblacktree.js:498-501 | in a search tree the node count is the number of distinct keys |
| RBSpec.HeightBelowCount | js/redblacktree.js:475-501 | the height is less than the node count |
| RBSpec.NoRedRedIffNoKeys | js/redblacktree.js:526-531 | no red node has a red child exactly when the set of keys of red nodes with a red child is empty |
| RBSpec.CheckNodeCounts | js/redblacktree.js:515-540 | checkNode returns the black count of the first path it completes (the one recorded before, or the count so far plus the subtree's black height), and reports unequal counts exactly when the subtree is not black-balanced or its paths disagree with the recorded count |
| RBSpec.CheckNodeRedRed | js/redblacktree.js:526-531 | checkNode never reports a red root, and it reports a red node with a red child for exactly those keys |
| RBSpec.VerifyTreeCorrect | js/redblacktree.js:506-548 | verify is valid exactly when it reports no error, and exactly when the tree is red-black; each kind of error appears exactly when its property fails |
| RBSpec.CountAtLeast | js/redblacktree.js:4-10 | a black-balanced tree has at least 2^bh - 1 nodes, whatever its colours otherwise |
| RBSpec.HeightAtMost | js/redblacktree.js:4-10 | in a tree with no red-red pair and balanced black counts, height + 1 is at most twice the black height (plus one when the root is red) |
| RBSpec.HeightBound | js/redblacktree.js:4-10 | a red-black tree of n nodes has 2^((height+1)/2) <= n+1: its height is logarithmic |
| Steps.SearchTraceOutcome | js/redblacktree.js:229-245 | the search log of a search tree extends the prior log, and its last step is `found` exactly when the key is present and `not-found` exactly when it is absent |
| Steps.CompareTraceOutcome | js/redblacktree.js:131-143 | insert's descent logs only `compare` steps, and then a final `duplicate` exactly when the key is already present |
| RedBlackTrees.RedBlackTree.SerializeTree | js/redblacktree.js:47-55 | the snapshot of a subtree is empty exactly for a null node |
| RedBlackTrees.RedBlackTree.SerializeFacts | js/redblacktree.js:47-55 | the snapshot of a subtree is a search tree holding exactly the subtree's keys and (key, colour) entries, one per node |
| RedBlackTrees.RedBlackTree.SerializeRedBlack | js/redblacktree.js:47-55 | the snapshot of a subtree of a valid tree has no red-red pair and is black-balanced, and its black height and root colour are those of the nodes |
| RedBlackTrees.RedBlackTree.SnapshotIsBST | js/redblacktree.js:40-42 | the snapshot of a well-formed tree is a search tree |
| RedBlackTrees.RedBlackTree.ValidIsRedBlack | js/redblacktree.js:4-10 | the invariant on the linked nodes makes the snapshot a red-black tree |
| RedBlackTrees.RedBlackTree.ParentLink | js/node.js:6-12 | only the root lacks a parent, and every other node is one of its parent's children |
| RedBlackTrees.RedBlackTree.ClearSteps | js/redblacktree.js:21-23 | the log is empty afterwards |
| RedBlackTrees.RedBlackTree.AddStep | js/redblacktree.js:28-35 | the log grows by one record with the type, the node's key (none for no node) and the current snapshot; the tree and its validity are untouched |
| RedBlackTrees.RedBlackTree.InOrderFrom | js/redblacktree.js:439-446 | the walk appends the in-order traversal of the subtree's snapshot to the result passed in |
| RedBlackTrees.RedBlackTree.PreOrderFrom | js/redblacktree.js:451-458 | the walk appends the pre-order traversal of the subtree's snapshot |
| RedBlackTrees.RedBlackTree.PostOrderFrom | js/redblacktree.js:463-470 | the walk appends the post-order traversal of the subtree's snapshot |
| RedBlackTrees.RedBlackTree.HeightFrom | js/redblacktree.js:475-478 | height on the nodes equals the height of the snapshot |
| RedBlackTrees.RedBlackTree.CountFrom | js/redblacktree.js:498-501 | count on the nodes is the number of nodes in the subtree |
| RedBlackTrees.RedBlackTree.IsEmpty | js/redblacktree.js:483-485 | the tree is empty exactly when it holds no key |
| RedBlackTrees.RedBlackTree.WalkSizes | js/redblacktree.js:439-501 | the in-order walk, count and the node set have one size, and the three walks are permutations of each other |
| RedBlackTrees.RedBlackTree.InOrderSorted | js/redblacktree.js:439-446 | the in-order walk of the tree has strictly increasing keys and lists exactly its nodes' (key, colour) pairs |
| RedBlackTrees.RedBlackTree.HeightLogarithmic | js/redblacktree.js:475-501 | a valid tree of n nodes has 2^((height+1)/2) <= n+1 |
| RedBlackTrees.RedBlackTree.CheckNodeFrom | js/redblacktree.js:515-540 | checkNode on the linked nodes computes the same count and errors as on the snapshot |
| RedBlackTrees.RedBlackTree.Verify | js/redblacktree.js:506-548 | valid exactly when there are no errors and exactly when the tree is red-black; a red root, a red node with a red child and unequal black counts are each reported exactly when present |
| RedBlackTrees.RedBlackTree.ValidPassesVerify | js/redblacktree.js:506-548 | a tree satisfying the invariant passes verify with no error |
| RedBlackTrees.RedBlackTree.Clear | js/redblacktree.js:490-493 | the tree is empty and valid, and the log is empty |
| RedBlackTrees.RedBlackTree.SearchNode | js/redblacktree.js:294-306 | returns a node of the tree holding the key, and null exactly when the key is absent |
| RedBlackTrees.RedBlackTree.Search | js/redblacktree.js:225-246 | as searchNode, leaving the tree unchanged, and the log is exactly the search trace of the tree |
| RedBlackTrees.RedBlackTree.SearchFound | js/redblacktree.js:229-245 | the log of a search ends in `found` exactly when the key is in the tree, and in `not-found` otherwise |
| RedBlackTrees.RedBlackTree.Leftmost | js/redblacktree.js:251-256 | the leftmost node of a subtree has no left child and holds the subtree's least key |
| RedBlackTrees.RedBlackTree.Minimum | js/redblacktree.js:251-256 | following left links from a node reaches the leftmost node of its subtree |
| RedBlackTrees.RedBlackTree.RotateLeft | js/redblacktree.js:60-82 | the right child takes the node's place (becoming the root when the node had no parent), the node becomes its left child, in-order is unchanged, no other node changes, and one `rotate-left` step is logged |
| RedBlackTrees.RedBlackTree.RelinkLeft | js/redblacktree.js:61-79 | the six link writes of rotateLeft rewire exactly the node, its right child, that child's left child and the parent |
| RedBlackTrees.RedBlackTree.RotateRight | js/redblacktree.js:87-109 | the mirror of RotateLeft, logging one `rotate-right` step |
| RedBlackTrees.RedBlackTree.RelinkRight | js/redblacktree.js:88-106 | the mirror of RelinkLeft |
| RedBlackTrees.RedBlackTree.Insert | js/redblacktree.js:114-158 | the tree stays valid and its keys gain the value; null is returned exactly for a duplicate, which changes nothing; otherwise the new node holds the value; the log is `create`, then `color-black` for an empty tree or the descent trace followed by an insert side step and fix-up steps |
| RedBlackTrees.RedBlackTree.PlantRoot | js/redblacktree.js:120-124 | the new node becomes the black root of a valid one-node tree, and `color-black` is logged |
| RedBlackTrees.RedBlackTree.Locate | js/redblacktree.js:128-143 | the descent leaves the tree unchanged, logs the compare trace, reports a duplicate exactly when the key is present, and otherwise returns a parent with a free slot where the key belongs |
| RedBlackTrees.RedBlackTree.Attach | js/redblacktree.js:145-152 | the new node hangs on the side the comparison selects, the other child is untouched, and `insert-left` or `insert-right` is logged |
| RedBlackTrees.RedBlackTree.Hang | js/redblacktree.js:145-155 | hanging and fixing up gives a valid tree with one more node and the new key; the log gains an insert side step and then only fix-up steps |
| RedBlackTrees.RedBlackTree.FixInsert | js/redblacktree.js:163-220 | from a tree whose only flaw is a red node under a red parent (or a red root), fixInsert reaches a valid tree on the same nodes, logging only case, rotation and root-black steps |
| RedBlackTrees.RedBlackTree.FixInsertStep | js/redblacktree.js:164-212 | one iteration keeps the flaw confined to one red node, and either ends the loop or moves that node strictly up the tree |
| RedBlackTrees.RedBlackTree.FixedUp | js/redblacktree.js:164 | when the loop stops, every node satisfies the red-black rules |
| RedBlackTrees.RedBlackTree.BlackenRoot | js/redblacktree.js:215-219 | blackening the root makes the tree valid, and `root-black` is logged exactly when the root was red |
| RedBlackTrees.RedBlackTree.InsertCase1 | js/redblacktree.js:170-176 | with a red uncle: parent and uncle turn black, and the flaw moves to the grandparent |
| RedBlackTrees.RedBlackTree.Recolour | js/redblacktree.js:173-175 | the recolouring keeps black heights and leaves only the grandparent possibly red under red |
| RedBlackTrees.RedBlackTree.InsertCase2Left | js/redblacktree.js:179-183 | a right child under a left parent is rotated so that the former parent is a red left child under a red parent, with a black uncle |
| RedBlackTrees.RedBlackTree.RotateCase2Left | js/redblacktree.js:181-182 | the left rotation at the parent keeps the invariant and logs `rotate-left` |
| RedBlackTrees.RedBlackTree.InsertCase3Left | js/redblacktree.js:185-188 | recolouring and a right rotation at the grandparent leave the node under a black parent |
| RedBlackTrees.RedBlackTree.RotateCase3Left | js/redblacktree.js:186-188 | the recolouring and rotation keep the invariant and log `rotate-right` |
| RedBlackTrees.RedBlackTree.InsertCase2Right | js/redblacktree.js:201-205 | the mirror of InsertCase2Left |
| RedBlackTrees.RedBlackTree.RotateCase2Right | js/redblacktree.js:203-204 | the mirror of RotateCase2Left |
| RedBlackTrees.RedBlackTree.InsertCase3Right | js/redblacktree.js:207-210 | the mirror of InsertCase3Left |
| RedBlackTrees.RedBlackTree.RotateCase3Right | js/redblacktree.js:208-210 | the mirror of RotateCase3Left |
| RedBlackTrees.RedBlackTree.KeysOfNodes | js/redblacktree.js:40-55 | the keys of the snapshot are the keys held by the tree's nodes |
| RedBlackTrees.RedBlackTree.Transplant | js/redblacktree.js:261-272 | the replacement takes the old node's place under its parent (or as the root), the other child is untouched, and the replacement's parent link is set |
| RedBlackTrees.RedBlackTree.Splice | js/redblacktree.js:317-324 | removing a node with at most one child puts that child in its place; the node set loses the node; a black removal leaves exactly one black node missing below the returned parent, and a red one leaves a valid tree |
| RedBlackTrees.RedBlackTree.ReplaceBySuccessor | js/redblacktree.js:325-343 | removing a node with two children relinks its successor in its place: the successor gets the node's parent (or becomes the root), its left child and its colour, and its right child too unless it was that child; x is the successor's former right child and xParent where x now hangs; the node set loses exactly the node; the reported colour is the successor's original one, and black leaves one black node missing, red a valid tree |
| RedBlackTrees.RedBlackTree.MoveSuccessor | js/redblacktree.js:330-342 | after the successor's relinking the node set is the old one less the removed node, and the successor stands where the removed node was, over both its subtrees |
| RedBlackTrees.RedBlackTree.CutSuccessor | js/redblacktree.js:334-336 | the successor's right child replaces it under its parent, and the successor adopts the removed node's right subtree |
| RedBlackTrees.RedBlackTree.PutSuccessor | js/redblacktree.js:339-342 | the successor takes the removed node's place, left subtree and colour |
| RedBlackTrees.RedBlackTree.SuccessorShape | js/redblacktree.js:326-333 | the successor is the leftmost node of the right subtree, has no left child and is either the right child or a left child deeper down |
| RedBlackTrees.RedBlackTree.SiblingShape | js/redblacktree.js:359-360 | while one black node is missing on x's side, x's sibling exists, so the source's null checks on it never fire |
| RedBlackTrees.RedBlackTree.Lighten | js/redblacktree.js:373-375 | colouring a black sibling with black children red moves the missing black node up to the parent |
| RedBlackTrees.RedBlackTree.DeleteCase1Left | js/redblacktree.js:362-368 | with a red sibling, the log gains exactly `fix-delete-case1` keyed on the sibling with the snapshot before the change, then `rotate-left` at the parent; the recolouring and rotation keep the same deficit at x under the same parent and give x a black sibling |
| RedBlackTrees.RedBlackTree.RotateDelete1Left | js/redblacktree.js:364-367 | the recolouring and left rotation keep the deficit and make the sibling's former left child x's new black sibling |
| RedBlackTrees.RedBlackTree.DeleteCase1Right | js/redblacktree.js:399-404 | the mirror of case 1: the source logs no case step here, so the log gains exactly the `rotate-right` at the parent |
| RedBlackTrees.RedBlackTree.RotateDelete1Right | js/redblacktree.js:400-403 | the mirror of RotateDelete1Left |
| RedBlackTrees.RedBlackTree.DeleteCase2 | js/redblacktree.js:373-375 | with a black sibling with black children, on either side, the deficit moves up to the parent |
| RedBlackTrees.RedBlackTree.DeleteCase2Left | js/redblacktree.js:370-375 | the log gains exactly `fix-delete-case2` keyed on the sibling (none when there is no sibling) with the snapshot before the change; the deficit moves up to the parent |
| RedBlackTrees.RedBlackTree.DeleteCase3Left | js/redblacktree.js:377-383 | with a black sibling whose near child is red and far child is black, the log gains exactly `fix-delete-case3` keyed on the sibling, then `rotate-right` at the sibling; the new sibling is black with a red far child and the deficit is kept |
| RedBlackTrees.RedBlackTree.RotateDelete3Left | js/redblacktree.js:379-382 | the recolouring and right rotation at the sibling keep the deficit |
| RedBlackTrees.RedBlackTree.DeleteCase3Right | js/redblacktree.js:412-417 | the mirror of DeleteCase3Left; the log gains exactly the `rotate-left` at the sibling |
| RedBlackTrees.RedBlackTree.RotateDelete3Right | js/redblacktree.js:413-416 | the mirror of RotateDelete3Left |
| RedBlackTrees.RedBlackTree.DeleteCase4Left | js/redblacktree.js:385-393 | with a black sibling whose far child is red, the log gains exactly `fix-delete-case4` keyed on the sibling, then `rotate-left` at the parent, and the whole tree is valid again |
| RedBlackTrees.RedBlackTree.RotateDelete4Left | js/redblacktree.js:387-391 | the recolouring and left rotation at the parent restore the invariant and log `rotate-left` |
| RedBlackTrees.RedBlackTree.RecolorDelete4 | js/redblacktree.js:387-390 | the sibling takes the parent's colour, and the far nephew and the parent turn black |
| RedBlackTrees.RedBlackTree.DeleteCase4Right | js/redblacktree.js:419-426 | the mirror of DeleteCase4Left; the log gains exactly the `rotate-right` at the parent, and the whole tree is valid again |
| RedBlackTrees.RedBlackTree.RotateDelete4Right | js/redblacktree.js:420-424 | the mirror of RotateDelete4Left |
| RedBlackTrees.RedBlackTree.LogFixDelete | js/redblacktree.js:363 | a fix-up step is appended and the log still holds only fix-up steps |
| RedBlackTrees.RedBlackTree.FixDeleteLeft | js/redblacktree.js:359-394 | one iteration with x on the left: either the tree is valid and x is the root (case 4), or the deficit moved strictly up to x's parent (case 2) |
| RedBlackTrees.RedBlackTree.FixDeleteRight | js/redblacktree.js:395-428 | the mirror iteration, with the same outcome |
| RedBlackTrees.RedBlackTree.Climb | js/redblacktree.js:374-375 | moving to the parent strictly shrinks the part of the tree outside the current subtree (the loop's measure) |
| RedBlackTrees.RedBlackTree.FixDelete | js/redblacktree.js:355-434 | from a tree missing one black node on the paths through x, fixDelete reaches a valid tree on the same nodes, logging only fix-delete case and rotation steps |
| RedBlackTrees.RedBlackTree.BlackenLast | js/redblacktree.js:431-433 | blackening a red x (or the root) absorbs the deficit and makes the tree valid |
| RedBlackTrees.RedBlackTree.ValidDeficient | js/redblacktree.js:356 | a valid tree trivially satisfies the fixDelete invariant at its root |
| RedBlackTrees.RedBlackTree.DistinctKeys | js/redblacktree.js:135-141 | distinct nodes hold distinct keys, as insert refuses duplicates |
| RedBlackTrees.RedBlackTree.KeysWithout | js/redblacktree.js:311-343 | removing one node removes exactly its key from the tree's keys |
| RedBlackTrees.RedBlackTree.Unlink | js/redblacktree.js:311-343 | deleteNode's unlinking removes exactly the node and reports the colour of the node that left its position (the node itself, or its successor); black leaves the fixDelete invariant, red a valid tree |
| RedBlackTrees.RedBlackTree.DeleteNode | js/redblacktree.js:311-350 | the tree stays valid and loses exactly the node and its key; the log gains a `delete` step for the key and then only fix-up steps, none at all when the removed colour was red |
| RedBlackTrees.RedBlackTree.Delete | js/redblacktree.js:277-289 | returns true exactly when the key was present; the tree stays valid and loses the key; a miss changes nothing and logs only `not-found`; a hit removes one node and logs `delete-start` with the prior snapshot, then `delete`, then only fix-up steps |
| RedBlackTrees.RedBlackTree.constructor | js/redblacktree.js:13-16 | a new tree is empty and valid with an empty log |

## Left out

- Messages: the human-readable `message` text of each step is not modelled. A step keeps its type, key and snapshot.
- Verify messages: the error strings of `verify` (`js/redblacktree.js:511`, 521, 530) are replaced by the `Violation` values `RedRoot`, `UnequalBlackCounts` and `RedNodeWithRedChild(value)`. The only variable part of those strings, the node's key, is kept.
- The page scripts outside the two core files are not part of this model: the visualiser, the controls and the animation player. The module-export lines are not either.
- Keys are Dafny integers. The source compares JavaScript values with `<`, `>` and `===`. Mixed types, `NaN` and string keys are not modelled.
- The null guards on the sibling `w` in fixDelete (`js/redblacktree.js:362`, 370, 373, 386 and the mirrored 399, 406, 408, 419) are kept as conditions, but they never fire. SiblingShape proves the sibling exists whenever one black node is missing below `xParent`.
- The `xParent === null` break (`js/redblacktree.js:357`) is kept, but it is unreachable for the same reason: a deficit with no parent means x is the root, which ends the loop first.
- FixDeleteLeft, FixDeleteRight: after case 4 the model sets `xParent` to null where the source leaves it stale. The loop ends at once and `xParent` is not read again, so no behaviour differs.
- The mirrored branch of fixDelete logs no `fix-delete-case*` steps (`js/redblacktree.js:395-428`). The model reproduces that. Only rotations are logged on that side.
- Ghost bookkeeping: `Repr`, `sub` and `bh` exist only for the proofs. They have no counterpart in the source.
- Insert: after the insert side step, the log is specified only as steps of the fixInsert types, not as the exact sequence of cases taken.
- FixInsert: the log is specified only as steps of its types (case, rotation, root-black), not as the exact sequence of cases taken.
- FixDelete: the log is specified only as steps of its types (fix-delete case, rotation), not as the exact sequence of cases taken.
- DeleteNode: after the `delete` step, the log is specified only as steps of the fixDelete types.
- Delete: after `delete-start` and `delete`, the log is specified only as steps of the fixDelete types.
- The traversals, `height` and `count` take an explicit start node and result list. The source's default-argument calls are the case starting from the root with an empty list.
