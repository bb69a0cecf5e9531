# A verified model of `priorityqueue<T>`

`priorityqueue.h` implements a min-priority queue keyed by `int`. The queue is
an unbalanced binary search tree ordered by priority. Each tree node
("tree-resident" node) owns a singly linked chain (`link`) of later
insertions with the same priority, in arrival order. Every node has a `dup`
flag and a `parent` pointer. As `enqueue` links them, chain nodes carry
`dup == true`, a tree-resident node's `parent` points at the node it hangs
from, and a chain node's `parent` points at the previous node of the chain.
Copies made by `operator=` have `dup` false on chain nodes and every
`parent` nullptr. The class also keeps an element counter `size` and a
cursor `curr`. `begin` and `next` use the cursor to walk the queue in order.

This project models that class in Dafny:

- `tree.dfy` (module `Trees`): the node structure as a value. A node's data
  fields are a `Cell` (priority, value, `dup`, and what `parent` holds:
  nullptr, the node it hangs from, or a deleted node). `Elements` is the
  in-order listing `toString` prints, which is the abstract value of the
  queue. The module also holds the invariants: BST order (`Ordered`) and the
  parent/`dup` link predicates (`RootDetached`, `LeftSafe`, `LeftLinked`,
  `Threaded`).
- `insertion.dfy` (`Insertion`): the tree `enqueue` builds. It is proved to
  place the new entry after every entry of lower or equal priority. As a
  result, the listing of any sequence of insertions is their stable sort.
- `removal.dfy` (`Removal`): the tree `dequeue` leaves. This covers
  chain-head promotion, splicing in the right subtree, and the root case,
  including what happens when the leftmost node's `parent` is nullptr.
- `drain.dfy` (`Draining`): calling `dequeue` until the queue is empty. The
  pairs come out in listing order, so a queue filled by `enqueue` is drained
  in stable-sorted order.
- `positions.dfy` (`Positions`): cursor positions, given as a path from the
  root plus an index into the node's chain. `Rest` is the rest of the
  listing from that position on. `next` writes exactly that while the tree
  is threaded (every `dup`/`parent` as `enqueue` sets them).
  A chain-head promotion in `dequeue` breaks that (see Findings).
- `cursor.dfy` (`Cursors`): the cursor `curr` as nullptr, a position, or
  dangling. `curr` points at a node, so when `dequeue` moves that node up
  the tree the cursor follows it. When the node is deleted, the cursor
  dangles.
- `copying.dfy`, `equality.dfy`: the deep copy of `operator=` and the
  comparison of `operator==`.
- `queue.dfy` (`Queue`): the class `PriorityQueue` with fields `root`,
  `size` and `curr`. Its methods follow the loops of the source. Each is
  proved against the functions above.
- `findings.dfy` (`Findings`): three defects of the source. Each comes with
  a concrete input and a corrected definition.

The class models the code as written, defects included. The corrected
definitions in `Findings` stand beside it.

## Model

| member | source | states |
|---|---|---|
| Trees.Elements | priorityqueue.h:54-76 | the in-order listing (left subtree, node, its chain, right subtree) has exactly one entry per node of the tree |
| Trees.OrderedSorted | priorityqueue.h:277-309 | a tree in BST order, with every chain node at its owner's priority, lists its entries in non-decreasing priority |
| Trees.GroupPriorities | priorityqueue.h:297-307 | in an ordered tree every entry of a node's group has the node's priority |
| Trees.LeftmostFirst | priorityqueue.h:44-51 | the node reached by following `left` from the root holds the first entry of the listing |
| Trees.Leftmost | priorityqueue.h:44-51 | the node reached by following `left` has no left child and its subtree is no larger than the tree |
| Trees.ReparentedKeeps | priorityqueue.h:343 | resetting one node's `parent` changes neither the listing nor the order, nor the left-child links below it |
| Trees.ThreadedLinked | priorityqueue.h:284-306 | when every `parent`/`dup` is as `enqueue` sets it, every left child points back at its parent and the root's parent is nullptr |
| Trees.LinkedSafe | priorityqueue.h:348-349 | when left children point at their parents, none of them points at a deleted node |
| Trees.AtSnoc | priorityqueue.h:282-291 | one more step down a path reaches the corresponding child of the node reached so far |
| Trees.ReplaceSnoc | priorityqueue.h:284-294 | rewriting a subtree one step deeper is rewriting the parent's child at the shallower path |
| Insertion.InsertElements | priorityqueue.h:257-312 | `enqueue` keeps BST order (greater goes right, smaller left, equal to the chain tail) and its listing is the old listing with `(priority, value)` placed after every entry of priority at most `priority` |
| Insertion.Insert | priorityqueue.h:257-312 | `enqueue` adds exactly one node on every branch, matching `size++`, and the top node keeps its `parent` (nullptr at the root; the new node's own `parent` when the tree was empty) |
| Insertion.InsertSortedSorted | priorityqueue.h:257-312 | placing an entry after all entries of lower or equal priority keeps a sorted listing sorted |
| Insertion.InsertSortedMultiset | priorityqueue.h:257-312 | that placement adds exactly the new entry and loses none |
| Insertion.InsertSortedFilter | priorityqueue.h:297-307 | among entries of one priority the new entry comes last: equal priorities keep arrival order |
| Insertion.InsertSortedSplit | priorityqueue.h:257-312 | the placement puts the entry at the position just past the entries of priority at most its own |
| Insertion.FilterAppend | priorityqueue.h:297-307 | the entries of one priority in a concatenation are those of each part, in order |
| Insertion.InsertThreaded | priorityqueue.h:284-306 | `enqueue` keeps every `parent`/`dup` as it sets them: the new node points at its parent or at the previous chain node, with `dup` true exactly on chain nodes |
| Insertion.InsertLinks | priorityqueue.h:265-294 | `enqueue` keeps the root's parent nullptr, and keeps left-child parent pointers safe and linked |
| Insertion.InsertKeepsLinks | priorityqueue.h:284-306 | below the root, `enqueue` keeps a subtree's own parent pointer and its left-child links |
| Insertion.InsertKeepsPath | priorityqueue.h:257-312 | `enqueue` keeps every existing node at its path with its data, and chains only grow, so a cursor stays on a node |
| Insertion.BuildSorts | priorityqueue.h:257-312 | the tree built by any sequence of `enqueue` calls is ordered and threaded; its listing is sorted, a permutation of the insertions, and keeps arrival order within each priority (a stable sort) |
| Insertion.Build | priorityqueue.h:257-312 | the tree built by `n` calls of `enqueue` on an empty queue has `n` nodes and a root whose `parent` is nullptr |
| Insertion.FirstIsEarliestMinimum | priorityqueue.h:331-337 | after any sequence of `enqueue` calls, the first entry is an inserted one of minimum priority, and the earliest inserted among that priority |
| Insertion.SortedHead | priorityqueue.h:331-337 | the head of a sorted permutation has the minimum priority and is the first of its priority |
| Removal.Orphaned | priorityqueue.h:345 | a subtree whose `parent` is left pointing at a deleted node lists the same entries |
| Removal.Replacement | priorityqueue.h:340-391 | replacing the leftmost node by its chain head, else its right subtree, else nothing, removes exactly its first entry from the listing; the replacement takes over its `parent`; the place becomes nullptr only when there is neither chain nor right child |
| Removal.ReplacementOrdered | priorityqueue.h:340-391 | that replacement keeps BST order |
| Removal.PromotedGroup | priorityqueue.h:340-345 | the promoted chain head's group is the old group without its first entry |
| Removal.RemoveMin | priorityqueue.h:331-391 | removing the leftmost node through its parent's `left` yields the listing without its first entry, and the subtree's own `parent` is unchanged |
| Removal.RemoveMinOrdered | priorityqueue.h:331-391 | that removal keeps BST order |
| Removal.Dequeued | priorityqueue.h:322-395 | `dequeue`'s tree: when the leftmost node's `parent` is set, the listing without its first entry; when it is nullptr (line 355, 373, 386), only the leftmost node's subtree without its first entry remains; either way at least one node is gone |
| Removal.RemoveMinLinks | priorityqueue.h:340-391 | the removal keeps the root detached and keeps left-child parent pointers safe and linked |
| Removal.ReplacementLinks | priorityqueue.h:340-391 | the replacement alone keeps those link properties |
| Removal.LinkedDequeued | priorityqueue.h:348-356 | when every left child points at its parent, `dequeue`'s parent test always picks the parent's `left`, so it is the plain leftmost removal |
| Removal.LeftmostLinked | priorityqueue.h:348-349 | below the root, the leftmost node of a linked tree has a real parent |
| Removal.DequeuedLinks | priorityqueue.h:322-395 | `dequeue` keeps the root's parent nullptr and no left child pointing at a deleted node, even on a tree whose parents are nullptr |
| Removal.LeftmostSafe | priorityqueue.h:340-391 | the leftmost node's subtree and its replacement keep left-child pointers safe |
| Removal.RemoveMinThreaded | priorityqueue.h:361-388 | when the leftmost node has no chain, the removal keeps every `parent`/`dup` consistent |
| Removal.PromotionUnthreads | priorityqueue.h:340-345 | when the leftmost node has a chain, the promoted node keeps `dup` true, so the links are no longer consistent |
| Removal.LeftmostKeeps | priorityqueue.h:332-335 | the leftmost subtree inherits the tree's order and safe links |
| Removal.DequeuedKeeps | priorityqueue.h:322-395 | on any tree with safe links, `dequeue` keeps BST order, the root's `parent` nullptr and the left-child links safe |
| Removal.DequeuedSound | priorityqueue.h:322-395 | on a linked tree `dequeue` removes exactly the first entry of the listing and keeps the links; without a chain at the leftmost node it keeps the whole threading |
| Draining.Drain | priorityqueue.h:322-395 | successive `dequeue` calls take the leftmost node's pair first and end on the empty tree, with at most one call per entry |
| Draining.DrainListing | priorityqueue.h:322-395 | on an ordered tree whose left children point at their parents, dequeueing until empty yields exactly the listing, one entry per call |
| Draining.DrainBuild | priorityqueue.h:257-395 | enqueueing any sequence and then dequeueing until empty yields that sequence stably sorted by priority: as many pairs, sorted, a permutation, and equal priorities in arrival order |
| Positions.Split | priorityqueue.h:54-76 | every subtree's entries sit contiguously in the listing, between what comes before it and what comes after it |
| Positions.AboveLeft | priorityqueue.h:474-476 | stepping to a left child puts the node left, its chain and its right subtree after the new position |
| Positions.AboveRight | priorityqueue.h:471-472 | stepping to a right child adds nothing after the new position |
| Positions.CellAt | priorityqueue.h:457-458 | the cell under the cursor holds the entry of its index in the node's group |
| Positions.Rest | priorityqueue.h:451-492 | the rest of the listing from a position is never empty and starts with the entry under it |
| Positions.RestIsSuffix | priorityqueue.h:451-492 | the rest of the listing from a position is a tail of the listing |
| Positions.ThreadedAt | priorityqueue.h:467-485 | every subtree of a threaded tree is threaded, and its parent pointer is nullptr only at the root |
| Positions.DupIsChain | priorityqueue.h:467-469 | in a threaded tree a cell's `dup` is set exactly when it is a chain node, whose `parent` leads to the previous chain node |
| Positions.LeftSpine | priorityqueue.h:423-428 | along the left spine the subtree and what follows it make up the whole listing |
| Positions.BeforeLeft | priorityqueue.h:423-428 | nothing precedes a node on the left spine |
| Positions.AtParent | priorityqueue.h:481-486 | the node one step up a path exists and the step leads back to the child |
| Positions.StepLeft | priorityqueue.h:474-476 | one step left keeps the subtree-plus-following listing unchanged |
| Positions.Settle | priorityqueue.h:474-477 | at a node with no left child the traversal starts with that node's subtree |
| Positions.LastOfGroup | priorityqueue.h:467-471 | after the last node of a group, its right subtree and what follows remain |
| Positions.NextInGroup | priorityqueue.h:462-465 | writing a node with a successor in its chain leaves the rest of the group |
| Cursors.Moved | priorityqueue.h:340-374 | after the removal the cursor dangles only if it was on the leftmost node itself (group index 0, reached by left steps), and a node moves up at most one level |
| Cursors.MovedRest | priorityqueue.h:322-395 | a cursor on a node that survives the removal stays on a node of the new tree with the same rest of the listing from it; it dangles only when it was on the first entry |
| Cursors.MovedLeft | priorityqueue.h:331-335 | the node's new place below a left step carries over to the whole tree |
| Cursors.LeftOnNode | priorityqueue.h:331-335 | a position below the left step keeps what it has to write once the step is added back |
| Cursors.LeftFirst | priorityqueue.h:331-335 | the first entry of the left subtree is the first entry of the tree |
| Cursors.MovedLeaf | priorityqueue.h:340-388 | at the removed node the chain head moves into its place, or its right subtree moves up one level |
| Cursors.MovedRoot | priorityqueue.h:340-356 | in the removed node's group every chain node moves one index down, and a cursor on the removed node was on the first entry |
| Cursors.MovedBelow | priorityqueue.h:340-374 | a node of the removed node's right subtree keeps its path under a promotion and loses the `Right` step under a splice, with the same rest of the listing from it |
| Cursors.PromotedRest | priorityqueue.h:340-345 | the promoted chain head holds group index one less and has the same rest of the listing from it |
| Cursors.FirstRest | priorityqueue.h:423-428 | a cursor on the leftmost node at the root has the whole listing to write |
| Cursors.RestLeft | priorityqueue.h:474-476 | below a left step the parent's group and right subtree follow what the subtree has to write |
| Cursors.RestRight | priorityqueue.h:471-472 | below a right step nothing follows what the subtree has to write |
| Cursors.RestOtherLeft | priorityqueue.h:348-349 | a new left subtree changes nothing for a cursor that does not go into it |
| Cursors.RestReparented | priorityqueue.h:343-363 | a changed `parent` pointer changes neither the node at a path nor the rest of the listing from it |
| Cursors.RestOrphaned | priorityqueue.h:345 | the same for a right child whose `parent` is left pointing at the deleted node |
| Cursors.Detached | priorityqueue.h:355 | when the leftmost node's `parent` is nullptr and its replacement becomes the root, a cursor above it dangles and one inside its subtree lands on a node of the new tree |
| Cursors.Relocated | priorityqueue.h:322-395 | where `dequeue` leaves `curr`: nullptr exactly when it was, dangling if it was, otherwise dangling or on a node of the new tree |
| Cursors.RelocatedRest | priorityqueue.h:322-395 | on a tree whose left children point at their parents, a cursor still on a node has the same rest of the listing from it after `dequeue`, and one that dangles was on the entry removed |
| Cursors.SpliceExample | priorityqueue.h:361-373 | after enqueueing priorities 5, 2, 3, 4, `begin` and one `next`, `dequeue` splices node 3 into node 2's place; the cursor follows node 3, and the traversal goes on with (3, 30), (4, 40), (5, 50) |
| Copying.CopyLink | priorityqueue.h:79-92 | a copied chain has the same (priority, value) pairs, with `dup` false and no parent on every node |
| Copying.CopyTree | priorityqueue.h:95-118 | the copy lists the same entries, is ordered when the original is, and every node of it, tree-resident or in a chain, has a nullptr `parent` (so none points at a deleted node), with `dup` false on chain nodes |
| Copying.CopyLinkKeeps | priorityqueue.h:79-92 | the copied chain lists the same entries and keeps a common priority |
| Equality.Equal | priorityqueue.h:150-186 | `_equal` returns true exactly when the two trees agree in shape, in each tree-resident node's value and `dup`, and in each chain's (priority, value) pairs; tree-resident priorities are not compared |
| Equality.Key | priorityqueue.h:150-186 | only the empty tree has the empty shape (both nullptr) |
| Equality.KeyCount | priorityqueue.h:150-186 | trees `_equal` reports equal hold equally many entries, since shapes and chain lengths are compared |
| Equality.CopyIsEqual | priorityqueue.h:212-225 | a copy made by `operator=` compares equal to its original |
| Queue.FindMinimumNode | priorityqueue.h:44-51 | the loop reaches the leftmost node of the subtree by left steps only, and a traversal from there covers the subtree and everything after it |
| Queue.ToStringHelper | priorityqueue.h:54-76 | the recursive walk with its chain loop appends exactly the subtree's listing to the output |
| Queue.EnqueueKeeps | priorityqueue.h:257-312 | `enqueue` adds one node, keeps BST order, places the entry in the listing, keeps the link invariants and threading, and keeps a cursor on a node |
| Queue.RemoveLeftmost | priorityqueue.h:331-391 | the descent and the three replacement branches return the first entry's value and leave exactly the tree `dequeue` leaves |
| Queue.RemoveMinStep | priorityqueue.h:332-335 | one step down the left spine: the node reached is the left child, and removing the minimum below it, put back in place, is removing the minimum of the node |
| Queue.DequeuedAt | priorityqueue.h:336-391 | once the descent stops at a node without a left child, that node is the leftmost one and the tree left is its replacement, put in its place exactly when it has a parent |
| Queue.Unlink | priorityqueue.h:340-388 | the three branches build exactly the replacement of the leftmost node, which lists that node's subtree without its first entry |
| Queue.DequeueKeeps | priorityqueue.h:322-395 | the value returned is the leftmost node's, the invariants survive, and on a linked tree exactly the first entry is removed |
| Queue.Advance | priorityqueue.h:460-492 | `next`'s move (chain, walk back over `dup`, leftmost of the right subtree, or climb) lands on the entry right after the one written, or at nullptr when it was the last |
| Queue.Climb | priorityqueue.h:479-490 | the upward loop stops at the first ancestor entered from its left, whose traversal is exactly what follows, or at nullptr when nothing follows |
| Queue.PriorityQueue.constructor | priorityqueue.h:196-203 | a new queue is empty with `size` 0 and cursor nullptr |
| Queue.PriorityQueue.Assign | priorityqueue.h:212-225 | self-assignment changes nothing; otherwise the queue holds a copy of the other's tree and its `size`, lists the same entries and compares equal, and a non-null cursor now dangles |
| Queue.PriorityQueue.Clear | priorityqueue.h:233-237 | the tree becomes empty and `size` 0; a cursor that was on a node now dangles |
| Queue.PriorityQueue.Enqueue | priorityqueue.h:257-312 | the descent loop builds exactly the inserted tree, `size` rises by one, and order, listing placement, links, threading and the cursor are kept |
| Queue.PriorityQueue.Dequeue | priorityqueue.h:322-395 | an empty queue is left unchanged; otherwise the value is the first entry's, `size` falls by one, the invariant holds, and the cursor follows its node; on a queue built by `enqueue`/`dequeue` exactly the first entry is removed, and a cursor still on a node has the same rest of the listing from it, while one that dangles was on the removed entry; the tree stays threaded, so `next` goes on writing that rest, when the leftmost node has no chain |
| Queue.PriorityQueue.Size | priorityqueue.h:403-405 | returns `size`, which is the number of entries on a queue built by `enqueue`/`dequeue` |
| Queue.PriorityQueue.Begin | priorityqueue.h:423-428 | the cursor rests on the leftmost node, from which the rest of the listing is the whole listing |
| Queue.PriorityQueue.Next | priorityqueue.h:451-492 | at nullptr it returns false and writes nothing; otherwise, on a threaded tree, it writes the entry under the cursor and moves to the next entry of the listing, returning true exactly when entries remain; the cursor never dangles afterwards |
| Queue.PriorityQueue.ToString | priorityqueue.h:503-507 | the output is the listing |
| Queue.PriorityQueue.Peek | priorityqueue.h:517-526 | returns the value of the first entry without changing the queue |
| Queue.PriorityQueue.Equals | priorityqueue.h:535-537 | the result is `_equal` on the two roots |
| Queue.PriorityQueue.Traverse | priorityqueue.h:417-422 | `begin`, `next` until false, then one more use of the last pair writes exactly the `toString` listing on a queue built by `enqueue` |
| Findings.KeyIgnoresPriority | priorityqueue.h:182 | two one-entry queues with the same value and different priorities compare equal though their listings differ |
| Findings.FixedKey | priorityqueue.h:182 | the corrected comparison key is empty only for the empty tree and carries each tree-resident node's priority |
| Findings.FixedKeyElements | priorityqueue.h:150-186 | with tree-resident priorities compared, equal trees have equal listings |
| Findings.PromotionExample | priorityqueue.h:340-345 | enqueue two entries of one priority and dequeue: the promoted node keeps `dup` true, breaking the links `next` follows; the corrected removal keeps them |
| Findings.ReplacementFixed | priorityqueue.h:340-345 | the corrected promotion removes exactly the first entry; with a chain the promoted node has `dup` false, takes over the `parent`, and keeps the right child linked to it |
| Findings.RemoveMinFixed | priorityqueue.h:331-391 | the corrected removal lists the old listing without its first entry |
| Findings.RemoveMinFixedThreaded | priorityqueue.h:340-345 | the corrected promotion (clear `dup`, re-parent the right child) keeps every `parent`/`dup` as `enqueue` sets them |
| Findings.CopyLeftmostDetached | priorityqueue.h:108 | in a copy the leftmost node's `parent` is nullptr |
| Findings.CopyDequeueDrops | priorityqueue.h:95-118 | `dequeue` on a copy whose root has a left child drops more than one node, while `size` falls by one |
| Findings.CopyExample | priorityqueue.h:108 | enqueue priorities 2 then 1, copy, dequeue the copy: it is left empty |
| Findings.CopyLinkFixed | priorityqueue.h:79-92 | the corrected chain copy keeps the pairs, with `dup` true and the parent link on every node |
| Findings.CopyLinkFixedKeeps | priorityqueue.h:79-92 | the corrected chain copy lists the same entries and keeps a common priority |
| Findings.CopyFixed | priorityqueue.h:95-118 | the corrected copy lists the same entries and has every `parent`/`dup` as `enqueue` sets them |
| Findings.CopyFixedOrdered | priorityqueue.h:95-118 | the corrected copy of an ordered tree is ordered |
| Findings.CopyFixedDequeue | priorityqueue.h:95-118 | on the corrected copy `dequeue` removes exactly the first entry |

## Left out

- `main.cpp` is a demo that prints with `cout`. It has no logic of its own and is not part of this model.
- Text output: `toString` and `_recursiveToStringHelper` are modelled as the sequence of (priority, value) pairs they print. The `ostream` formatting is not modelled.
- Memory management is not modelled: `new`/`delete`, the destructor, and the freeing loop of `_clearRecursiveHelper`. `clear` makes the tree `Empty`. A deleted node survives only as the `Freed` marker in a `parent` field.
- `getRoot` returns the raw root pointer for tests and has no behaviour to model.
- The implicit copy constructor, which copies pointers, is not modelled.
- `int` is unbounded in the model. A 32-bit overflow of `size` or of a priority is not modelled.
- `T`'s `operator==` is taken to be equality (`T(==)`). The default-constructed `T` of `dequeue` and `peek` is an arbitrary value of `T`.
- Pointers are modelled as paths from the root, together with what each `parent` field holds. Aliasing between nodes is not modelled.
- `Queue.PriorityQueue.Dequeue` requires `Valid()`. This excludes states in which the leftmost node's `parent` points at a deleted node, where the source's behaviour is undefined. On a queue that is not `Sound()` (a copy), it states the resulting tree, `size` and cursor but not that exactly one entry is removed, because that is false there (see Findings).
- `Cursors.Detached`: on a copy, where `dequeue` keeps only the leftmost node's subtree, the cursor is proved to land on a node of the new tree or to dangle. What it then has to write is not stated.
- `Queue.PriorityQueue.Next` requires `Threaded(root, true)`. This means every `parent`/`dup` is as `enqueue` sets them. What `next` writes is not modelled on a copy, or after a chain-head promotion, where the source follows stale links. There, `Pending()` is still the rest of the listing from the cursor's node, which `next` does not write: it follows the promoted node's stale `dup` and `parent` (lines 467-469) and can stop early or dereference nullptr.
- `Queue.PriorityQueue.Next` requires `CursorOk()`, so `curr` must not dangle. A dangling `curr` is one whose node was deleted by `dequeue`, `clear` or `operator=`, or dropped from the tree and leaked by a `dequeue` whose leftmost node has a nullptr `parent`. The source would read a freed or leaked node there, and the model does not say what `next` then writes.
- `Queue.PriorityQueue.Traverse` requires `Threaded(root, true)` for the same reason.
- `Queue.PriorityQueue.Peek` requires a non-empty queue. On an empty one `_findMinimumNode` dereferences nullptr at line 46, so the `valueOut` fallback at line 525 is never reached.
- `Queue.PriorityQueue.Begin` requires a non-empty queue for the same reason.
- The `parent->right` branches of `dequeue` (lines 351-352, 369-370, 382-383) cannot be taken: the leftmost node is never a right child. The model has only the `left` case.
- The walk to the chain's tail in `enqueue` (lines 302-304) is modelled as a loop over the chain that ends at its last node. The new node is linked after it, which in the model means appending it to the chain.
- `dequeue` is modelled in two parts: the removal itself in `Queue.RemoveLeftmost`, and the update of `size` in `Queue.PriorityQueue.Dequeue`.
- `Findings.CopyFixed`: gives every tree-resident node `dup` false, where line 107 copies `node->dup`. The two agree on every tree whose links are as `enqueue` sets them. They differ only after a chain-head promotion, which the second finding corrects.
- `next` is likewise split: the cursor move is `Queue.Advance` and `Queue.Climb`. The descent at lines 474-476 reuses `Queue.FindMinimumNode`.

## Findings

| source | as written | input that shows it | evidently intended | confidence | as-written member | corrected member |
|---|---|---|---|---|---|---|
| priorityqueue.h:182 | `node1->priority == node1->priority` compares a node's priority with itself | `enqueue(v, 1)` on one queue and `enqueue(v, 2)` on another: `==` returns true | compare `node1->priority` with `node2->priority` | high, not executed | Findings.KeyIgnoresPriority | Findings.FixedKeyElements |
| priorityqueue.h:340-345 | the promoted chain head keeps `dup == true`, and the right child's `parent` still points at the deleted node | `enqueue(a, 1)`, `enqueue(b, 1)`, `dequeue()`, `begin()`, `next(...)`: `next` follows `parent` from the `dup` node to nullptr and dereferences it at line 467 | clear `temp->dup` and set `current->right->parent = temp` | high, not executed | Findings.PromotionExample | Findings.RemoveMinFixedThreaded |
| priorityqueue.h:108 | the copy sets every `parent` to nullptr, and copied chain nodes lose `dup` and `parent` | `enqueue(a, 2)`, `enqueue(b, 1)`, `q2 = q`, `q2.dequeue()`: `q2` is left empty while `Size()` is 1 | copy each node's link to its own parent, keeping `dup` on chain nodes (the corrected copy also clears `dup` on tree-resident nodes) | high, not executed | Findings.CopyExample | Findings.CopyFixedDequeue |
