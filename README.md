# Linked trees, positional lists and sorted priority queues in Dafny

This project models four small linked-structure components written in Python
after Goodrich, Tamassia and Goldwasser's *Data Structures and Algorithms in
Python*, and proves what each operation promises.

- **Linked binary tree with positions** (`src/exercise2/linked_binary_tree.py`),
  in `linked_queue.dfy`, `linked_binary_tree.dfy` and `list_to_tree.dfy`:
  - `LinkedQueue` is a class over an arena of `(element, next)` nodes. A ghost
    `Contents` sequence holds the queued elements, front first.
  - `LinkedBinaryTree` is a class over an arena `nodes: map<nat, NodeData>`
    holding `(element, parent, left, right)`, plus `root`, `size` and a
    counter for fresh ids. A ghost `shape: Tree<nat>` is the abstract tree of
    node ids that the links describe; the invariant `Coherent` ties the two
    together.
  - A deleted node is kept in the arena as its own parent. This is the
    source's marker, and `Validate` rejects it with `NoLongerValid`.
  - The preorder, postorder and inorder traversals, depth, both heights,
    sibling and children are functions over the arena. Each one's contract
    ties it to the pure definition in `tree_spec.dfy`.
  - `breadthfirst` and `list_to_tree` keep the source's queue loops, as
    methods over `LinkedQueue`.
- **Successor queries on a binary tree** (`src/exercise1/binary_tree.py`), in
  `binary_tree.dfy`:
  - A position is the path of left/right steps from the root of a pure tree.
  - `inorderNext` is a method that keeps the source's climbing loop.
  - `postorderNext` is a function.
  - `list_to_tree` builds a node sequence from a level-order list, with the
    source's list queue and index.
- **Positional list and sorted priority queue**
  (`src/exercise3/sorted_priority_queue.py`), in `positional_list.dfy` and
  `sorted_priority_queue.dfy`:
  - The list is a header/trailer sentinel chain in an arena of
    `(element, prev, next)` nodes, with ghost `ids` and `Contents` sequences.
    A deleted node is deprecated to all-`None` fields.
  - The priority queue keeps its items sorted by key, placing a new item with
    the source's backward walk.
- **Sorted priority queue over a list**
  (`src/exercise3/sorted_priority_queue_list.py`), in
  `sorted_priority_queue_list.dfy`:
  - The items are a `seq`, and `add` keeps the source's forward scan.
  - The insertion rule `InsertForward` doubles as the reference that the
    backward walk is proved equal to.

Shared pieces:
- `tree_spec.dfy` holds the pure tree and its traversals, height and paths.
- `level_order.dfy` holds the level-order numbering that both `list_to_tree`
  functions produce, and the theorem that breadth-first order reads such a
  tree back as 0, 1, 2, ….
- `wrappers.dfy` holds `Option`, `Result` and one `Error` type. Each Python
  `raise` becomes an `Err` outcome that leaves the state unchanged.

## Model

| member | source | states |
|---|---|---|
| LinkedQueues.LinkedQueue.constructor | src/exercise2/linked_binary_tree.py:13-16 | a new queue is well formed and empty |
| LinkedQueues.LinkedQueue.Len | src/exercise2/linked_binary_tree.py:18-19 | the size field equals the number of queued elements |
| LinkedQueues.LinkedQueue.IsEmpty | src/exercise2/linked_binary_tree.py:21-22 | true exactly when nothing is queued |
| LinkedQueues.LinkedQueue.First | src/exercise2/linked_binary_tree.py:24-27 | Empty on an empty queue, otherwise the element enqueued earliest among those still queued |
| LinkedQueues.LinkedQueue.Dequeue | src/exercise2/linked_binary_tree.py:29-37 | Empty and no change on an empty queue; otherwise returns the front element and the contents lose exactly it; head and tail are both cleared when the queue empties; the chain invariant is kept |
| LinkedQueues.LinkedQueue.Enqueue | src/exercise2/linked_binary_tree.py:39-46 | the contents gain e at the back and nothing else changes in them, so elements leave in enqueue order; the chain invariant is kept |
| LinkedBinaryTrees.LinkedBinaryTree.constructor | src/exercise2/linked_binary_tree.py:218-220 | a new tree is coherent and empty |
| LinkedBinaryTrees.LinkedBinaryTree.Len | src/exercise2/linked_binary_tree.py:222-223 | the size field equals the number of nodes of the abstract tree |
| LinkedBinaryTrees.LinkedBinaryTree.IsEmpty | src/exercise2/linked_binary_tree.py:81-82 | true exactly when the abstract tree is empty |
| LinkedBinaryTrees.MakePosition | src/exercise2/linked_binary_tree.py:215-216 | a position of this tree for the node, None exactly when there is no node |
| LinkedBinaryTrees.Element | src/exercise2/linked_binary_tree.py:200-201 | the element at the position's node; for a node in the tree it is one of the elements iteration yields |
| LinkedBinaryTrees.LinkedBinaryTree.Root | src/exercise2/linked_binary_tree.py:225-226 | None for an empty tree, otherwise the position of the abstract root |
| LinkedBinaryTrees.LinkedBinaryTree.Validate | src/exercise2/linked_binary_tree.py:206-213 | accepts exactly the positions of this tree whose node is in the tree; a position of another container fails NotOwned, a deleted node fails NoLongerValid |
| LinkedBinaryTrees.LinkedBinaryTree.LiveNotDeleted | src/exercise2/linked_binary_tree.py:211-212 | a node in the tree is never its own parent, and a node that left the tree is always its own parent, so the marker test is exact |
| LinkedBinaryTrees.LinkedBinaryTree.IsRoot | src/exercise2/linked_binary_tree.py:75-76 | true exactly for the position of this tree's root |
| LinkedBinaryTrees.LinkedBinaryTree.Parent | src/exercise2/linked_binary_tree.py:228-230 | the validation error, or the position of the node's parent in the abstract tree, None for the root |
| LinkedBinaryTrees.LinkedBinaryTree.Left | src/exercise2/linked_binary_tree.py:232-234 | the validation error, or the position of the root of the node's left subtree, None if it is empty |
| LinkedBinaryTrees.LinkedBinaryTree.Right | src/exercise2/linked_binary_tree.py:236-238 | the validation error, or the position of the root of the node's right subtree, None if it is empty |
| LinkedBinaryTrees.LinkedBinaryTree.NumChildren | src/exercise2/linked_binary_tree.py:240-247 | the validation error, or the number of non-empty subtrees of the node |
| LinkedBinaryTrees.LinkedBinaryTree.IsLeafAt | src/exercise2/linked_binary_tree.py:78-79 | the validation error, or whether the node has no children |
| LinkedBinaryTrees.LinkedBinaryTree.Sibling | src/exercise2/linked_binary_tree.py:151-159 | the validation error, or None for the root, otherwise the parent's other child (possibly None) |
| LinkedBinaryTrees.LinkedBinaryTree.SiblingLinks | src/exercise2/linked_binary_tree.py:155-159 | a non-root node is its parent's left child exactly when its path ends in a left step, which is the comparison sibling relies on |
| LinkedBinaryTrees.LinkedBinaryTree.Children | src/exercise2/linked_binary_tree.py:161-165 | the validation error, or the positions of the left then the right child, skipping absent ones |
| LinkedBinaryTrees.LinkedBinaryTree.Depth | src/exercise2/linked_binary_tree.py:84-88 | the validation error, or the number of edges from the node up to the root |
| LinkedBinaryTrees.LinkedBinaryTree.ParentDepth | src/exercise2/linked_binary_tree.py:84-88 | a non-root node is one level deeper than its parent |
| LinkedBinaryTrees.LinkedBinaryTree.HeightBelow | src/exercise2/linked_binary_tree.py:93-97 | the recursion over child links computes the height of the node's subtree: 0 at a leaf, otherwise 1 + the larger child height |
| LinkedBinaryTrees.LinkedBinaryTree.Height2 | src/exercise2/linked_binary_tree.py:93-97 | the validation error, or the height of the node's subtree |
| LinkedBinaryTrees.LinkedBinaryTree.HeightAt | src/exercise2/linked_binary_tree.py:99-102 | with no position, the height of the whole tree (an error when it is empty); with a position, the same as Height2 |
| LinkedBinaryTrees.LinkedBinaryTree.Height1 | src/exercise2/linked_binary_tree.py:90-91 | the maximum over leaves of their depth fails Empty on an empty tree |
| LinkedBinaryTrees.LinkedBinaryTree.HeightsAgree | src/exercise2/linked_binary_tree.py:90-102 | the deepest-leaf height and the recursive height of the root are equal on every non-empty tree |
| TreeSpec.HeightBoundsDepth | src/exercise2/linked_binary_tree.py:90-97 | no node is deeper than the tree's height |
| TreeSpec.DeepestLeaf | src/exercise2/linked_binary_tree.py:90-91 | some leaf lies exactly at the tree's height |
| TreeSpec.HeightBelowSize | src/exercise2/linked_binary_tree.py:93-97 | a tree's height is less than its number of nodes |
| LinkedBinaryTrees.LinkedBinaryTree.PreorderBelow | src/exercise2/linked_binary_tree.py:116-120 | the recursion over child links yields the node, then its children's subtrees, left to right |
| LinkedBinaryTrees.LinkedBinaryTree.PreorderPositions | src/exercise2/linked_binary_tree.py:111-114 | the positions of the abstract tree in preorder, none when empty |
| LinkedBinaryTrees.LinkedBinaryTree.PostorderBelow | src/exercise2/linked_binary_tree.py:127-131 | the recursion over child links yields the children's subtrees, then the node |
| LinkedBinaryTrees.LinkedBinaryTree.PostorderPositions | src/exercise2/linked_binary_tree.py:122-125 | the positions of the abstract tree in postorder, none when empty |
| LinkedBinaryTrees.LinkedBinaryTree.InorderBelow | src/exercise2/linked_binary_tree.py:172-179 | the recursion over child links yields the left subtree, the node, then the right subtree |
| LinkedBinaryTrees.LinkedBinaryTree.InorderPositions | src/exercise2/linked_binary_tree.py:167-170 | the positions of the abstract tree in inorder, none when empty |
| LinkedBinaryTrees.LinkedBinaryTree.Positions | src/exercise2/linked_binary_tree.py:181-182 | positions() is the inorder sequence |
| LinkedBinaryTrees.LinkedBinaryTree.Elements | src/exercise2/linked_binary_tree.py:104-106 | iteration yields the elements at the inorder positions, one per node |
| LinkedBinaryTrees.LinkedBinaryTree.TraversalsVisitEach | src/exercise2/linked_binary_tree.py:111-131 | preorder, postorder and inorder each yield len(self) positions, no position twice, and exactly the positions that validate |
| TreeSpec.PreorderVisitsAll | src/exercise2/linked_binary_tree.py:111-120 | preorder holds every label of the tree as often as the tree does, and has as many entries as nodes |
| TreeSpec.PostorderVisitsAll | src/exercise2/linked_binary_tree.py:122-131 | postorder holds every label of the tree as often as the tree does, and has as many entries as nodes |
| TreeSpec.InorderVisitsAll | src/exercise2/linked_binary_tree.py:167-179 | inorder holds every label of the tree as often as the tree does, and has as many entries as nodes |
| TreeSpec.TraversalsDistinct | src/exercise2/linked_binary_tree.py:111-141 | on a tree with distinct labels, all four traversals list each label once |
| TreeSpec.LevelOrderFifo | src/exercise2/linked_binary_tree.py:135-141 | first in, first out: the roots of every tree already in the fringe are yielded, in fringe order, before anything behind them, and the children those visits enqueue follow whatever was already waiting |
| TreeSpec.LevelOrderByLevels | src/exercise2/linked_binary_tree.py:135-141 | breadth-first order is level by level: the roots of the whole fringe, then the traversal of the next level down |
| TreeSpec.BreadthFirstVisitsAll | src/exercise2/linked_binary_tree.py:133-141 | breadth-first order holds every label of the tree as often as the tree does, and has as many entries as nodes |
| LinkedBinaryTrees.EnqueueAll | src/exercise2/linked_binary_tree.py:140-141 | enqueueing each child in turn leaves the fringe as before followed by the children, in order |
| LinkedBinaryTrees.LinkedBinaryTree.BreadthFirst | src/exercise2/linked_binary_tree.py:133-141 | the queue loop yields the positions of the abstract tree in level order, none when empty |
| LinkedBinaryTrees.LinkedBinaryTree.BreadthFirstVisitsEach | src/exercise2/linked_binary_tree.py:133-141 | breadth-first yields len(self) positions, no position twice, and exactly the positions that validate |
| LinkedBinaryTrees.LinkedBinaryTree.AddRoot | src/exercise2/linked_binary_tree.py:249-254 | RootExists and no change when there is a root; otherwise the tree becomes the single new node, size 1, and its position is returned |
| LinkedBinaryTrees.LinkedBinaryTree.AddChild | src/exercise2/linked_binary_tree.py:256-270 | the validation error, or the given error if the slot is taken, with no change; otherwise a fresh node with parent p fills that slot, the abstract tree gains exactly that leaf, size grows by 1 and the root is unchanged |
| LinkedBinaryTrees.LinkedBinaryTree.AddLeft | src/exercise2/linked_binary_tree.py:256-262 | the validation error, or LeftChildExists, with no change; otherwise a fresh node with parent p becomes p's left child, size grows by 1 and nothing else is relinked |
| LinkedBinaryTrees.LinkedBinaryTree.AddRight | src/exercise2/linked_binary_tree.py:264-270 | the validation error, or RightChildExists, with no change; otherwise a fresh node with parent p becomes p's right child, size grows by 1 and nothing else is relinked |
| LinkedBinaryTrees.LinkedBinaryTree.Replace | src/exercise2/linked_binary_tree.py:272-276 | the validation error with no change, or the old element; only the element at p changes, and shape, links and size stay |
| LinkedBinaryTrees.LinkedBinaryTree.Splice | src/exercise2/linked_binary_tree.py:282-295 | removing a node with at most one child puts that child (or nothing) in its slot or at the root, shrinks the tree by exactly that node, makes the node its own parent and keeps every element |
| LinkedBinaryTrees.LinkedBinaryTree.Delete | src/exercise2/linked_binary_tree.py:278-295 | the validation error, or TwoChildren, with no change; otherwise returns p's element, the sole child takes p's place, size drops by 1 and p fails validation as no longer valid from then on |
| LinkedBinaryTrees.LinkedBinaryTree.Graft | src/exercise2/linked_binary_tree.py:303-313 | t1's and t2's nodes are copied in as p's left and right subtrees with parent p, and size grows by their sizes |
| LinkedBinaryTrees.LinkedBinaryTree.Clear | src/exercise2/linked_binary_tree.py:307-308 | a donor tree ends with no root, no nodes and size 0, still coherent |
| LinkedBinaryTrees.LinkedBinaryTree.Attach | src/exercise2/linked_binary_tree.py:297-313 | the validation error, or NotLeaf for a non-leaf p, with no change; otherwise t1 and t2 hang under p as its left and right subtrees with parent p, size grows by len(t1) + len(t2), and t1 and t2 end empty |
| LinkedListToTree.ListToTree | src/exercise2/linked_binary_tree.py:327-358 | an empty list or a None first value gives an empty tree; otherwise the tree is the level-order numbering of the values read before the queue empties or the values run out |
| LinkedListToTree.ServeAll | src/exercise2/linked_binary_tree.py:339-356 | the dequeue loop stops exactly where the value-level reading ends, with the tree built for every slot read |
| LinkedListToTree.TakeFront | src/exercise2/linked_binary_tree.py:339-340 | the dequeued position is the oldest node still waiting for its children |
| LinkedListToTree.ServeNode | src/exercise2/linked_binary_tree.py:340-356 | serving a node reads its two slots, stops exactly when the values run out, and otherwise leaves the next node to serve at the front |
| LinkedListToTree.ReadSlot | src/exercise2/linked_binary_tree.py:342-354 | a present value becomes a new child of the served node and joins the back of the queue; an absent one changes nothing |
| LinkedListToTree.GivenGrows | src/exercise2/linked_binary_tree.py:343-353 | reading more slots never loses a value already read: the values read so far stay, in order, at the front |
| LinkedListToTree.ReadEndCovers | src/exercise2/linked_binary_tree.py:339-356 | reading ends after the root slot and no later than the slots of the nodes read |
| LinkedListToTree.BreadthFirstReadsBack | src/exercise2/linked_binary_tree.py:327-358 | breadth-first order of the built tree lists, in input order, exactly the non-None values read |
| LevelOrderLists.NumberedBreadthFirst | src/exercise2/linked_binary_tree.py:133-141 | a tree numbered 0..n-1 in level order is read back by breadth-first order as 0, 1, …, n-1 |
| BinaryTree.Parent | src/exercise1/binary_tree.py:46-48 | the root has no parent, and any other position's parent is its path without the last step |
| BinaryTree.LeftOf | src/exercise1/binary_tree.py:29-34 | the left child's path, present exactly when the left subtree is non-empty |
| BinaryTree.RightOf | src/exercise1/binary_tree.py:36-41 | the right child's path, present exactly when the right subtree is non-empty |
| BinaryTree.Sibling | src/exercise1/binary_tree.py:44-53 | None for the root, otherwise the parent's other child, possibly None |
| BinaryTree.Children | src/exercise1/binary_tree.py:55-60 | at most two children, all below p; the left one is listed exactly when it exists, and comes first when both do |
| BinaryTree.InorderPositions | src/exercise1/binary_tree.py:62-76 | the inorder positions are valid positions of the tree, one per node |
| BinaryTree.Positions | src/exercise1/binary_tree.py:79-81 | positions() lists each node's position once, and the labels at them are the value-level inorder sequence |
| BinaryTree.PostorderPositions | src/exercise2/linked_binary_tree.py:122-131 | the postorder positions, the reference order for postorderNext, are valid positions of the tree, one per node |
| BinaryTree.InorderPositionsMatch | src/exercise1/binary_tree.py:62-76 | the inorder positions are valid, distinct, and carry the inorder sequence of values |
| BinaryTree.InorderPositionsDistinct | src/exercise1/binary_tree.py:79-81 | positions() lists no position twice |
| BinaryTree.Leftmost | src/exercise1/binary_tree.py:85 | following left links from a position ends at a valid position with no left child |
| BinaryTree.InorderNext | src/exercise1/binary_tree.py:83-92 | the climbing loop returns the position after p in inorder (None after the last); with a right child the result is in p's right subtree and has no left child; otherwise it is the nearest ancestor reached from a left child, or None when p is on the rightmost branch |
| BinaryTree.InorderSuccessorBelow | src/exercise1/binary_tree.py:84-85 | with a right child, the inorder successor is the leftmost position of the right subtree |
| BinaryTree.InorderSuccessorAbove | src/exercise1/binary_tree.py:86-92 | without a right child, the inorder successor is the parent of the first position on the way up that is a left child |
| BinaryTree.InorderSuccessorAtTop | src/exercise1/binary_tree.py:86-92 | a position on the rightmost branch has no inorder successor |
| BinaryTree.FirstPostorder | src/exercise1/binary_tree.py:103 | descending left when possible, otherwise right, reaches a leaf of p's subtree that comes first in its postorder |
| BinaryTree.PostorderNext | src/exercise1/binary_tree.py:94-105 | postorderNext with the first-in-postorder descent at line 103: None exactly for the root, otherwise a valid position other than p |
| BinaryTree.PostorderNextIsSuccessor | src/exercise1/binary_tree.py:94-105 | postorderNext is the position after p in postorder, and is None exactly for the root |
| BinaryTree.PostorderAfterLeft | src/exercise1/binary_tree.py:99-101 | a left child whose parent has no right child is followed in postorder by the parent |
| BinaryTree.PostorderAfterLeftWithRight | src/exercise1/binary_tree.py:99-103 | a left child whose parent has a right child is followed by the first postorder position of the right subtree |
| BinaryTree.PostorderAfterRight | src/exercise1/binary_tree.py:104-105 | a right child is followed in postorder by its parent |
| BinaryTree.PostorderNextFollowingLeft | src/exercise1/binary_tree.py:94-105 | postorderNext as written, descending by left links at line 103: None exactly for the root, otherwise a valid position other than p |
| BinaryTree.PostorderNextFollowingLeftIsWrong | src/exercise1/binary_tree.py:103 | on the tree 1(2, 3(-, 4)), postorderNext with a follow-left-links helper gives 3 after 2, but 4 follows 2 in postorder |
| BinaryTree.SharedHelperConflict | src/exercise1/binary_tree.py:85 | on the same tree, inorderNext needs the helper to map 3 to 3 and postorderNext needs it to map 3 to 4, so no single helper serves both |
| BinaryTree.SampleTraversals | src/exercise1/binary_tree.py:128-134 | the sample tree built from [1, 2, 3, None, 4, 5, 6] (see BuildSample) has inorder 2, 4, 1, 5, 3, 6 and postorder 4, 2, 5, 6, 3, 1 |
| BinaryTree.SamplePositions | src/exercise1/binary_tree.py:133-145 | the sample tree's inorder and postorder positions carry those value sequences |
| BinaryTree.SampleLayout | src/exercise1/binary_tree.py:111-123 | the level-order layout of [1, 2, 3, None, 4, 5, 6] admits exactly one node sequence: 1 with children 2 and 3, 2 with right child 4, 3 with children 5 and 6, and three leaves |
| BinaryTree.BuildSample | src/exercise1/binary_tree.py:128-130 | list_to_tree on the driver's list succeeds, and reading the nodes back from the root gives exactly the sample tree |
| BinaryTree.PlaceChild | src/exercise1/binary_tree.py:116-122 | a present value adds a node as the served node's child and enqueues it; an absent one adds nothing |
| BinaryTree.ServeNode | src/exercise1/binary_tree.py:115-123 | one pass of the loop pops the front node, reads its one or two slots and enqueues exactly the new nodes |
| BinaryTree.ListToTree | src/exercise1/binary_tree.py:108-124 | fails Empty exactly when the queue runs dry while values remain; otherwise the nodes hold values[0] and then the present values in order, and node k's children come from slots 2k+1 and 2k+2 |
| PositionalLists.PositionalList.constructor | src/exercise3/sorted_priority_queue.py:24-30 | a new list is the header linked to the trailer, with no elements |
| PositionalLists.PositionalList.Len | src/exercise3/sorted_priority_queue.py:34-36 | the size field equals the number of elements |
| PositionalLists.PositionalList.IsEmpty | src/exercise3/sorted_priority_queue.py:38-40 | true exactly when there are no elements |
| PositionalLists.ChainDistinct | src/exercise3/sorted_priority_queue.py:24-30 | the chain from header through the elements to trailer never revisits a node |
| PositionalLists.InsertKeeps | src/exercise3/sorted_priority_queue.py:44-50 | splicing a fresh node between neighbours i and i+1 keeps the chain well linked and puts e at index i with size one larger |
| PositionalLists.RemoveKeeps | src/exercise3/sorted_priority_queue.py:52-61 | unlinking entry i joins its neighbours and keeps the chain well linked, with that element gone and size one smaller |
| PositionalLists.PositionalList.InsertBetween | src/exercise3/sorted_priority_queue.py:140-143 | the new position's element sits between the two neighbours in the sequence, and the size grows by 1 |
| PositionalLists.PositionalList.DeleteNode | src/exercise3/sorted_priority_queue.py:52-61 | returns the element, removes exactly it from the sequence, and deprecates the node |
| PositionalLists.PositionalList.Validate | src/exercise3/sorted_priority_queue.py:95-103 | accepts exactly the positions of this list's live nodes; another container (or a sentinel) fails NotOwned, a deleted node fails NoLongerValid |
| PositionalLists.Element | src/exercise3/sorted_priority_queue.py:82-84 | a live position's element is the sequence entry at its index; a deleted node holds none |
| PositionalLists.PositionalList.MakePosition | src/exercise3/sorted_priority_queue.py:105-110 | None exactly for the header and trailer sentinels, otherwise a position of this list for the node |
| PositionalLists.PositionalList.First | src/exercise3/sorted_priority_queue.py:113-115 | the first element's position, None when empty (never the trailer) |
| PositionalLists.PositionalList.Last | src/exercise3/sorted_priority_queue.py:117-119 | the last element's position, None when empty (never the header) |
| PositionalLists.PositionalList.Before | src/exercise3/sorted_priority_queue.py:121-124 | the validation error, or the position of the previous element, None at the first |
| PositionalLists.PositionalList.After | src/exercise3/sorted_priority_queue.py:126-129 | the validation error, or the position of the next element, None at the last |
| PositionalLists.PositionalList.Iterate | src/exercise3/sorted_priority_queue.py:131-136 | the cursor loop yields exactly the elements in chain order |
| PositionalLists.PositionalList.AddFirst | src/exercise3/sorted_priority_queue.py:145-147 | the sequence becomes e followed by the old one |
| PositionalLists.PositionalList.AddLast | src/exercise3/sorted_priority_queue.py:149-151 | the sequence becomes the old one followed by e |
| PositionalLists.PositionalList.AddBefore | src/exercise3/sorted_priority_queue.py:153-156 | the validation error with no change, or e inserted immediately before p's element |
| PositionalLists.PositionalList.AddAfter | src/exercise3/sorted_priority_queue.py:158-161 | the validation error with no change, or e inserted immediately after p's element |
| PositionalLists.PositionalList.Delete | src/exercise3/sorted_priority_queue.py:163-166 | the validation error with no change, or p's element, removed alone from the sequence; p fails validation as no longer valid afterwards |
| PositionalLists.PositionalList.Replace | src/exercise3/sorted_priority_queue.py:168-176 | the validation error with no change, or the old element; only that slot changes and p stays valid |
| SortedPriorityQueues.SortedPriorityQueue.constructor | src/exercise3/sorted_priority_queue.py:230-232 | a new queue is an empty sorted list |
| SortedPriorityQueues.SortedPriorityQueue.Len | src/exercise3/sorted_priority_queue.py:234-236 | the number of items |
| SortedPriorityQueues.SortedPriorityQueue.IsEmpty | src/exercise3/sorted_priority_queue.py:199-201 | true exactly when there are no items |
| SortedPriorityQueues.SortedPriorityQueue.WalkBack | src/exercise3/sorted_priority_queue.py:241-243 | the backward walk stops on the last item whose key is not greater than the new key (None if there is none), and every later item has a greater key |
| SortedPriorityQueues.SortedPriorityQueue.Add | src/exercise3/sorted_priority_queue.py:238-247 | the items become the backward insertion of the new item, and the list stays sorted by key |
| SortedPriorityQueues.SortedPriorityQueue.Min | src/exercise3/sorted_priority_queue.py:249-258 | Empty when empty; otherwise the first item as (key, value), whose key is no greater than any other |
| SortedPriorityQueues.SortedPriorityQueue.RemoveMin | src/exercise3/sorted_priority_queue.py:260-268 | returns what Min returned, and the list loses exactly its first item and stays sorted |
| SortedPriorityQueues.InsertBackwardAt | src/exercise3/sorted_priority_queue.py:241-247 | where the walk stops, the backward insertion puts the new item, and every other item keeps its order |
| SortedPriorityQueues.WalkStops | src/exercise3/sorted_priority_queue.py:244-247 | inserting where the walk stops keeps a sorted list sorted |
| SortedPriorityQueues.InsertionsAgree | src/exercise3/sorted_priority_queue.py:238-247 | on a sorted list the backward walk and the list queue's forward scan give the same list |
| SortedPriorityQueues.AddsAgree | src/exercise3/sorted_priority_queue.py:238-247 | from any sorted start, any sequence of adds leaves both queues holding the same sorted list, so they remove items in the same order |
| SortedPriorityQueues.TiesFirstInFirstOut | src/exercise3/sorted_priority_queue.py:242 | an item added after one with an equal or smaller key is placed behind it |
| SortedPriorityQueues.DemoOrder | src/exercise3/sorted_priority_queue.py:272-281 | adding keys 5, 9, 3, 7 by the backward walk leaves the items (3, B), (5, A), (7, D), (9, C), smallest key first |
| SortedPriorityQueueList.SortedPriorityQueue.constructor | src/exercise3/sorted_priority_queue_list.py:36-37 | a new queue is an empty sorted list |
| SortedPriorityQueueList.SortedPriorityQueue.Len | src/exercise3/sorted_priority_queue_list.py:39-40 | the number of items |
| SortedPriorityQueueList.SortedPriorityQueue.IsEmpty | src/exercise3/sorted_priority_queue_list.py:19-20 | true exactly when there are no items |
| SortedPriorityQueueList.SortedPriorityQueue.Add | src/exercise3/sorted_priority_queue_list.py:42-50 | the scan inserts the new item in front of the first item with a strictly greater key, or appends it, and the list stays sorted |
| SortedPriorityQueueList.InsertIndex | src/exercise3/sorted_priority_queue_list.py:45-50 | the insertion index: every key in front of it is no greater than the new key, and the key at it (if any) is strictly greater |
| SortedPriorityQueueList.InsertIndexUnique | src/exercise3/sorted_priority_queue_list.py:45-50 | any index with that split is the insertion index |
| SortedPriorityQueueList.InsertForwardAt | src/exercise3/sorted_priority_queue_list.py:45-50 | inserting splices the new item in at the insertion index and keeps the other items in order |
| SortedPriorityQueueList.InsertForwardSorted | src/exercise3/sorted_priority_queue_list.py:42-50 | inserting keeps the keys nondecreasing |
| SortedPriorityQueueList.InsertForwardContents | src/exercise3/sorted_priority_queue_list.py:42-50 | inserting adds exactly the new item: one more item, and removing it gives back the old list in its order |
| SortedPriorityQueueList.InsertForwardStable | src/exercise3/sorted_priority_queue_list.py:45-50 | the new item goes behind every item with an equal key and in front of every greater one, so equal keys leave first in, first out |
| SortedPriorityQueueList.SortedPriorityQueue.Min | src/exercise3/sorted_priority_queue_list.py:52-56 | Empty when empty; otherwise the first item as (key, value), whose key is no greater than any other |
| SortedPriorityQueueList.SortedPriorityQueue.RemoveMin | src/exercise3/sorted_priority_queue_list.py:58-62 | returns what Min returned, and the list loses exactly its first item, keeping the rest in order and sorted |
| SortedPriorityQueueList.SortedFirstLeast | src/exercise3/sorted_priority_queue_list.py:52-56 | the first item of a sorted list has the least key |
| SortedPriorityQueueList.DemoOrder | src/exercise3/sorted_priority_queue_list.py:66-75 | adding keys 5, 9, 3, 7 orders the items (3, B), (5, A), (7, D), (9, C) |

## Left out

- Printing is not modelled. This covers `draw_tree`, the output of
  `compute_and_print_heights` and `_Item.__repr__`. The height that
  `compute_and_print_heights` prints is the same recursion as
  `LinkedBinaryTree.HeightBelow`.
- The module-level drivers and `__main__` blocks are not modelled as
  programs. Their inputs appear in `BuildSample`, the sample lemmas
  `SampleTraversals` and `SamplePositions`, and both `DemoOrder` lemmas.
- Runtime type checks (`isinstance`, `type(...) is`) are not modelled.
  Dafny's types make them hold statically, so the `TypeError` outcomes of
  `_validate` and `_attach` do not arise.
- Traversals are modelled as the complete sequence each generator yields.
  Laziness, and mutation of the tree while a traversal is in progress, are
  not modelled.
- Object identity is modelled by arena ids. A position is a container plus a
  node id.
  - An id that was never handed out by a container, or a sentinel's id, is
    rejected as not belonging to it.
  - In Python such a position cannot be built without reaching into private
    fields.
- `tree`, `TreeNode` and the one-argument `BinaryTree` constructor used by
  `src/exercise1/binary_tree.py` are not part of this model.
  - The abstract `parent`, `left` and `right` of that file are modelled
    directly on paths (`BinaryTree.Parent`, `LeftOf`, `RightOf`).
  - The `TreeNode` objects of its `list_to_tree` are modelled as a sequence
    of `(value, left index, right index)` records.
- `BinaryTree.ListToTree`: when None entries leave the queue empty while
  values remain, `queue.pop(0)` raises `IndexError`. The model returns
  `Err(Empty)` for this case and does not model the exception itself.
- `_leftmost` is never defined in `src/exercise1/binary_tree.py`.
  - `inorderNext` is modelled with "follow left links" (`BinaryTree.Leftmost`).
  - `postorderNext` is modelled with "descend left, otherwise right, down to a
    leaf" (`BinaryTree.FirstPostorder`).
  - See Findings.
- `LinkedBinaryTrees.LinkedBinaryTree.Attach`: t1 and t2 must be trees other
  than this one and other than each other.
  - The source does not check this. Attaching a tree to itself corrupts its
    size and links.
  - Passing the same tree t as both t1 and t2 is excluded for its own reason.
    In the source, `_size += len(t1) + len(t2)` (line 302) counts t twice.
    But t is hung only on the left, because emptying t1 has already emptied
    t2 by the time `t2.is_empty()` is tested. The size field then overstates
    the node count by len(t).
  - t1's and t2's nodes get fresh ids in this tree's arena, and t1 and t2 end
    with empty arenas.
  - In the source, a position held for a node of t1 still validates against
    t1 after the attach. In the model it fails, and only positions of this
    tree reach the moved nodes.
- The `TypeError` for mismatched tree types in `_attach` is not modelled:
  all three trees have the same Dafny class.
- Keys are mathematical integers. Python's `<` on arbitrary key objects is
  not modelled.

## Findings

| source | as written | input that shows it | evidently intended | confidence | as-written member | corrected member |
|---|---|---|---|---|---|---|
| src/exercise1/binary_tree.py:103 | `postorderNext` calls the undefined `_leftmost` on the parent's right child. The only reading under which `inorderNext` (line 85) is correct is "follow left links", and with that reading `postorderNext` can skip nodes. | On the tree 1(2, 3(-, 4)), `postorderNext(2)` gives 3. Postorder is 2, 4, 3, 1, so 4 follows 2. | For `postorderNext`, descend left when possible, otherwise right, down to a leaf (the first postorder node of that subtree). The helper then differs from the one `inorderNext` needs. | high; not executed | BinaryTree.PostorderNextFollowingLeftIsWrong | BinaryTree.PostorderNextIsSuccessor |
