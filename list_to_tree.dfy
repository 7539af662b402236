/**
 * list_to_tree over the linked binary tree: the first value becomes the root,
 * and a FIFO queue of positions hands out, in creation order, the node whose
 * two child slots the next two values fill (None leaves a slot empty).
 * Reading stops when the values run out or when the queue runs dry; an empty
 * list, or an absent first value, gives an empty tree. Since every node takes
 * the next id of its tree, node ids count the nodes in creation order, and
 * breadth-first traversal lists the values read in the order they were read.
 */
module LinkedListToTree {
  import opened Wrappers
  import opened TreeSpec
  import opened LevelOrderLists
  import opened LinkedQueues
  import opened LinkedBinaryTrees

  // ---------------------------------------------------------------------------
  // What is read
  // ---------------------------------------------------------------------------

  /** The present values among values[..e], in order. */
  function Given<T>(values: seq<Option<T>>, e: nat): (r: seq<T>)
    requires e <= |values|
    ensures |r| <= e
  {
    if e == 0 then []
    else Given(values, e - 1) + (if values[e - 1].Some? then [values[e - 1].value] else [])
  }

  /** With a root, the values read are the root's and then those of the present later entries. */
  lemma {:induction false} GivenCount<T>(values: seq<Option<T>>, e: nat)
    requires 1 <= e <= |values| && values[0].Some?
    ensures |Given(values, e)| == 1 + |Present(values, e)|
  {
    if e > 1 {
      GivenCount(values, e - 1);
    }
  }

  /** Reading further keeps every value already read, in order, at the front. */
  lemma {:induction false} GivenGrows<T>(values: seq<Option<T>>, a: nat, b: nat)
    requires a <= b <= |values|
    ensures |Given(values, a)| <= |Given(values, b)|
    ensures Given(values, a) <= Given(values, b)
    decreases b
  {
    if a < b {
      GivenGrows(values, a, b - 1);
    }
  }

  /**
   * Where reading stops, looking from node k on: at the end of the list, or
   * at slot 2k+1 of the first node k that has not been created when its turn
   * comes, since the queue is empty then.
   */
  ghost function StopFrom<T>(values: seq<Option<T>>, k: nat): (e: nat)
    ensures e <= |values|
    ensures 2 * k + 1 <= |values| ==> 2 * k + 1 <= e
    decreases |values| - k
  {
    if |values| <= 2 * k + 1 then |values|
    else if Starved(values, k) then 2 * k + 1
    else StopFrom(values, k + 1)
  }

  /** The end of what list_to_tree reads from values. */
  ghost function ReadEnd<T>(values: seq<Option<T>>): nat {
    StopFrom(values, 0)
  }

  /** No node before the stop is starved. */
  lemma {:induction false} StopFromFed<T>(values: seq<Option<T>>, k: nat, j: nat)
    requires k <= j && 2 * j + 1 < StopFrom(values, k)
    ensures !Starved(values, j)
    decreases |values| - k
  {
    if k < j && 2 * k + 1 < |values| && !Starved(values, k) {
      StopFromFed(values, k + 1, j);
    }
  }

  /** Every node whose left slot is read exists by then. */
  lemma ReadEndFed<T>(values: seq<Option<T>>, j: nat)
    requires values != [] && values[0].Some? && 2 * j + 1 < ReadEnd(values)
    ensures j < |Given(values, 2 * j + 1)|
  {
    StopFromFed(values, 0, j);
    GivenCount(values, 2 * j + 1);
  }

  /**
   * Reading reaches at least the first slot, and stops no later than the left
   * slot of the first node beyond those read: n nodes own slots 1..2n.
   */
  lemma ReadEndCovers<T>(values: seq<Option<T>>)
    requires values != [] && values[0].Some?
    ensures 1 <= ReadEnd(values) <= 2 * |Given(values, ReadEnd(values))| + 1
  {
    var e := ReadEnd(values);
    var n := |Given(values, e)|;
    if 2 * n + 1 < e {
      ReadEndFed(values, n);
      GivenGrows(values, 2 * n + 1, e);
    }
  }

  // ---------------------------------------------------------------------------
  // What is built
  // ---------------------------------------------------------------------------

  /**
   * Node j after reading the slots before e: when it has been created, it
   * holds the j-th value read, and its children are the nodes its slots 2j+1
   * and 2j+2 gave, if the reading has passed them.
   */
  ghost predicate NodeBuilt<T>(values: seq<Option<T>>, e: nat, m: map<nat, NodeData<T>>, j: nat) {
    e <= |values| && j < |Given(values, e)| ==>
      j in m && m[j].element == Given(values, e)[j] &&
      m[j].left == SlotSeen(values, e, 2 * j + 1) && m[j].right == SlotSeen(values, e, 2 * j + 2)
  }

  /** Node j is in the tree exactly when j values have been read before it. */
  ghost predicate LabelBuilt<T>(values: seq<Option<T>>, e: nat, s: Tree<nat>, j: nat) {
    e <= |values| ==> (j in Labels(s) <==> j < |Given(values, e)|)
  }

  /**
   * The tree after reading the slots before e: its nodes are 0, 1, ... in
   * creation order, one per value read, node 0 at the root, and each node as
   * NodeBuilt says.
   */
  ghost predicate Built<T>(values: seq<Option<T>>, e: nat, m: map<nat, NodeData<T>>, s: Tree<nat>) {
    1 <= e <= |values| && values[0].Some? && s.Node? && s.value == 0 &&
    (forall j :: LabelBuilt(values, e, s, j)) &&
    (forall j :: NodeBuilt(values, e, m, j))
  }

  /** The tree right after the root is added. */
  lemma BuiltRoot<T>(values: seq<Option<T>>, v: T)
    requires values != [] && values[0] == Some(v)
    ensures Built(values, 1, map[0 := NodeData(v, None, None, None)], Node(Nil, 0, Nil))
  {
    var m := map[0 := NodeData(v, None, None, None)];
    assert Given(values, 1) == [v];
    forall j: nat ensures LabelBuilt(values, 1, Node(Nil, 0, Nil), j) && NodeBuilt(values, 1, m, j) {
    }
  }

  /** Reading an empty slot changes nothing but how far the reading has come. */
  lemma BuiltSkip<T>(values: seq<Option<T>>, i: nat, m: map<nat, NodeData<T>>, s: Tree<nat>)
    requires i < |values| && values[i].None? && Built(values, i, m, s)
    ensures Given(values, i + 1) == Given(values, i)
    ensures Built(values, i + 1, m, s)
  {
    var e := i + 1;
    assert Given(values, e) == Given(values, i);
    forall j: nat ensures LabelBuilt(values, e, s, j) && NodeBuilt(values, e, m, j) {
      assert LabelBuilt(values, i, s, j) && NodeBuilt(values, i, m, j);
    }
  }

  /**
   * Reading a present slot i of node x, as child d: the new node takes the
   * next number, holds the value, and is linked below x.
   */
  lemma BuiltStep<T>(values: seq<Option<T>>, i: nat, m: map<nat, NodeData<T>>, s: Tree<nat>, x: nat, d: Dir,
                     m': map<nat, NodeData<T>>, s': Tree<nat>)
    requires i < |values| && values[i].Some? && Built(values, i, m, s)
    requires x < |Given(values, i)| && i == 2 * x + (if d == L then 1 else 2)
    requires var c: nat := |Given(values, i)|;
             x in m &&
             m' == m[x := if d == L then m[x].(left := Some(c)) else m[x].(right := Some(c))]
                    [c := NodeData(values[i].value, Some(x), None, None)] &&
             Labels(s') == Labels(s) + {c} && s'.Node? && s'.value == s.value
    ensures |Given(values, i + 1)| == |Given(values, i)| + 1
    ensures Built(values, i + 1, m', s')
  {
    var c: nat := |Given(values, i)|;
    var e := i + 1;
    assert Given(values, e) == Given(values, i) + [values[i].value];
    GivenCount(values, i);
    assert SlotChild(values, i) == Some(c);
    forall j: nat ensures LabelBuilt(values, e, s', j) && NodeBuilt(values, e, m', j) {
      assert LabelBuilt(values, i, s, j) && NodeBuilt(values, i, m, j);
    }
  }

  // ---------------------------------------------------------------------------
  // The numbering is breadth-first
  // ---------------------------------------------------------------------------

  /** The nodes a slot gives, once read. */
  function SlotKids(o: Option<nat>): seq<nat> {
    if o.Some? then [o.value] else []
  }

  /** How many values have been read by slot s, when reading ends at e. */
  function ReadBy<T>(values: seq<Option<T>>, e: nat, s: nat): nat
    requires e <= |values|
  {
    |Given(values, if s < e then s else e)|
  }

  /** Slot s gives the node numbered next after those read before it, if any. */
  lemma SlotRange<T>(values: seq<Option<T>>, e: nat, s: nat)
    requires 1 <= s && e <= |values| && values != [] && values[0].Some?
    ensures ReadBy(values, e, s) <= ReadBy(values, e, s + 1)
    ensures SlotKids(SlotSeen(values, e, s)) == Range(ReadBy(values, e, s), ReadBy(values, e, s + 1))
  {
    if s < e {
      GivenCount(values, s);
      assert Given(values, s + 1) == Given(values, s) + (if values[s].Some? then [values[s].value] else []);
    }
  }

  /** In a shaped tree, a node's children are the ones its record links to. */
  lemma KidsLinked<T>(m: map<nat, NodeData<T>>, s: Tree<nat>, j: nat)
    requires Shaped(m, s) && j in Labels(s)
    ensures j in m && KidLabels(At(s, j)) == LinkKids(m[j])
  {
    ShapedLinks(m, s, PathTo(s, j));
  }

  /** Slots 2j+1 and 2j+2 together give the nodes numbered next after those read before them. */
  lemma SlotPairRange<T>(values: seq<Option<T>>, e: nat, j: nat)
    requires e <= |values| && values != [] && values[0].Some?
    ensures ReadBy(values, e, 2 * j + 1) <= ReadBy(values, e, 2 * j + 3)
    ensures SlotKids(SlotSeen(values, e, 2 * j + 1)) + SlotKids(SlotSeen(values, e, 2 * j + 2))
            == Range(ReadBy(values, e, 2 * j + 1), ReadBy(values, e, 2 * j + 3))
  {
    var a, b, c := ReadBy(values, e, 2 * j + 1), ReadBy(values, e, 2 * j + 2), ReadBy(values, e, 2 * j + 3);
    SlotRange(values, e, 2 * j + 1);
    SlotRange(values, e, 2 * j + 2);
    RangeAppend(a, b, c);
  }

  /** The children of node j are the nodes read from its slots 2j+1 and 2j+2. */
  lemma KidsRead<T>(values: seq<Option<T>>, e: nat, m: map<nat, NodeData<T>>, s: Tree<nat>, j: nat)
    requires Built(values, e, m, s) && Shaped(m, s) && j < |Given(values, e)|
    ensures j in Labels(s)
    ensures ReadBy(values, e, 2 * j + 1) <= ReadBy(values, e, 2 * j + 3)
    ensures KidLabels(At(s, j)) == Range(ReadBy(values, e, 2 * j + 1), ReadBy(values, e, 2 * j + 3))
  {
    assert LabelBuilt(values, e, s, j);
    KidsLinked(m, s, j);
    assert NodeBuilt(values, e, m, j);
    SlotPairRange(values, e, j);
  }

  /** Slot 1 is read whenever anything is. */
  lemma FirstSlotRead<T>(values: seq<Option<T>>, e: nat)
    requires 1 <= e <= |values| && values[0].Some?
    ensures ReadBy(values, e, 1) == 1
  {
    assert Given(values, 1) == [values[0].value];
  }

  /** The children of nodes 0..k-1, in turn, are the nodes read from their slots 1..2k. */
  lemma {:induction false} KidsUpToRead<T>(values: seq<Option<T>>, e: nat, m: map<nat, NodeData<T>>, s: Tree<nat>, k: nat)
    requires Built(values, e, m, s) && Shaped(m, s) && k <= |Given(values, e)|
    ensures 1 <= ReadBy(values, e, 2 * k + 1)
    ensures KidsUpTo(s, k) == Range(1, ReadBy(values, e, 2 * k + 1))
  {
    if k == 0 {
      FirstSlotRead(values, e);
    } else {
      var j := k - 1;
      KidsUpToRead(values, e, m, s, j);
      KidsRead(values, e, m, s, j);
      var a, c := ReadBy(values, e, 2 * j + 1), ReadBy(values, e, 2 * k + 1);
      RangeAppend(1, a, c);
      assert KidsUpTo(s, k) == KidsUpTo(s, j) + KidLabels(At(s, j));
    }
  }

  /** Each child is numbered after its parent. */
  lemma ChildAfterParent<T>(values: seq<Option<T>>, m: map<nat, NodeData<T>>, s: Tree<nat>, j: nat, c: nat)
    requires Built(values, ReadEnd(values), m, s) && Shaped(m, s)
    requires j < |Given(values, ReadEnd(values))| && j in Labels(s) && c in KidLabels(At(s, j))
    ensures j < c
  {
    var e := ReadEnd(values);
    KidsLinked(m, s, j);
    assert NodeBuilt(values, e, m, j);
    ReadEndFed(values, j);
    GivenGrows(values, 2 * j + 1, 2 * j + 2);
    if 2 * j + 1 < e {
      GivenCount(values, 2 * j + 1);
    }
    if 2 * j + 2 < e {
      GivenCount(values, 2 * j + 2);
    }
  }

  /**
   * The tree list_to_tree builds is numbered level by level: children are
   * numbered after their parent, and the children of nodes 0, 1, ... in turn
   * are 1, 2, ...
   */
  lemma BuiltNumbered<T>(values: seq<Option<T>>, m: map<nat, NodeData<T>>, s: Tree<nat>)
    requires Built(values, ReadEnd(values), m, s) && Shaped(m, s) && Unique(s)
    ensures LevelNumbered(s, |Given(values, ReadEnd(values))|)
  {
    var e := ReadEnd(values);
    var n := |Given(values, e)|;
    ReadEndCovers(values);
    KidsUpToRead(values, e, m, s, n);
    forall j: nat ensures j in Labels(s) <==> j < n {
      assert LabelBuilt(values, e, s, j);
    }
    forall j: nat | j < n
      ensures forall c | c in KidLabels(At(s, j)) :: j < c
    {
      forall c | c in KidLabels(At(s, j)) ensures j < c {
        ChildAfterParent(values, m, s, j, c);
      }
    }
  }

  /**
   * Breadth-first traversal of the built tree visits nodes 0, 1, ... and so
   * lists the values read, in the order they were read.
   */
  lemma BreadthFirstReadsBack<T>(values: seq<Option<T>>, tree: LinkedBinaryTree<T>)
    requires tree.Valid() && Built(values, ReadEnd(values), tree.nodes, tree.shape)
    ensures TreeSpec.BreadthFirst(tree.shape) == Range(0, |Given(values, ReadEnd(values))|)
    ensures forall x | x in TreeSpec.BreadthFirst(tree.shape) :: x in tree.nodes
    ensures tree.ElementsOf(MakePositions(tree, TreeSpec.BreadthFirst(tree.shape))) == Given(values, ReadEnd(values))
  {
    var e := ReadEnd(values);
    var n := |Given(values, e)|;
    BuiltNumbered(values, tree.nodes, tree.shape);
    NumberedBreadthFirst(tree.shape, n);
    RangeIndex(0, n);
    var ps := MakePositions(tree, Range(0, n));
    forall x | x in Range(0, n) ensures x in tree.nodes {
      RangeHas(x, 0, n);
      assert NodeBuilt(values, e, tree.nodes, x);
    }
    forall i | 0 <= i < n ensures ps[i].container == tree && ps[i].node in tree.nodes &&
                                  tree.nodes[ps[i].node].element == Given(values, e)[i] {
      assert NodeBuilt(values, e, tree.nodes, i);
    }
  }

  // ---------------------------------------------------------------------------
  // The builder
  // ---------------------------------------------------------------------------

  /** The positions of nodes lo..n-1 of t, in that order: what the builder's queue holds. */
  function Waiting<T>(t: LinkedBinaryTree<T>, lo: nat, n: nat): (r: seq<Position<T>>)
    ensures |r| == if lo <= n then n - lo else 0
    decreases n - lo
  {
    if lo < n then [Position(t, lo)] + Waiting(t, lo + 1, n) else []
  }

  /** Queueing the position of node n behind those of nodes lo..n-1. */
  lemma {:induction false} WaitingGrows<T>(t: LinkedBinaryTree<T>, lo: nat, n: nat)
    requires lo <= n
    ensures Waiting(t, lo, n) + [Position(t, n)] == Waiting(t, lo, n + 1)
    decreases n - lo
  {
    if lo < n {
      WaitingGrows(t, lo + 1, n);
      assert Waiting(t, lo, n) + [Position(t, n)] == [Position(t, lo)] + (Waiting(t, lo + 1, n) + [Position(t, n)]);
    }
  }

  /** When the queue runs dry with k nodes made, before slot 2k+1, reading ends there. */
  lemma QueueRunsDry<T>(values: seq<Option<T>>, k: nat)
    requires values != [] && values[0].Some? && 2 * k + 1 <= |values| && ReadEnd(values) == StopFrom(values, k)
    requires k == |Given(values, 2 * k + 1)|
    ensures ReadEnd(values) == 2 * k + 1
  {
    GivenCount(values, 2 * k + 1);
  }

  /** Node k exists when its turn comes, so reading goes on past its slots. */
  lemma NextTurn<T>(values: seq<Option<T>>, k: nat)
    requires 2 * k + 1 < |values| && values[0].Some? && k < |Given(values, 2 * k + 1)|
    ensures StopFrom(values, k) == StopFrom(values, k + 1)
  {
    GivenCount(values, 2 * k + 1);
  }

  /** When node k, which exists, is served and the values run out at i, reading ends at i. */
  lemma ValuesRunOut<T>(values: seq<Option<T>>, k: nat, i: nat)
    requires values != [] && values[0].Some? && ReadEnd(values) == StopFrom(values, k)
    requires 2 * k + 1 <= i == |values| <= 2 * k + 2 && k < |Given(values, 2 * k + 1)|
    ensures ReadEnd(values) == i
  {
    if i == 2 * k + 2 {
      GivenCount(values, 2 * k + 1);
      assert !Starved(values, k);
    }
  }

  /**
   * Hang a new leaf holding e on side d of the node at p, where that side is
   * free: the source's _add_left or _add_right. The leaf takes the tree's
   * next id.
   */
  method AddKid<T>(tree: LinkedBinaryTree<T>, p: Position<T>, e: T, d: Dir) returns (q: Position<T>)
    requires tree.Valid() && p.container == tree && p.node in Labels(tree.shape) && p.node in tree.nodes
    requires (if d == L then tree.nodes[p.node].left else tree.nodes[p.node].right).None?
    modifies tree
    ensures tree.Valid()
    ensures q == Position(tree, old(tree.nextId)) && tree.nextId == q.node + 1
    ensures tree.nodes == old(tree.nodes)[p.node := if d == L then old(tree.nodes)[p.node].(left := Some(q.node))
                                                   else old(tree.nodes)[p.node].(right := Some(q.node))]
                                         [q.node := NodeData(e, Some(p.node), None, None)]
    ensures Labels(tree.shape) == old(Labels(tree.shape)) + {q.node}
    ensures tree.shape.Node? && tree.shape.value == old(tree.shape).value
  {
    tree.LinksOf(p.node);
    var added;
    if d == L {
      added := tree.AddLeft(p, e);
    } else {
      added := tree.AddRight(p, e);
    }
    q := added.value;
  }

  /**
   * Slot i holds a value and belongs to the node at p as child d: that value
   * becomes the child, numbered next.
   */
  method GrowAt<T>(values: seq<Option<T>>, i: nat, tree: LinkedBinaryTree<T>, p: Position<T>, d: Dir)
    returns (child: Position<T>)
    requires tree.Valid() && i < |values| && values[i].Some?
    requires Built(values, i, tree.nodes, tree.shape) && tree.nextId == |Given(values, i)|
    requires p.container == tree && p.node < |Given(values, i)| && i == 2 * p.node + (if d == L then 1 else 2)
    modifies tree
    ensures tree.Valid() && child == Position(tree, old(tree.nextId))
    ensures Built(values, i + 1, tree.nodes, tree.shape) && tree.nextId == |Given(values, i + 1)|
  {
    ghost var m, s := tree.nodes, tree.shape;
    assert LabelBuilt(values, i, s, p.node) && NodeBuilt(values, i, m, p.node);
    child := AddKid(tree, p, values[i].value, d);
    BuiltStep(values, i, m, s, p.node, d, tree.nodes, tree.shape);
  }

  /**
   * The builder's state once the slots before i are read: the tree is Built
   * from them, its next id is the number of values read, and the queue holds
   * the positions of nodes lo on.
   */
  ghost predicate Reading<T>(values: seq<Option<T>>, i: nat, tree: LinkedBinaryTree<T>,
                             queue: LinkedQueue<Position<T>>, lo: nat)
    reads tree, queue
  {
    tree.Valid() && queue.Valid() &&
    Built(values, i, tree.nodes, tree.shape) && tree.nextId == |Given(values, i)| &&
    lo <= |Given(values, i)| && queue.Contents == Waiting(tree, lo, |Given(values, i)|)
  }

  /**
   * Read slot i, which belongs to the node at p as child d: a present value
   * becomes that child and its position joins the queue.
   */
  method ReadSlot<T>(values: seq<Option<T>>, i: nat, tree: LinkedBinaryTree<T>, queue: LinkedQueue<Position<T>>,
                     p: Position<T>, d: Dir, ghost lo: nat)
    requires i < |values| && Reading(values, i, tree, queue, lo)
    requires p.container == tree && p.node < |Given(values, i)| && i == 2 * p.node + (if d == L then 1 else 2)
    modifies tree, queue
    ensures Reading(values, i + 1, tree, queue, lo)
  {
    if values[i].None? {
      BuiltSkip(values, i, tree.nodes, tree.shape);
      return;
    }
    ghost var n := tree.nextId;
    var child := GrowAt(values, i, tree, p, d);
    queue.Enqueue(child);
    WaitingGrows(tree, lo, n);
  }

  /**
   * Serve node k, just taken off the queue at p: read its left and then its
   * right slot. Serving stops the build when the values run out, and then
   * reading has ended where ReadEnd says.
   */
  method ServeNode<T>(values: seq<Option<T>>, i: nat, tree: LinkedBinaryTree<T>, queue: LinkedQueue<Position<T>>,
                      p: Position<T>, ghost k: nat)
    returns (next: nat, stop: bool)
    requires values != [] && values[0].Some? && p == Position(tree, k)
    requires i == 2 * k + 1 <= |values| && ReadEnd(values) == StopFrom(values, k)
    requires k < |Given(values, i)| && Reading(values, i, tree, queue, k + 1)
    modifies tree, queue
    ensures next <= |values| && Reading(values, next, tree, queue, k + 1)
    ensures stop ==> ReadEnd(values) == next
    ensures !stop ==> next == 2 * (k + 1) + 1 && ReadEnd(values) == StopFrom(values, k + 1)
  {
    if i >= |values| {
      ValuesRunOut(values, k, i);
      return i, true;
    }
    GivenCount(values, i);
    NextTurn(values, k);
    ReadSlot(values, i, tree, queue, p, L, k + 1);
    next := i + 1;
    if next >= |values| {
      ValuesRunOut(values, k, next);
      return next, true;
    }
    GivenGrows(values, i, next);
    ReadSlot(values, next, tree, queue, p, R, k + 1);
    next, stop := next + 1, false;
  }

  /** Take the front position off the queue: that of node lo, the oldest waiting. */
  method TakeFront<T>(values: seq<Option<T>>, i: nat, tree: LinkedBinaryTree<T>, queue: LinkedQueue<Position<T>>,
                      ghost lo: nat)
    returns (p: Position<T>)
    requires Reading(values, i, tree, queue, lo) && queue.Contents != []
    modifies queue
    ensures lo < |Given(values, i)| && p == Position(tree, lo) && Reading(values, i, tree, queue, lo + 1)
  {
    var front := queue.Dequeue();
    p := front.value;
  }

  /**
   * The builder's loop: while the queue holds positions, take the front one
   * and serve its node. The queue holds the nodes from k on, in creation
   * order, and node k's slots are the next ones to read.
   */
  method ServeAll<T>(values: seq<Option<T>>, tree: LinkedBinaryTree<T>, queue: LinkedQueue<Position<T>>)
    requires values != [] && values[0].Some? && 1 <= |values| && Reading(values, 1, tree, queue, 0)
    modifies tree, queue
    ensures tree.Valid() && Built(values, ReadEnd(values), tree.nodes, tree.shape)
  {
    var i := 1;
    ghost var k: nat := 0;
    while !queue.IsEmpty()
      invariant i == 2 * k + 1 <= |values| && ReadEnd(values) == StopFrom(values, k)
      invariant Reading(values, i, tree, queue, k)
      decreases |values| - i
    {
      var node := TakeFront(values, i, tree, queue, k);
      var stop;
      i, stop := ServeNode(values, i, tree, queue, node, k);
      if stop {
        return;
      }
      k := k + 1;
    }
    QueueRunsDry(values, k);
  }

  /**
   * Build a tree from a level-order list of optional values: the first value
   * is the root; each node taken from the queue reads the next value as its
   * left child and the one after as its right child, and queues the children
   * it gets. The tree is Built from exactly the values ReadEnd says are read.
   */
  method ListToTree<T>(values: seq<Option<T>>) returns (tree: LinkedBinaryTree<T>)
    ensures fresh(tree) && tree.Valid()
    ensures values == [] || values[0].None? ==> tree.shape == Nil
    ensures values != [] && values[0].Some? ==> Built(values, ReadEnd(values), tree.nodes, tree.shape)
  {
    tree := new LinkedBinaryTree();
    if values == [] {
      return;
    }
    var rootValue := values[0];
    if rootValue.None? {
      return;
    }
    var root := tree.AddRoot(rootValue.value);
    var queue := new LinkedQueue<Position<T>>();
    queue.Enqueue(root.value);
    BuiltRoot(values, rootValue.value);
    assert queue.Contents == Waiting(tree, 0, 1);
    ServeAll(values, tree, queue);
  }
}
