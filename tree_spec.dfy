/**
 * The abstract binary tree that the Tree and BinaryTree base classes describe:
 * a value-level tree, its size, its traversals (preorder, postorder, inorder
 * and breadth-first), the height of a node, and paths from the root, which
 * serve as positions when a tree is a plain value.
 */
module TreeSpec {
  import opened Wrappers

  datatype Tree<T> = Nil | Node(left: Tree<T>, value: T, right: Tree<T>)

  /** Left or right step from a node to one of its children. */
  datatype Dir = L | R

  function Flip(d: Dir): Dir {
    if d == L then R else L
  }

  /** A path from the root: the steps taken to reach a node. */
  type Path = seq<Dir>

  function Size<T>(t: Tree<T>): nat {
    match t
    case Nil => 0
    case Node(l, _, r) => Size(l) + 1 + Size(r)
  }

  function Labels<T>(t: Tree<T>): set<T> {
    match t
    case Nil => {}
    case Node(l, x, r) => Labels(l) + {x} + Labels(r)
  }

  function Elements<T>(t: Tree<T>): multiset<T> {
    match t
    case Nil => multiset{}
    case Node(l, x, r) => Elements(l) + multiset{x} + Elements(r)
  }

  /** No label occurs twice: the labels can serve as node identities. */
  ghost predicate Unique<T>(t: Tree<T>) {
    match t
    case Nil => true
    case Node(l, x, r) =>
      Unique(l) && Unique(r) && x !in Labels(l) && x !in Labels(r) && Labels(l) !! Labels(r)
  }

  predicate IsLeaf<T>(t: Tree<T>) {
    t.Node? && t.left.Nil? && t.right.Nil?
  }

  function RootLabel<T>(t: Tree<T>): Option<T> {
    if t.Node? then Some(t.value) else None
  }

  function Child<T>(t: Tree<T>, d: Dir): Tree<T>
    requires t.Node?
  {
    if d == L then t.left else t.right
  }

  function SizeAll<T>(q: seq<Tree<T>>): nat {
    if q == [] then 0 else Size(q[0]) + SizeAll(q[1..])
  }

  function ElementsAll<T>(q: seq<Tree<T>>): multiset<T> {
    if q == [] then multiset{} else Elements(q[0]) + ElementsAll(q[1..])
  }

  lemma {:induction false} AllAppend<T>(a: seq<Tree<T>>, b: seq<Tree<T>>)
    ensures SizeAll(a + b) == SizeAll(a) + SizeAll(b)
    ensures ElementsAll(a + b) == ElementsAll(a) + ElementsAll(b)
  {
    if a != [] {
      assert (a + b)[1..] == a[1..] + b;
      AllAppend(a[1..], b);
    } else {
      assert a + b == b;
    }
  }

  /** The children of a node, left before right, absent ones skipped (at most two). */
  function Kids<T>(t: Tree<T>): (r: seq<Tree<T>>)
    ensures |r| <= 2
    ensures forall c | c in r :: c.Node?
    ensures t.Nil? ==> r == []
  {
    match t
    case Nil => []
    case Node(l, _, rt) =>
      if l.Node? && rt.Node? then [l, rt]
      else if l.Node? then [l]
      else if rt.Node? then [rt]
      else []
  }

  lemma KidsCover<T>(t: Tree<T>)
    requires t.Node?
    ensures SizeAll(Kids(t)) + 1 == Size(t)
    ensures ElementsAll(Kids(t)) + multiset{t.value} == Elements(t)
  {
    KidsSize(t);
    KidsElements(t);
  }

  lemma KidsSize<T>(t: Tree<T>)
    requires t.Node?
    ensures SizeAll(Kids(t)) + 1 == Size(t)
  {
    if t.left.Node? && t.right.Node? {
      PairAll(t.left, t.right);
    } else if t.left.Node? {
      SingleAll(t.left);
    } else if t.right.Node? {
      SingleAll(t.right);
    }
  }

  lemma KidsElements<T>(t: Tree<T>)
    requires t.Node?
    ensures ElementsAll(Kids(t)) + multiset{t.value} == Elements(t)
  {
    if t.left.Node? && t.right.Node? {
      PairAll(t.left, t.right);
      UnionRotate(Elements(t.left), Elements(t.right), multiset{t.value});
    } else if t.left.Node? {
      SingleAll(t.left);
      assert Elements(t.right) == multiset{};
    } else if t.right.Node? {
      SingleAll(t.right);
      assert Elements(t.left) == multiset{};
    } else {
      assert Elements(t.left) == multiset{} && Elements(t.right) == multiset{};
    }
  }


  lemma SingleAll<T>(t: Tree<T>)
    ensures SizeAll([t]) == Size(t) && ElementsAll([t]) == Elements(t)
  {
    assert [t][1..] == [];
  }

  lemma PairAll<T>(a: Tree<T>, b: Tree<T>)
    ensures SizeAll([a, b]) == Size(a) + Size(b) && ElementsAll([a, b]) == Elements(a) + Elements(b)
  {
    assert [a, b][1..] == [b];
    SingleAll(b);
  }

  // ---------------------------------------------------------------------------
  // Traversals
  // ---------------------------------------------------------------------------

  /** A node, then the subtree of each child in child order. */
  function Preorder<T>(t: Tree<T>): seq<T> {
    match t
    case Nil => []
    case Node(l, x, r) => [x] + Preorder(l) + Preorder(r)
  }

  /** The subtree of each child in child order, then the node. */
  function Postorder<T>(t: Tree<T>): seq<T> {
    match t
    case Nil => []
    case Node(l, x, r) => Postorder(l) + Postorder(r) + [x]
  }

  /** Left subtree, node, right subtree. */
  function Inorder<T>(t: Tree<T>): seq<T> {
    match t
    case Nil => []
    case Node(l, x, r) => Inorder(l) + [x] + Inorder(r)
  }

  /**
   * Breadth-first order driven by a FIFO queue of pending subtrees: the front
   * subtree's root is visited and its children join the back of the queue.
   */
  function LevelOrder<T>(q: seq<Tree<T>>): seq<T>
    decreases SizeAll(q), |q|
  {
    if q == [] then []
    else
      match q[0]
      case Nil => LevelOrder(q[1..])
      case Node(_, x, _) =>
        AllAppend(q[1..], Kids(q[0]));
        KidsCover(q[0]);
        [x] + LevelOrder(q[1..] + Kids(q[0]))
  }

  /** Visiting the front of the queue: its root, then the rest of the queue with its children appended. */
  lemma LevelOrderFront<T>(q: seq<Tree<T>>)
    requires q != [] && q[0].Node?
    ensures LevelOrder(q) == [q[0].value] + LevelOrder(q[1..] + Kids(q[0]))
  {
  }

  /** The root labels of the queued trees, in queue order, empty trees skipped. */
  function Roots<T>(q: seq<Tree<T>>): seq<T> {
    if q == [] then []
    else if q[0].Nil? then Roots(q[1..])
    else [q[0].value] + Roots(q[1..])
  }

  /** The children of the queued trees, in queue order: the next level down. */
  function KidsAll<T>(q: seq<Tree<T>>): seq<Tree<T>> {
    if q == [] then [] else Kids(q[0]) + KidsAll(q[1..])
  }

  /**
   * The queue is first-in first-out: every tree already waiting has its root
   * served before anything enqueued behind it, and the children that those
   * visits enqueue come after whatever was already waiting.
   */
  lemma {:induction false} LevelOrderFifo<T>(q: seq<Tree<T>>, rest: seq<Tree<T>>)
    ensures LevelOrder(q + rest) == Roots(q) + LevelOrder(rest + KidsAll(q))
    decreases |q|
  {
    if q == [] {
      assert q + rest == rest;
      assert rest + KidsAll(q) == rest;
    } else {
      assert (q + rest)[0] == q[0];
      assert (q + rest)[1..] == q[1..] + rest;
      if q[0].Nil? {
        assert LevelOrder(q + rest) == LevelOrder(q[1..] + rest);
        LevelOrderFifo(q[1..], rest);
        assert KidsAll(q) == KidsAll(q[1..]) by {
          assert KidsAll(q) == [] + KidsAll(q[1..]);
        }
      } else {
        assert (q + rest)[1..] + Kids(q[0]) == q[1..] + (rest + Kids(q[0]));
        LevelOrderFifo(q[1..], rest + Kids(q[0]));
        assert rest + Kids(q[0]) + KidsAll(q[1..]) == rest + KidsAll(q);
      }
    }
  }

  /** Breadth-first order proceeds level by level: all roots of the queue, then the level below. */
  lemma LevelOrderByLevels<T>(q: seq<Tree<T>>)
    ensures LevelOrder(q) == Roots(q) + LevelOrder(KidsAll(q))
  {
    LevelOrderFifo(q, []);
    assert q + [] == q;
    assert [] + KidsAll(q) == KidsAll(q);
  }

  function BreadthFirst<T>(t: Tree<T>): seq<T> {
    if t.Nil? then [] else LevelOrder([t])
  }

  lemma {:induction false} ElementsSize<T>(t: Tree<T>)
    ensures |Elements(t)| == Size(t)
  {
    if t.Node? {
      ElementsSize(t.left);
      ElementsSize(t.right);
    }
  }

  lemma UnionSwap<T>(a: multiset<T>, b: multiset<T>, c: multiset<T>)
    ensures a + b + c == b + a + c
  {
  }

  lemma UnionRotate<T>(a: multiset<T>, b: multiset<T>, c: multiset<T>)
    ensures a + b + c == a + c + b
  {
  }

  lemma UnionShuffle<T>(a: multiset<T>, b: multiset<T>, c: multiset<T>)
    ensures a + (b + c) == (c + a) + b
  {
  }

  /** Preorder visits every node exactly once. */
  lemma {:induction false} PreorderVisitsAll<T>(t: Tree<T>)
    ensures multiset(Preorder(t)) == Elements(t)
    ensures |Preorder(t)| == Size(t)
  {
    match t
    case Nil =>
    case Node(l, x, r) =>
      PreorderVisitsAll(l);
      PreorderVisitsAll(r);
      assert Preorder(t) == [x] + Preorder(l) + Preorder(r);
      assert multiset(Preorder(t)) == multiset{x} + multiset(Preorder(l)) + multiset(Preorder(r));
      UnionSwap(multiset{x}, Elements(l), Elements(r));
  }


  /** Postorder visits every node exactly once. */
  lemma {:induction false} PostorderVisitsAll<T>(t: Tree<T>)
    ensures multiset(Postorder(t)) == Elements(t)
    ensures |Postorder(t)| == Size(t)
  {
    match t
    case Nil =>
    case Node(l, x, r) =>
      PostorderVisitsAll(l);
      PostorderVisitsAll(r);
      assert Postorder(t) == Postorder(l) + Postorder(r) + [x];
      assert multiset(Postorder(t)) == multiset(Postorder(l)) + multiset(Postorder(r)) + multiset{x};
      UnionRotate(Elements(l), Elements(r), multiset{x});
  }


  /** Inorder visits every node exactly once. */
  lemma {:induction false} InorderVisitsAll<T>(t: Tree<T>)
    ensures multiset(Inorder(t)) == Elements(t)
    ensures |Inorder(t)| == Size(t)
  {
    match t
    case Nil =>
    case Node(l, x, r) =>
      InorderVisitsAll(l);
      InorderVisitsAll(r);
      assert Inorder(t) == Inorder(l) + [x] + Inorder(r);
      assert multiset(Inorder(t)) == multiset(Inorder(l)) + multiset{x} + multiset(Inorder(r));
  }


  /** The inorder listing holds exactly the labels. */
  lemma InorderLabels<T>(t: Tree<T>)
    ensures forall x :: x in Inorder(t) <==> x in Labels(t)
  {
    InorderVisitsAll(t);
    forall x ensures x in Inorder(t) <==> x in Labels(t) {
      assert x in Inorder(t) <==> x in multiset(Inorder(t));
      ElementsLabels(t, x);
    }
  }

  lemma {:induction false} ElementsLabels<T>(t: Tree<T>, x: T)
    ensures x in Elements(t) <==> x in Labels(t)
  {
    if t.Node? {
      ElementsLabels(t.left, x);
      ElementsLabels(t.right, x);
    }
  }

  lemma {:induction false} LevelOrderVisitsAll<T>(q: seq<Tree<T>>)
    ensures multiset(LevelOrder(q)) == ElementsAll(q)
    decreases SizeAll(q), |q|
  {
    if q != [] {
      match q[0]
      case Nil =>
        LevelOrderVisitsAll(q[1..]);
      case Node(_, x, _) =>
        AllAppend(q[1..], Kids(q[0]));
        KidsCover(q[0]);
        LevelOrderVisitsAll(q[1..] + Kids(q[0]));
        var rest, kids := ElementsAll(q[1..]), ElementsAll(Kids(q[0]));
        assert multiset(LevelOrder(q)) == multiset{x} + (rest + kids);
        assert ElementsAll(q) == (kids + multiset{x}) + rest;
        UnionShuffle(multiset{x}, rest, kids);
    }
  }

  /** Breadth-first order visits every node exactly once. */
  lemma BreadthFirstVisitsAll<T>(t: Tree<T>)
    ensures multiset(BreadthFirst(t)) == Elements(t)
    ensures |BreadthFirst(t)| == Size(t)
  {
    if t.Node? {
      LevelOrderVisitsAll([t]);
      SingleAll(t);
    }
    ElementsSize(t);
  }

  lemma {:induction false} UniqueElements<T>(t: Tree<T>, x: T)
    requires Unique(t)
    ensures Elements(t)[x] <= 1
    ensures x in Elements(t) <==> x in Labels(t)
  {
    if t.Node? {
      UniqueElements(t.left, x);
      UniqueElements(t.right, x);
    }
  }

  lemma DistinctFromCounts<T>(s: seq<T>)
    requires forall x :: multiset(s)[x] <= 1
    ensures Distinct(s)
  {
    forall i, j | 0 <= i < j < |s| ensures DistinctAt(s, i, j) {
      assert s == s[..i] + [s[i]] + s[i+1..j] + [s[j]] + s[j+1..];
      assert multiset(s)[s[i]] >= 1 + (if s[j] == s[i] then 1 else 0);
    }
  }

  /** In a tree whose labels are unique, every traversal lists each label once. */
  lemma TraversalsDistinct<T>(t: Tree<T>)
    requires Unique(t)
    ensures Distinct(Preorder(t)) && Distinct(Postorder(t))
    ensures Distinct(Inorder(t)) && Distinct(BreadthFirst(t))
  {
    PreorderVisitsAll(t);
    PostorderVisitsAll(t);
    InorderVisitsAll(t);
    BreadthFirstVisitsAll(t);
    forall x ensures Elements(t)[x] <= 1 {
      UniqueElements(t, x);
    }
    DistinctFromCounts(Preorder(t));
    DistinctFromCounts(Postorder(t));
    DistinctFromCounts(Inorder(t));
    DistinctFromCounts(BreadthFirst(t));
  }

  // ---------------------------------------------------------------------------
  // Height
  // ---------------------------------------------------------------------------

  function Max(a: nat, b: nat): nat {
    if a < b then b else a
  }

  /** A leaf has height 0; another node is one more than its highest child. */
  function Height<T>(t: Tree<T>): nat
    requires t.Node?
  {
    if IsLeaf(t) then 0
    else 1 + Max(if t.left.Node? then Height(t.left) else 0,
                 if t.right.Node? then Height(t.right) else 0)
  }

  // ---------------------------------------------------------------------------
  // Paths
  // ---------------------------------------------------------------------------

  /** A non-empty path is its prefix followed by its last step. */
  lemma SplitLast<T>(s: seq<T>)
    requires s != []
    ensures s == s[..|s| - 1] + [s[|s| - 1]]
  {
  }

  /** The subtree a path leads to (Nil once the path leaves the tree). */
  function Subtree<T>(t: Tree<T>, p: Path): Tree<T>
    decreases p
  {
    if p == [] then t
    else if t.Nil? then Nil
    else Subtree(Child(t, p[0]), p[1..])
  }

  /** The path leads to a node. */
  predicate ValidPath<T>(t: Tree<T>, p: Path) {
    Subtree(t, p).Node?
  }

  /** Every proper prefix of the path leads to a node: the path names a node or an empty child slot. */
  predicate Reaches<T>(t: Tree<T>, p: Path)
    decreases p
  {
    p == [] || (t.Node? && Reaches(Child(t, p[0]), p[1..]))
  }

  /** The tree with the subtree at path p replaced by u. */
  function ReplaceAt<T>(t: Tree<T>, p: Path, u: Tree<T>): Tree<T>
    decreases p
  {
    if p == [] then u
    else if t.Nil? then Nil
    else if p[0] == L then Node(ReplaceAt(t.left, p[1..], u), t.value, t.right)
    else Node(t.left, t.value, ReplaceAt(t.right, p[1..], u))
  }

  lemma {:induction false} SubtreeAppend<T>(t: Tree<T>, p: Path, d: Dir)
    requires ValidPath(t, p)
    ensures Subtree(t, p + [d]) == Child(Subtree(t, p), d)
    ensures Reaches(t, p + [d])
    decreases p
  {
    if p != [] {
      assert (p + [d])[0] == p[0] && (p + [d])[1..] == p[1..] + [d];
      SubtreeAppend(Child(t, p[0]), p[1..], d);
    }
  }

  /** Dropping the last step of a valid path leads to the parent, whose child in that direction is the node. */
  lemma {:induction false} ParentValid<T>(t: Tree<T>, p: Path)
    requires ValidPath(t, p) && p != []
    ensures ValidPath(t, p[..|p| - 1])
    ensures Subtree(t, p) == Child(Subtree(t, p[..|p| - 1]), p[|p| - 1])
    decreases p
  {
    if |p| > 1 {
      ParentValid(Child(t, p[0]), p[1..]);
      assert p[1..][..|p[1..]| - 1] == p[..|p| - 1][1..];
    }
  }

  lemma {:induction false} ValidPathReaches<T>(t: Tree<T>, p: Path)
    requires ValidPath(t, p)
    ensures Reaches(t, p)
    decreases p
  {
    if p != [] {
      ValidPathReaches(Child(t, p[0]), p[1..]);
    }
  }

  /** A valid path to a node names a label of the tree, and its subtree's labels are the tree's. */
  lemma {:induction false} SubtreeLabels<T>(t: Tree<T>, p: Path)
    requires Reaches(t, p)
    ensures Labels(Subtree(t, p)) <= Labels(t)
    ensures Size(Subtree(t, p)) <= Size(t)
    decreases p
  {
    if p != [] {
      SubtreeLabels(Child(t, p[0]), p[1..]);
    }
  }

  lemma {:induction false} SubtreeUnique<T>(t: Tree<T>, p: Path)
    requires Unique(t)
    ensures Unique(Subtree(t, p))
    decreases p
  {
    if p != [] && t.Node? {
      SubtreeUnique(Child(t, p[0]), p[1..]);
    }
  }

  /** The path to the node labelled x (searching left before right). */
  function PathTo<T(==)>(t: Tree<T>, x: T): (p: Path)
    requires x in Labels(t)
    ensures ValidPath(t, p) && Subtree(t, p).value == x
  {
    if t.value == x then []
    else if x in Labels(t.left) then
      var q := PathTo(t.left, x);
      assert ([L] + q)[1..] == q;
      [L] + q
    else
      var q := PathTo(t.right, x);
      assert ([R] + q)[1..] == q;
      [R] + q
  }

  /** The subtree whose root is labelled x. */
  function At<T(==)>(t: Tree<T>, x: T): (r: Tree<T>)
    requires x in Labels(t)
    ensures r.Node? && r.value == x
  {
    Subtree(t, PathTo(t, x))
  }

  /** The labels of a node's children, left before right, absent ones skipped. */
  function KidLabels<T>(t: Tree<T>): (r: seq<T>)
    ensures |r| <= 2
  {
    match t
    case Nil => []
    case Node(l, _, rt) => (if l.Node? then [l.value] else []) + (if rt.Node? then [rt.value] else [])
  }

  /** With unique labels, the only path to a node is the one PathTo finds. */
  lemma {:induction false} PathToUnique<T>(t: Tree<T>, p: Path)
    requires Unique(t) && ValidPath(t, p)
    ensures Subtree(t, p).value in Labels(t)
    ensures PathTo(t, Subtree(t, p).value) == p
    decreases p
  {
    if p != [] {
      var c := Child(t, p[0]);
      PathToUnique(c, p[1..]);
      assert Subtree(t, p) == Subtree(c, p[1..]);
      var x := Subtree(t, p).value;
      if p[0] == L {
        assert x in Labels(t.left);
        assert [L] + p[1..] == p;
      } else {
        assert x in Labels(t.right);
        assert x !in Labels(t.left);
        assert [R] + p[1..] == p;
      }
    }
  }

  /** Hanging a fresh leaf in an empty slot adds exactly that label. */
  lemma ReplaceAtLeaf<T>(t: Tree<T>, p: Path, c: T)
    requires Reaches(t, p) && Subtree(t, p).Nil? && Unique(t) && c !in Labels(t)
    ensures Unique(ReplaceAt(t, p, Node(Nil, c, Nil)))
    ensures Labels(ReplaceAt(t, p, Node(Nil, c, Nil))) == Labels(t) + {c}
    ensures Size(ReplaceAt(t, p, Node(Nil, c, Nil))) == Size(t) + 1
  {
    var u := Node(Nil, c, Nil);
    assert Labels(u) == {c};
    ReplaceAtEffect(t, p, u);
  }

  /** Replacing below the root keeps the root. */
  lemma ReplaceAtRoot<T>(t: Tree<T>, p: Path, u: Tree<T>)
    requires t.Node? && p != []
    ensures ReplaceAt(t, p, u).Node? && ReplaceAt(t, p, u).value == t.value
  {
  }

  /** Replacing the subtree at a reachable path changes size and labels by exactly that subtree. */
  lemma ReplaceAtEffect<T>(t: Tree<T>, p: Path, u: Tree<T>)
    requires Reaches(t, p)
    ensures Size(ReplaceAt(t, p, u)) + Size(Subtree(t, p)) == Size(t) + Size(u)
    ensures Subtree(ReplaceAt(t, p, u), p) == u
    ensures Unique(t) && Unique(u) && Labels(u) !! (Labels(t) - Labels(Subtree(t, p)))
            ==> Unique(ReplaceAt(t, p, u))
                && Labels(ReplaceAt(t, p, u)) == (Labels(t) - Labels(Subtree(t, p))) + Labels(u)
  {
    ReplaceAtSize(t, p, u);
    ReplaceAtHits(t, p, u);
    if Unique(t) && Unique(u) && Labels(u) !! (Labels(t) - Labels(Subtree(t, p))) {
      ReplaceAtLabels(t, p, u);
    }
  }

  lemma {:induction false} ReplaceAtSize<T>(t: Tree<T>, p: Path, u: Tree<T>)
    requires Reaches(t, p)
    ensures Size(ReplaceAt(t, p, u)) + Size(Subtree(t, p)) == Size(t) + Size(u)
    decreases p
  {
    if p != [] {
      ReplaceAtSize(Child(t, p[0]), p[1..], u);
    }
  }

  lemma {:induction false} ReplaceAtHits<T>(t: Tree<T>, p: Path, u: Tree<T>)
    requires Reaches(t, p)
    ensures Subtree(ReplaceAt(t, p, u), p) == u
    decreases p
  {
    if p != [] {
      ReplaceAtHits(Child(t, p[0]), p[1..], u);
    }
  }

  lemma {:induction false} ReplaceAtLabels<T>(t: Tree<T>, p: Path, u: Tree<T>)
    requires Reaches(t, p) && Unique(t) && Unique(u) && Labels(u) !! (Labels(t) - Labels(Subtree(t, p)))
    ensures Unique(ReplaceAt(t, p, u))
    ensures Labels(ReplaceAt(t, p, u)) == (Labels(t) - Labels(Subtree(t, p))) + Labels(u)
    decreases p
  {
    if p != [] {
      var c := Child(t, p[0]);
      var sub := Labels(Subtree(c, p[1..]));
      SubtreeLabels(c, p[1..]);
      assert Subtree(t, p) == Subtree(c, p[1..]);
      assert Labels(u) !! (Labels(c) - sub);
      ReplaceAtLabels(c, p[1..], u);
      var c' := ReplaceAt(c, p[1..], u);
      assert Labels(c') == (Labels(c) - sub) + Labels(u);
      if p[0] == L {
        assert ReplaceAt(t, p, u) == Node(c', t.value, t.right);
        assert Labels(ReplaceAt(t, p, u)) == Labels(c') + {t.value} + Labels(t.right);
      } else {
        assert ReplaceAt(t, p, u) == Node(t.left, t.value, c');
        assert Labels(ReplaceAt(t, p, u)) == Labels(t.left) + {t.value} + Labels(c');
      }
    }
  }

  // ---------------------------------------------------------------------------
  // Height as the greatest depth of a leaf
  // ---------------------------------------------------------------------------

  /** No node lies deeper than the height. */
  lemma {:induction false} HeightBoundsDepth<T>(t: Tree<T>, p: Path)
    requires ValidPath(t, p)
    ensures |p| <= Height(t)
    decreases p
  {
    if p != [] {
      HeightBoundsDepth(Child(t, p[0]), p[1..]);
    }
  }

  /** A leaf at depth equal to the height: so the height is the greatest depth of a leaf. */
  function DeepestLeaf<T>(t: Tree<T>): (p: Path)
    requires t.Node?
    ensures ValidPath(t, p) && IsLeaf(Subtree(t, p)) && |p| == Height(t)
  {
    if IsLeaf(t) then []
    else if t.left.Node? && (t.right.Nil? || Height(t.right) <= Height(t.left)) then
      var q := DeepestLeaf(t.left);
      assert ([L] + q)[0] == L && ([L] + q)[1..] == q;
      [L] + q
    else
      var q := DeepestLeaf(t.right);
      assert ([R] + q)[0] == R && ([R] + q)[1..] == q;
      [R] + q
  }

  /** Every node has a smaller height than the size of its subtree. */
  lemma {:induction false} HeightBelowSize<T>(t: Tree<T>)
    requires t.Node?
    ensures Height(t) < Size(t)
  {
    if t.left.Node? { HeightBelowSize(t.left); }
    if t.right.Node? { HeightBelowSize(t.right); }
  }
}
