/**
 * LinkedBinaryTree: nodes linked to their parent and children. Nodes live in
 * an arena keyed by id. A ghost tree of ids, `shape`, records the tree the
 * links describe: every query is specified against it and every update is a
 * replacement of one of its subtrees. A deleted node is marked by naming
 * itself as its parent, which is how positions are invalidated.
 */
module LinkedBinaryTrees {
  import opened Wrappers
  import opened TreeSpec
  import opened LevelOrderLists
  import opened LinkedQueues

  /** A node record: its element and the ids of its parent and children. */
  datatype NodeData<T> = NodeData(element: T, parent: Option<nat>, left: Option<nat>, right: Option<nat>)

  /** A position: the tree that handed it out and the id of its node. */
  datatype Position<T> = Position(container: LinkedBinaryTree<T>, node: nat)

  /**
   * The links of m describe the tree of ids s: each node's left and right
   * name the roots of its subtrees, and each child names it as parent.
   */
  ghost predicate Shaped<T>(m: map<nat, NodeData<T>>, s: Tree<nat>) {
    match s
    case Nil => true
    case Node(l, x, r) =>
      x in m && m[x].left == RootLabel(l) && m[x].right == RootLabel(r) &&
      (l.Node? ==> l.value in m && m[l.value].parent == Some(x)) &&
      (r.Node? ==> r.value in m && m[r.value].parent == Some(x)) &&
      Shaped(m, l) && Shaped(m, r)
  }

  /** Node k has the same child links in m and m'. */
  ghost predicate SameLinks<T>(m: map<nat, NodeData<T>>, m': map<nat, NodeData<T>>, k: nat) {
    k in m && k in m' && m'[k].left == m[k].left && m'[k].right == m[k].right
  }

  /** Node k has the same child and parent links in m and m'. */
  ghost predicate SameNode<T>(m: map<nat, NodeData<T>>, m': map<nat, NodeData<T>>, k: nat) {
    SameLinks(m, m', k) && m'[k].parent == m[k].parent
  }

  /** The ids a node links to as children, left before right. */
  function LinkKids<T>(n: NodeData<T>): seq<nat> {
    (if n.left.Some? then [n.left.value] else []) + (if n.right.Some? then [n.right.value] else [])
  }

  /** A position of t for the node, none when there is no node. */
  function MakePosition<T>(t: LinkedBinaryTree<T>, id: Option<nat>): (r: Option<Position<T>>)
    ensures r.Some? <==> id.Some?
    ensures r.Some? ==> r.value.container == t && r.value.node == id.value
  {
    if id.Some? then Some(Position(t, id.value)) else None
  }

  function MakePositions<T>(t: LinkedBinaryTree<T>, ids: seq<nat>): (r: seq<Position<T>>)
    ensures |r| == |ids|
    ensures forall i | 0 <= i < |ids| :: r[i] == Position(t, ids[i])
  {
    if ids == [] then [] else [Position(t, ids[0])] + MakePositions(t, ids[1..])
  }

  lemma MakePositionsAppend<T>(t: LinkedBinaryTree<T>, a: seq<nat>, b: seq<nat>)
    ensures MakePositions(t, a + b) == MakePositions(t, a) + MakePositions(t, b)
  {
    assert forall i | 0 <= i < |a + b| :: MakePositions(t, a + b)[i] == (MakePositions(t, a) + MakePositions(t, b))[i];
  }

  /** Queue each of es in turn, as the source's loop over a node's children does. */
  method EnqueueAll<T>(q: LinkedQueue<T>, es: seq<T>)
    requires q.Valid()
    modifies q
    ensures q.Valid() && q.Contents == old(q.Contents) + es
  {
    for j := 0 to |es|
      invariant q.Valid()
      invariant q.Contents == old(q.Contents) + es[..j]
    {
      q.Enqueue(es[j]);
      assert es[..j + 1] == es[..j] + [es[j]];
    }
    assert es[..|es|] == es;
  }

  /** The element a position holds; positions carry no check here, as in the source. */
  function Element<T>(p: Position<T>): (r: T)
    reads p.container
    requires p.node in p.container.nodes
    ensures p.container.Valid() && p.node in Labels(p.container.shape) ==> r in p.container.Elements()
  {
    p.container.ElementListed(p.node);
    p.container.nodes[p.node].element
  }

  // ---------------------------------------------------------------------------
  // The links of a shaped tree
  // ---------------------------------------------------------------------------

  lemma {:induction false} ShapedSubtree<T>(m: map<nat, NodeData<T>>, s: Tree<nat>, q: Path)
    requires Shaped(m, s)
    ensures Shaped(m, Subtree(s, q))
    decreases q
  {
    if q != [] && s.Node? {
      ShapedSubtree(m, Child(s, q[0]), q[1..]);
    }
  }

  /** The node at path q links to the roots of its subtrees and to its parent. */
  lemma ShapedLinks<T>(m: map<nat, NodeData<T>>, s: Tree<nat>, q: Path)
    requires Shaped(m, s) && ValidPath(s, q)
    ensures Subtree(s, q).value in m
    ensures m[Subtree(s, q).value].left == RootLabel(Subtree(s, q).left)
    ensures m[Subtree(s, q).value].right == RootLabel(Subtree(s, q).right)
    ensures q != [] ==> ValidPath(s, q[..|q| - 1]) &&
                        m[Subtree(s, q).value].parent == Some(Subtree(s, q[..|q| - 1]).value)
  {
    ShapedSubtree(m, s, q);
    if q != [] {
      ParentValid(s, q);
      ShapedSubtree(m, s, q[..|q| - 1]);
    }
  }

  lemma {:induction false} LabelsIn<T>(m: map<nat, NodeData<T>>, s: Tree<nat>)
    requires Shaped(m, s)
    ensures Labels(s) <= m.Keys
  {
    if s.Node? {
      LabelsIn(m, s.left);
      LabelsIn(m, s.right);
    }
  }

  /** Changing no links on the labels of s, nor the parent of any but its root, keeps it shaped. */
  lemma {:induction false} ShapedFrame<T>(m: map<nat, NodeData<T>>, m': map<nat, NodeData<T>>, s: Tree<nat>)
    requires Shaped(m, s) && Unique(s)
    requires forall k | k in Labels(s) :: SameLinks(m, m', k)
    requires forall k | k in Labels(s) && Some(k) != RootLabel(s) :: SameNode(m, m', k)
    ensures Shaped(m', s)
  {
    if s.Node? {
      assert SameLinks(m, m', s.value);
      ShapedFrame(m, m', s.left);
      ShapedFrame(m, m', s.right);
    }
  }

  lemma {:induction false} SubtreeLabelsAny<T>(t: Tree<T>, p: Path)
    ensures Labels(Subtree(t, p)) <= Labels(t)
    decreases p
  {
    if p != [] && t.Node? {
      SubtreeLabelsAny(Child(t, p[0]), p[1..]);
    }
  }

  /** The root of a tree with unique labels lies in no proper subtree. */
  lemma RootNotBelow<T>(t: Tree<T>, p: Path)
    requires Unique(t) && t.Node? && p != []
    ensures t.value !in Labels(Subtree(t, p))
  {
    SubtreeLabelsAny(Child(t, p[0]), p[1..]);
  }

  /** The requirements on the node y that receives u as child d. */
  ghost predicate GraftPoint<T>(m: map<nat, NodeData<T>>, m': map<nat, NodeData<T>>, y: nat, d: Dir, u: Tree<nat>) {
    y in m && y in m' && m'[y].parent == m[y].parent &&
    m'[y].left == (if d == L then RootLabel(u) else m[y].left) &&
    m'[y].right == (if d == R then RootLabel(u) else m[y].right) &&
    (u.Node? ==> u.value in m' && m'[u.value].parent == Some(y))
  }

  /** Every node of s outside the subtree at p, other than y, keeps all its links. */
  ghost predicate FrameOutside<T>(m: map<nat, NodeData<T>>, m': map<nat, NodeData<T>>, s: Tree<nat>, p: Path, y: nat) {
    forall k | k in Labels(s) && k !in Labels(Subtree(s, p)) && k != y :: SameNode(m, m', k)
  }

  function WithChild<T>(t: Tree<T>, d: Dir, c: Tree<T>): Tree<T>
    requires t.Node?
  {
    if d == L then Node(c, t.value, t.right) else Node(t.left, t.value, c)
  }

  /** Grafting directly below the root. */
  lemma GraftBase<T>(m: map<nat, NodeData<T>>, m': map<nat, NodeData<T>>, s: Tree<nat>, d: Dir, u: Tree<nat>)
    requires Shaped(m, s) && Unique(s) && s.Node?
    requires Shaped(m', u) && GraftPoint(m, m', s.value, d, u)
    requires FrameOutside(m, m', s, [d], s.value)
    ensures Shaped(m', WithChild(s, d, u))
  {
    assert Subtree(s, [d]) == Child(s, d);
    var other := Child(s, Flip(d));
    assert forall k | k in Labels(other) :: k in Labels(s) && k !in Labels(Child(s, d)) && k != s.value;
    ShapedFrame(m, m', other);
  }

  /** The frame of a graft below child pp[0], seen from that child. */
  lemma GraftFrame<T>(m: map<nat, NodeData<T>>, m': map<nat, NodeData<T>>, s: Tree<nat>, pp: Path, d: Dir, y: nat)
    requires s.Node? && pp != [] && FrameOutside(m, m', s, pp + [d], y)
    ensures Subtree(s, pp + [d]) == Subtree(Child(s, pp[0]), pp[1..] + [d])
    ensures FrameOutside(m, m', Child(s, pp[0]), pp[1..] + [d], y)
  {
    assert (pp + [d])[0] == pp[0] && (pp + [d])[1..] == pp[1..] + [d];
  }

  /** Grafting below child pp[0]: the root keeps its links, and the changed child keeps its root. */
  lemma GraftStep<T>(m: map<nat, NodeData<T>>, m': map<nat, NodeData<T>>, s: Tree<nat>, pp: Path, d: Dir, u: Tree<nat>)
    requires Shaped(m, s) && Unique(s) && ValidPath(s, pp) && pp != []
    requires GraftPoint(m, m', Subtree(s, pp).value, d, u)
    requires FrameOutside(m, m', s, pp + [d], Subtree(s, pp).value)
    requires Shaped(m', ReplaceAt(Child(s, pp[0]), pp[1..] + [d], u))
    ensures Shaped(m', WithChild(s, pp[0], ReplaceAt(Child(s, pp[0]), pp[1..] + [d], u)))
  {
    var c := Child(s, pp[0]);
    var y := Subtree(s, pp).value;
    GraftFrame(m, m', s, pp, d, y);
    SubtreeLabelsAny(c, pp[1..] + [d]);
    SubtreeLabelsAny(c, pp[1..]);
    assert y in Labels(c);
    var c' := ReplaceAt(c, pp[1..] + [d], u);
    assert RootLabel(c') == RootLabel(c);
    assert m'[c.value].parent == Some(s.value) by {
      if pp[1..] != [] {
        RootNotBelow(c, pp[1..] + [d]);
        RootNotBelow(c, pp[1..]);
        assert c.value in Labels(s) && c.value != y;
      }
    }
    var other := Child(s, Flip(pp[0]));
    assert forall k | k in Labels(other) :: k in Labels(s) && k !in Labels(c) && k != y;
    ShapedFrame(m, m', other);
    assert SameNode(m, m', s.value);
    assert other.Node? ==> SameNode(m, m', other.value);
    if pp[0] == L {
      assert WithChild(s, pp[0], c') == Node(c', s.value, other);
    } else {
      assert WithChild(s, pp[0], c') == Node(other, s.value, c');
    }
  }

  /**
   * Grafting u as child d of the node y at path pp keeps the tree shaped when
   * u is shaped, y links to u's root and keeps its other links, u's root names
   * y as parent, and every other node outside the replaced subtree keeps its
   * links.
   */
  lemma {:induction false} ShapedGraft<T>(m: map<nat, NodeData<T>>, m': map<nat, NodeData<T>>,
                                          s: Tree<nat>, pp: Path, d: Dir, u: Tree<nat>)
    requires Shaped(m, s) && Unique(s) && ValidPath(s, pp)
    requires Shaped(m', u) && GraftPoint(m, m', Subtree(s, pp).value, d, u)
    requires FrameOutside(m, m', s, pp + [d], Subtree(s, pp).value)
    ensures Shaped(m', ReplaceAt(s, pp + [d], u))
    decreases pp
  {
    if pp == [] {
      assert pp + [d] == [d] && [d][1..] == [];
      GraftBase(m, m', s, d, u);
    } else {
      var c := Child(s, pp[0]);
      assert (pp + [d])[0] == pp[0] && (pp + [d])[1..] == pp[1..] + [d];
      assert Subtree(s, pp) == Subtree(c, pp[1..]);
      GraftFrame(m, m', s, pp, d, Subtree(s, pp).value);
      ShapedGraft(m, m', c, pp[1..], d, u);
      GraftStep(m, m', s, pp, d, u);
    }
  }

  /** The node record n with its child link on side d set to c. */
  function WithLink<T>(n: NodeData<T>, d: Dir, c: Option<nat>): NodeData<T> {
    if d == L then n.(left := c) else n.(right := c)
  }

  /** The child link of n on side d. */
  function LinkOf<T>(n: NodeData<T>, d: Dir): Option<nat> {
    if d == L then n.left else n.right
  }

  /**
   * Hanging a new leaf c as child d of x, where that slot is empty and c is a
   * fresh id, grows the tree by exactly c and keeps it shaped.
   */
  lemma AddLeafShaped<T>(m: map<nat, NodeData<T>>, s: Tree<nat>, x: nat, d: Dir, c: nat, e: T)
    requires Shaped(m, s) && Unique(s) && x in Labels(s) && x in m && c !in m
    requires Child(At(s, x), d).Nil?
    ensures var s' := ReplaceAt(s, PathTo(s, x) + [d], Node(Nil, c, Nil));
            var m' := m[x := WithLink(m[x], d, Some(c))][c := NodeData(e, Some(x), None, None)];
            Shaped(m', s') && Unique(s') && Labels(s') == Labels(s) + {c} &&
            Size(s') == Size(s) + 1 && RootLabel(s') == RootLabel(s) && s'.Node?
  {
    var q := PathTo(s, x);
    var u: Tree<nat> := Node(Nil, c, Nil);
    var m' := m[x := WithLink(m[x], d, Some(c))][c := NodeData(e, Some(x), None, None)];
    LabelsIn(m, s);
    SubtreeAppend(s, q, d);
    ShapedLinks(m, s, q);
    assert GraftPoint(m, m', x, d, u);
    assert FrameOutside(m, m', s, q + [d], x) by {
      forall k | k in Labels(s) && k !in Labels(Subtree(s, q + [d])) && k != x ensures SameNode(m, m', k) {
        assert k in m && k != c;
      }
    }
    ShapedGraft(m, m', s, q, d, u);
    assert c !in Labels(s);
    ReplaceAtLeaf(s, q + [d], c);
    ReplaceAtRoot(s, q + [d], u);
  }

  /** The one child subtree of a node with at most one child (Nil for a leaf). */
  function OnlyChild<T>(t: Tree<T>): Tree<T>
    requires t.Node?
  {
    if t.left.Node? then t.left else t.right
  }

  /** Replacing a node with at most one child by that child's subtree loses exactly the node. */
  lemma SpliceTree<T>(s: Tree<T>, q: Path, x: T, ct: Tree<T>)
    requires Unique(s) && ValidPath(s, q) && Subtree(s, q).value == x
    requires !(Subtree(s, q).left.Node? && Subtree(s, q).right.Node?) && ct == OnlyChild(Subtree(s, q))
    ensures Unique(ct) && x !in Labels(ct) && Labels(ct) <= Labels(Subtree(s, q))
    ensures var s' := ReplaceAt(s, q, ct);
            Unique(s') && Labels(s') == Labels(s) - {x} && Size(s') + 1 == Size(s) &&
            RootLabel(s') == (if q == [] then RootLabel(ct) else RootLabel(s))
  {
    var t := Subtree(s, q);
    ValidPathReaches(s, q);
    SubtreeLabels(s, q);
    SubtreeUnique(s, q);
    assert Labels(t) == Labels(ct) + {x} && Size(t) == Size(ct) + 1;
    ReplaceAtEffect(s, q, ct);
    if q != [] {
      assert s.Node?;
    }
    assert Labels(s) - Labels(t) + Labels(ct) == Labels(s) - {x};
  }

  /** The parent of the node at path q lies outside the subtree at q. */
  lemma ParentOutside<T>(m: map<nat, NodeData<T>>, s: Tree<nat>, q: Path)
    requires Shaped(m, s) && Unique(s) && ValidPath(s, q)
    requires q == [] ==> m[Subtree(s, q).value].parent == None
    ensures Subtree(s, q).value in m
    ensures forall k | k in Labels(Subtree(s, q)) :: Some(k) != m[Subtree(s, q).value].parent
  {
    ShapedLinks(m, s, q);
    if q != [] {
      ParentValid(s, q);
      var up := Subtree(s, q[..|q| - 1]);
      SubtreeUnique(s, q[..|q| - 1]);
      assert up.value !in Labels(Child(up, q[|q| - 1]));
    }
  }

  /** The nodes of the spliced-in subtree keep their links; only its root changes parent. */
  lemma SpliceChildShaped<T>(m: map<nat, NodeData<T>>, m': map<nat, NodeData<T>>, s: Tree<nat>, q: Path,
                             x: nat, ct: Tree<nat>)
    requires Shaped(m, s) && Unique(s) && ValidPath(s, q) && Subtree(s, q).value == x && x in m
    requires !(Subtree(s, q).left.Node? && Subtree(s, q).right.Node?) && ct == OnlyChild(Subtree(s, q))
    requires q == [] ==> m[x].parent == None
    requires ct.Node? ==> ct.value in m' && SameLinks(m, m', ct.value)
    requires forall k | k in m && k != x && Some(k) != RootLabel(ct) && Some(k) != m[x].parent :: k in m' && m'[k] == m[k]
    ensures Shaped(m', ct)
  {
    var t := Subtree(s, q);
    SpliceTree(s, q, x, ct);
    assert Shaped(m, ct) by {
      ShapedSubtree(m, s, q);
    }
    LabelsIn(m, ct);
    ParentOutside(m, s, q);
    forall k | k in Labels(ct)
      ensures SameLinks(m, m', k)
    {
      assert k in m && k != x && Some(k) != m[x].parent;
    }
    forall k | k in Labels(ct) && Some(k) != RootLabel(ct)
      ensures SameNode(m, m', k)
    {
      assert k in m && k != x && Some(k) != m[x].parent;
    }
    ShapedFrame(m, m', ct);
  }

  /**
   * Splicing out the node x at path q, which has at most one child: its child
   * subtree ct takes its place, ct's root takes x's parent, the parent (when
   * there is one) links to ct's root on x's side, and no other node changes.
   * The tree loses exactly x and stays shaped.
   */
  lemma DeleteShaped<T>(m: map<nat, NodeData<T>>, m': map<nat, NodeData<T>>, s: Tree<nat>, q: Path,
                        x: nat, ct: Tree<nat>)
    requires Shaped(m, s) && Unique(s) && ValidPath(s, q) && Subtree(s, q).value == x && x in m
    requires !(Subtree(s, q).left.Node? && Subtree(s, q).right.Node?) && ct == OnlyChild(Subtree(s, q))
    requires q == [] ==> m[x].parent == None
    requires ct.Node? ==> ct.value in m' && SameLinks(m, m', ct.value) && m'[ct.value].parent == m[x].parent
    requires q != [] ==> m[x].parent.Some? && GraftPoint(m, m', m[x].parent.value, q[|q| - 1], ct)
    requires forall k | k in m && k != x && Some(k) != RootLabel(ct) && Some(k) != m[x].parent :: k in m' && m'[k] == m[k]
    ensures var s' := ReplaceAt(s, q, ct);
            Shaped(m', s') && Unique(s') && Labels(s') == Labels(s) - {x} && Size(s') + 1 == Size(s) &&
            RootLabel(s') == (if q == [] then RootLabel(ct) else RootLabel(s))
  {
    SpliceTree(s, q, x, ct);
    SpliceChildShaped(m, m', s, q, x, ct);
    if q != [] {
      SplitLast(q);
      DeleteGraft(m, m', s, q[..|q| - 1], q[|q| - 1], x, ct);
    }
  }

  /** DeleteShaped below a parent: the parent at pp takes ct as child d in place of x. */
  lemma DeleteGraft<T>(m: map<nat, NodeData<T>>, m': map<nat, NodeData<T>>, s: Tree<nat>, pp: Path, d: Dir,
                       x: nat, ct: Tree<nat>)
    requires Shaped(m, s) && Unique(s) && ValidPath(s, pp + [d]) && Subtree(s, pp + [d]).value == x && x in m
    requires Labels(ct) <= Labels(Subtree(s, pp + [d])) && Shaped(m', ct)
    requires m[x].parent.Some? && GraftPoint(m, m', m[x].parent.value, d, ct)
    requires forall k | k in m && k != x && Some(k) != RootLabel(ct) && Some(k) != m[x].parent :: k in m' && m'[k] == m[k]
    ensures Shaped(m', ReplaceAt(s, pp + [d], ct))
  {
    var q := pp + [d];
    var t := Subtree(s, q);
    ShapedLinks(m, s, q);
    assert q[..|q| - 1] == pp;
    var y := Subtree(s, pp).value;
    LabelsIn(m, s);
    assert y !in Labels(t) by {
      ParentValid(s, q);
      SubtreeUnique(s, pp);
    }
    assert FrameOutside(m, m', s, q, y) by {
      forall k | k in Labels(s) && k !in Labels(t) && k != y ensures SameNode(m, m', k) {
        assert k in m && k != x;
      }
    }
    ShapedGraft(m, m', s, pp, d, ct);
  }

  /** DeleteShaped, with the new links given node by node as the source's updates leave them. */
  lemma SpliceOut<T>(m: map<nat, NodeData<T>>, m': map<nat, NodeData<T>>, s: Tree<nat>, q: Path,
                     x: nat, ct: Tree<nat>)
    requires Shaped(m, s) && Unique(s) && ValidPath(s, q) && Subtree(s, q).value == x && x in m
    requires !(Subtree(s, q).left.Node? && Subtree(s, q).right.Node?) && ct == OnlyChild(Subtree(s, q))
    requires q == [] ==> m[x].parent == None
    requires x in m' && m'[x] == m[x].(parent := Some(x))
    requires ct.Node? ==> ct.value in m && ct.value in m' && m'[ct.value] == m[ct.value].(parent := m[x].parent)
    requires q != [] ==> m[x].parent.Some? && m[x].parent.value in m && m[x].parent.value in m' &&
                         m'[m[x].parent.value] == WithLink(m[m[x].parent.value], q[|q| - 1], RootLabel(ct))
    requires forall k | k in m && k != x && Some(k) != RootLabel(ct) && Some(k) != m[x].parent :: k in m' && m'[k] == m[k]
    ensures var s' := ReplaceAt(s, q, ct);
            Shaped(m', s') && Unique(s') && Labels(s') == Labels(s) - {x} && Size(s') + 1 == Size(s) &&
            RootLabel(s') == (if q == [] then RootLabel(ct) else RootLabel(s))
  {
    ShapedLinks(m, s, q);
    if q != [] {
      ParentValid(s, q);
      SubtreeUnique(s, q[..|q| - 1]);
      assert GraftPoint(m, m', m[x].parent.value, q[|q| - 1], ct);
    }
    DeleteShaped(m, m', s, q, x, ct);
  }

  /**
   * The bookkeeping side of splicing out x: keys stay, elements stay, nodes
   * outside the tree stay, and the nodes outside the tree after (x among
   * them) all name themselves as parent.
   */
  lemma SpliceFrame<T>(m: map<nat, NodeData<T>>, m': map<nat, NodeData<T>>, x: nat, c: Option<nat>, up: Option<nat>,
                       live: set<nat>)
    requires x in m && x in live && x in m' && m'[x] == m[x].(parent := Some(x))
    requires c.Some? ==> c.value in m && c.value in live && c.value in m' && m'[c.value] == m[c.value].(parent := up)
    requires up.Some? ==> up.value in m && up.value in live && up.value in m' &&
                          m'[up.value].element == m[up.value].element && m'[up.value].parent == m[up.value].parent
    requires forall k | k in m && k != x && Some(k) != c && Some(k) != up :: k in m' && m'[k] == m[k]
    requires forall k | k in m' :: k in m
    requires forall k | k in m && k !in live :: m[k].parent == Some(k)
    ensures forall k :: k in m' <==> k in m
    ensures forall k | k in m :: m'[k].element == m[k].element
    ensures forall k | k in m && k !in live :: m'[k] == m[k]
    ensures forall k | k in m' && k !in live - {x} :: m'[k].parent == Some(k)
  {
  }

  /**
   * The state of a linked binary tree: the links describe the tree of ids s,
   * whose ids are distinct; root and size match it; the root has no parent;
   * ids are handed out below nextId; and every node outside the tree has been
   * deleted (names itself as parent).
   */
  ghost predicate Coherent<T>(m: map<nat, NodeData<T>>, s: Tree<nat>, root: Option<nat>, size: nat, nextId: nat) {
    Shaped(m, s) && Unique(s) &&
    root == RootLabel(s) &&
    (root.Some? ==> root.value in m && m[root.value].parent == None) &&
    size == Size(s) &&
    (forall k | k in m :: k < nextId) &&
    (forall k :: Orphaned(m, s, k))
  }

  /** A node outside the tree names itself as parent: that is how a deleted node is marked. */
  ghost predicate Orphaned<T>(m: map<nat, NodeData<T>>, s: Tree<nat>, k: nat) {
    k in m && k !in Labels(s) ==> m[k].parent == Some(k)
  }

  /** The orphan rule of Coherent, spelled out for every deleted node. */
  lemma OrphansOf<T>(m: map<nat, NodeData<T>>, s: Tree<nat>)
    requires forall k :: Orphaned(m, s, k)
    ensures forall k | k in m && k !in Labels(s) :: m[k].parent == Some(k)
  {
    forall k | k in m && k !in Labels(s) ensures m[k].parent == Some(k) {
      assert Orphaned(m, s, k);
    }
  }

  /** Every deleted node naming itself as parent is the orphan rule of Coherent. */
  lemma OrphansFrom<T>(m: map<nat, NodeData<T>>, s: Tree<nat>)
    requires forall k | k in m && k !in Labels(s) :: m[k].parent == Some(k)
    ensures forall k :: Orphaned(m, s, k)
  {
  }

  /** What the source's delete relies on: x, its child (left, else right) and, below the root, its parent are nodes. */
  ghost predicate UnlinkReady<T>(m: map<nat, NodeData<T>>, x: nat, atRoot: bool) {
    x in m &&
    var n := m[x];
    var child := if n.left.Some? then n.left else n.right;
    (child.Some? ==> child.value in m && child.value != x && Some(child.value) != n.parent) &&
    (!atRoot ==> n.parent.Some? && n.parent.value in m && n.parent.value != x)
  }

  /**
   * The link updates of the source's delete, in its order, on the map of
   * nodes m: the child takes x's parent, the parent takes the child in x's
   * place, and x names itself as parent.
   */
  function Unlink<T>(m: map<nat, NodeData<T>>, x: nat, atRoot: bool): map<nat, NodeData<T>>
    requires UnlinkReady(m, x, atRoot)
  {
    var n := m[x];
    var child := if n.left.Some? then n.left else n.right;
    var m1 := if child.Some? then m[child.value := m[child.value].(parent := n.parent)] else m;
    var m2 := if atRoot then m1
              else
                var y := n.parent.value;
                if m1[y].left == Some(x) then m1[y := m1[y].(left := child)] else m1[y := m1[y].(right := child)];
    m2[x := m2[x].(parent := Some(x))]
  }

  /** The updates of Unlink splice x out (see Spliced). */
  lemma UnlinkSpliced<T>(m: map<nat, NodeData<T>>, x: nat, atRoot: bool)
    requires UnlinkReady(m, x, atRoot)
    ensures Spliced(m, Unlink(m, x, atRoot), x, atRoot)
  {
  }

  /**
   * m' is m after splicing out x: x names itself as parent, its child (its
   * left one, else its right one) takes x's parent, x's parent (unless x is
   * the root) links to the child in place of x, and every other node stays.
   */
  ghost predicate Spliced<T>(m: map<nat, NodeData<T>>, m': map<nat, NodeData<T>>, x: nat, atRoot: bool)
    requires x in m
  {
    var n := m[x];
    var child := if n.left.Some? then n.left else n.right;
    (forall k :: k in m' <==> k in m) &&
    x in m' && m'[x] == n.(parent := Some(x)) &&
    (child.Some? ==> child.value in m && child.value in m' &&
                     m'[child.value] == m[child.value].(parent := n.parent)) &&
    (!atRoot ==> n.parent.Some? && n.parent.value in m && n.parent.value in m' &&
                 m'[n.parent.value] == if m[n.parent.value].left == Some(x) then m[n.parent.value].(left := child)
                                       else m[n.parent.value].(right := child)) &&
    (forall k | k in m && k != x && Some(k) != child && Some(k) != n.parent :: m'[k] == m[k])
  }

  /**
   * What the source's delete finds around the node x of a coherent tree when
   * x has at most one child: x's child link names the root of its one child
   * subtree, x's parent link is absent exactly at the root, and the parent's
   * left link names x exactly when x is a left child.
   */
  ghost predicate SpliceReady<T>(m: map<nat, NodeData<T>>, s: Tree<nat>, root: Option<nat>, size: nat, nextId: nat, x: nat) {
    Coherent(m, s, root, size, nextId) && x in Labels(s) && x in m &&
    !(At(s, x).left.Node? && At(s, x).right.Node?) &&
    var n := m[x];
    var child := if n.left.Some? then n.left else n.right;
    var q := PathTo(s, x);
    child == RootLabel(OnlyChild(At(s, x))) &&
    (child.Some? ==> child.value in m && child.value in Labels(s) && child.value != x &&
                     Some(child.value) != n.parent && Some(child.value) != root) &&
    (root == Some(x) <==> n.parent.None?) && (n.parent.None? <==> q == []) &&
    (n.parent.Some? ==> n.parent.value in m && n.parent.value != x && n.parent.value in Labels(s) &&
                        (m[n.parent.value].left == Some(x) <==> q[|q| - 1] == L))
  }

  /** Deleting a node with at most one child leaves links shaped like the tree without that node. */
  lemma SpliceShape<T>(m: map<nat, NodeData<T>>, m': map<nat, NodeData<T>>, s: Tree<nat>, root: Option<nat>,
                       size: nat, nextId: nat, x: nat, s': Tree<nat>)
    requires SpliceReady(m, s, root, size, nextId, x) && Spliced(m, m', x, root == Some(x))
    requires s' == ReplaceAt(s, PathTo(s, x), OnlyChild(At(s, x)))
    ensures Shaped(m', s') && Unique(s') && Labels(s') == Labels(s) - {x} && Size(s') + 1 == Size(s)
    ensures RootLabel(s') == if root == Some(x) then RootLabel(OnlyChild(At(s, x))) else root
  {
    var n := m[x];
    var q := PathTo(s, x);
    var ct := OnlyChild(At(s, x));
    LabelsIn(m, s);
    if q != [] {
      var y := n.parent.value;
      assert m'[y] == WithLink(m[y], q[|q| - 1], RootLabel(ct));
    }
    SpliceOut(m, m', s, q, x, ct);
  }

  /** Deleting a node with at most one child leaves a coherent tree that has lost exactly that node. */
  lemma SpliceValid<T>(m: map<nat, NodeData<T>>, m': map<nat, NodeData<T>>, s: Tree<nat>, root: Option<nat>,
                       size: nat, nextId: nat, x: nat, s': Tree<nat>, top: Option<nat>)
    requires SpliceReady(m, s, root, size, nextId, x) && Spliced(m, m', x, root == Some(x))
    requires s' == ReplaceAt(s, PathTo(s, x), OnlyChild(At(s, x)))
    requires top == if root == Some(x) then (if m[x].left.Some? then m[x].left else m[x].right) else root
    ensures Coherent(m', s', top, size - 1, nextId) && Labels(s') == Labels(s) - {x} && Size(s') + 1 == Size(s)
  {
    var n := m[x];
    SpliceShape(m, m', s, root, size, nextId, x, s');
    LabelsIn(m, s);
    OrphansOf(m, s);
    SpliceFrame(m, m', x, if n.left.Some? then n.left else n.right, n.parent, Labels(s));
    OrphansFrom(m', s');
    if root == Some(x) {
      assert top.Some? ==> m'[top.value].parent == None;
    } else {
      assert m'[root.value].parent == m[root.value].parent;
    }
  }

  /** Deleting a node keeps the keys and the elements, changes no deleted node, and marks x deleted. */
  lemma SpliceKeeps<T>(m: map<nat, NodeData<T>>, m': map<nat, NodeData<T>>, s: Tree<nat>, root: Option<nat>,
                       size: nat, nextId: nat, x: nat)
    requires SpliceReady(m, s, root, size, nextId, x) && Spliced(m, m', x, root == Some(x))
    ensures (forall k :: k in m' <==> k in m) && x in m' && m'[x] == m[x].(parent := Some(x)) &&
            (forall k | k in m :: m'[k].element == m[k].element) &&
            (forall k | k in m && k !in Labels(s) :: m'[k] == m[k])
  {
    var n := m[x];
    OrphansOf(m, s);
    SpliceFrame(m, m', x, if n.left.Some? then n.left else n.right, n.parent, Labels(s));
  }

  // ---------------------------------------------------------------------------
  // Attaching two trees below a leaf
  // ---------------------------------------------------------------------------

  /** An id moved up by o. */
  function ShiftId(id: Option<nat>, o: nat): Option<nat> {
    if id.Some? then Some(id.value + o) else None
  }

  /** A node record whose links are moved up by o. */
  function ShiftNode<T>(n: NodeData<T>, o: nat): NodeData<T> {
    NodeData(n.element, ShiftId(n.parent, o), ShiftId(n.left, o), ShiftId(n.right, o))
  }

  /** The nodes of m with ids below n renumbered from id k to id k + o, links included. */
  function ShiftNodes<T>(m: map<nat, NodeData<T>>, o: nat, n: nat): map<nat, NodeData<T>> {
    map k: nat | o <= k < o + n && Unshift(k, o) in m :: ShiftNode(m[Unshift(k, o)], o)
  }

  /** The id that k was before moving up by o. */
  function Unshift(k: nat, o: nat): nat
    requires o <= k
  {
    k - o
  }

  lemma ShiftNodesAt<T>(m: map<nat, NodeData<T>>, o: nat, n: nat, k: nat)
    requires k in m && k < n
    ensures k + o in ShiftNodes(m, o, n) && ShiftNodes(m, o, n)[k + o] == ShiftNode(m[k], o)
  {
    assert (k + o) - o == k;
  }

  /** The tree of ids s with every id moved up by o: the same tree, renumbered. */
  function ShiftTree(s: Tree<nat>, o: nat): (r: Tree<nat>)
    ensures Size(r) == Size(s) && RootLabel(r) == ShiftId(RootLabel(s), o)
  {
    match s
    case Nil => Nil
    case Node(l, x, rt) => Node(ShiftTree(l, o), x + o, ShiftTree(rt, o))
  }

  lemma {:induction false} ShiftLabels(s: Tree<nat>, o: nat, k: nat)
    ensures k in Labels(ShiftTree(s, o)) <==> o <= k && k - o in Labels(s)
  {
    if s.Node? {
      ShiftLabels(s.left, o, k);
      ShiftLabels(s.right, o, k);
    }
  }

  lemma {:induction false} ShiftUnique(s: Tree<nat>, o: nat)
    requires Unique(s)
    ensures Unique(ShiftTree(s, o))
  {
    if s.Node? {
      ShiftUnique(s.left, o);
      ShiftUnique(s.right, o);
      forall k | k in Labels(ShiftTree(s.left, o)) ensures k !in Labels(ShiftTree(s.right, o)) {
        ShiftLabels(s.left, o, k);
        ShiftLabels(s.right, o, k);
      }
      ShiftLabels(s.left, o, s.value + o);
      ShiftLabels(s.right, o, s.value + o);
    }
  }

  /** Renumbering the nodes and the tree of ids alike keeps the tree shaped. */
  lemma {:induction false} ShiftShaped<T>(m: map<nat, NodeData<T>>, s: Tree<nat>, o: nat, n: nat)
    requires Shaped(m, s) && forall j | j in m :: j < n
    ensures Shaped(ShiftNodes(m, o, n), ShiftTree(s, o))
  {
    if s.Node? {
      ShiftShaped(m, s.left, o, n);
      ShiftShaped(m, s.right, o, n);
      ShiftNodesAt(m, o, n, s.value);
      if s.left.Node? {
        ShiftNodesAt(m, o, n, s.left.value);
      }
      if s.right.Node? {
        ShiftNodesAt(m, o, n, s.right.value);
      }
    }
  }

  /** This tree's nodes with the nodes of two others moved in: the first above o1, the second above o2. */
  function Merge<T>(m: map<nat, NodeData<T>>, m1: map<nat, NodeData<T>>, o1: nat,
                    m2: map<nat, NodeData<T>>, o2: nat, n2: nat): map<nat, NodeData<T>>
    requires o1 <= o2
  {
    m + ShiftNodes(m1, o1, o2 - o1) + ShiftNodes(m2, o2, n2)
  }

  /** The keys of the three maps stay apart: each id of the merge comes from exactly one of them. */
  lemma MergeAt<T>(m: map<nat, NodeData<T>>, m1: map<nat, NodeData<T>>, o1: nat,
                   m2: map<nat, NodeData<T>>, o2: nat, n2: nat, k: nat)
    requires (forall j | j in m :: j < o1) && (forall j | j in m1 :: j + o1 < o2) && o1 <= o2 && (forall j | j in m2 :: j < n2)
    ensures k < o1 ==> (k in Merge(m, m1, o1, m2, o2, n2) <==> k in m) &&
                       (k in m ==> Merge(m, m1, o1, m2, o2, n2)[k] == m[k])
    ensures o1 <= k < o2 ==> (k in Merge(m, m1, o1, m2, o2, n2) <==> k - o1 in m1) &&
                             (k - o1 in m1 ==> Merge(m, m1, o1, m2, o2, n2)[k] == ShiftNode(m1[k - o1], o1))
    ensures o2 <= k ==> (k in Merge(m, m1, o1, m2, o2, n2) <==> k - o2 in m2) &&
                        (k - o2 in m2 ==> Merge(m, m1, o1, m2, o2, n2)[k] == ShiftNode(m2[k - o2], o2))
  {
  }

  /** Hang the node c, when there is one, as child d of x: c names x as parent, x names c as child d. */
  function HangAt<T>(m: map<nat, NodeData<T>>, x: nat, d: Dir, c: Option<nat>): (r: map<nat, NodeData<T>>)
    requires x in m && (c.Some? ==> c.value in m)
    ensures r.Keys == m.Keys
  {
    if c.None? then m
    else
      var m' := m[c.value := m[c.value].(parent := Some(x))];
      m'[x := WithLink(m'[x], d, c)]
  }

  /** One key of HangAt: x gets the new link, c gets x as parent, every other node is as it was. */
  lemma HangAtAt<T>(m: map<nat, NodeData<T>>, x: nat, d: Dir, c: Option<nat>, k: nat)
    requires x in m && (c.Some? ==> c.value in m && c.value != x)
    ensures k in HangAt(m, x, d, c) <==> k in m
    ensures k in m ==> HangAt(m, x, d, c)[k] == (if c.None? then m[k]
                                                 else if k == x then WithLink(m[x], d, c)
                                                 else if c == Some(k) then m[k].(parent := Some(x))
                                                 else m[k])
  {
  }

  /** The merge holds x and the moved roots. */
  lemma MergeHas<T>(m: map<nat, NodeData<T>>, x: nat, m1: map<nat, NodeData<T>>, c1: Option<nat>, o1: nat,
                    m2: map<nat, NodeData<T>>, c2: Option<nat>, o2: nat, n2: nat)
    requires (forall j | j in m :: j < o1) && (forall j | j in m1 :: j + o1 < o2) && o1 <= o2 && (forall j | j in m2 :: j < n2)
    requires x in m && (c1.Some? ==> c1.value in m1) && (c2.Some? ==> c2.value in m2)
    ensures x in Merge(m, m1, o1, m2, o2, n2)
    ensures c1.Some? ==> c1.value + o1 in Merge(m, m1, o1, m2, o2, n2)
    ensures c2.Some? ==> c2.value + o2 in Merge(m, m1, o1, m2, o2, n2)
  {
    MergeAt(m, m1, o1, m2, o2, n2, x);
    if c1.Some? {
      MergeAt(m, m1, o1, m2, o2, n2, c1.value + o1);
    }
    if c2.Some? {
      MergeAt(m, m1, o1, m2, o2, n2, c2.value + o2);
    }
  }

  /** The map of nodes after attaching the trees of m1 and m2 below the leaf x of m. */
  function AttachMap<T>(m: map<nat, NodeData<T>>, x: nat, m1: map<nat, NodeData<T>>, c1: Option<nat>, o1: nat,
                        m2: map<nat, NodeData<T>>, c2: Option<nat>, o2: nat, n2: nat): map<nat, NodeData<T>>
    requires (forall j | j in m :: j < o1) && (forall j | j in m1 :: j + o1 < o2) && o1 <= o2 && (forall j | j in m2 :: j < n2)
    requires x in m && (c1.Some? ==> c1.value in m1) && (c2.Some? ==> c2.value in m2)
  {
    MergeHas(m, x, m1, c1, o1, m2, c2, o2, n2);
    var m0 := Merge(m, m1, o1, m2, o2, n2);
    HangAt(HangAt(m0, x, L, ShiftId(c1, o1)), x, R, ShiftId(c2, o2))
  }

  /** A node record of a moved tree: renumbered by o, and re-parented to x when it is the moved root. */
  function Moved<T>(n: NodeData<T>, o: nat, top: bool, x: nat): NodeData<T> {
    if top then ShiftNode(n, o).(parent := Some(x)) else ShiftNode(n, o)
  }

  /** Node k below o1 of the attached map r: kept from m, with x's new links. */
  ghost predicate KeptAt<T>(r: map<nat, NodeData<T>>, m: map<nat, NodeData<T>>, x: nat,
                            c1: Option<nat>, o1: nat, c2: Option<nat>, o2: nat, k: nat)
    requires x in m
  {
    (k in r <==> k in m) &&
    (k in m && k != x ==> r[k] == m[k]) &&
    (k == x ==> r[k] == m[x].(left := ShiftId(c1, o1), right := ShiftId(c2, o2)))
  }

  /** Node k at or above o of the attached map r: node k - o of m1 moved, when there is one. */
  ghost predicate MovedAt<T>(r: map<nat, NodeData<T>>, m1: map<nat, NodeData<T>>, c: Option<nat>, o: nat, x: nat, k: nat)
    requires o <= k
  {
    (k in r <==> k - o in m1) &&
    (k - o in m1 ==> r[k] == Moved(m1[k - o], o, c == Some(k - o), x))
  }

  /** Where node k of the attached map r comes from, and what it holds. */
  ghost predicate AttachKey<T>(r: map<nat, NodeData<T>>, m: map<nat, NodeData<T>>, x: nat,
                               m1: map<nat, NodeData<T>>, c1: Option<nat>, o1: nat,
                               m2: map<nat, NodeData<T>>, c2: Option<nat>, o2: nat, k: nat)
    requires x in m
  {
    (k < o1 ==> KeptAt(r, m, x, c1, o1, c2, o2, k)) &&
    (o1 <= k < o2 ==> MovedAt(r, m1, c1, o1, x, k)) &&
    (o2 <= k ==> MovedAt(r, m2, c2, o2, x, k))
  }

  /** The attached map r, key by key. */
  ghost predicate Attached<T>(r: map<nat, NodeData<T>>, m: map<nat, NodeData<T>>, x: nat,
                              m1: map<nat, NodeData<T>>, c1: Option<nat>, o1: nat,
                              m2: map<nat, NodeData<T>>, c2: Option<nat>, o2: nat)
    requires x in m
  {
    forall k: nat :: AttachKey(r, m, x, m1, c1, o1, m2, c2, o2, k)
  }

  /** A node of the attached map below o1: kept from m, or the leaf x with its new links. */
  lemma AttachMapKept<T>(m: map<nat, NodeData<T>>, x: nat, m1: map<nat, NodeData<T>>, c1: Option<nat>, o1: nat,
                       m2: map<nat, NodeData<T>>, c2: Option<nat>, o2: nat, n2: nat, k: nat)
    requires (forall j | j in m :: j < o1) && (forall j | j in m1 :: j + o1 < o2) && o1 <= o2 && (forall j | j in m2 :: j < n2)
    requires x in m && (c1.Some? ==> c1.value in m1) && (c2.Some? ==> c2.value in m2)
    requires m[x].left.None? && m[x].right.None?
    requires k < o1
    ensures KeptAt(AttachMap(m, x, m1, c1, o1, m2, c2, o2, n2), m, x, c1, o1, c2, o2, k)
  {
    MergeHas(m, x, m1, c1, o1, m2, c2, o2, n2);
    var m0 := Merge(m, m1, o1, m2, o2, n2);
    MergeAt(m, m1, o1, m2, o2, n2, k);
    HangAtAt(m0, x, L, ShiftId(c1, o1), k);
    HangAtAt(HangAt(m0, x, L, ShiftId(c1, o1)), x, R, ShiftId(c2, o2), k);
  }

  /** A node of the attached map from o1 on: moved from m1 or m2, its root now below x. */
  lemma AttachMapMovedAt<T>(m: map<nat, NodeData<T>>, x: nat, m1: map<nat, NodeData<T>>, c1: Option<nat>, o1: nat,
                       m2: map<nat, NodeData<T>>, c2: Option<nat>, o2: nat, n2: nat, k: nat)
    requires (forall j | j in m :: j < o1) && (forall j | j in m1 :: j + o1 < o2) && o1 <= o2 && (forall j | j in m2 :: j < n2)
    requires x in m && (c1.Some? ==> c1.value in m1) && (c2.Some? ==> c2.value in m2)
    requires m[x].left.None? && m[x].right.None?
    requires o1 <= k
    ensures k < o2 ==> MovedAt(AttachMap(m, x, m1, c1, o1, m2, c2, o2, n2), m1, c1, o1, x, k)
    ensures o2 <= k ==> MovedAt(AttachMap(m, x, m1, c1, o1, m2, c2, o2, n2), m2, c2, o2, x, k)
  {
    MergeHas(m, x, m1, c1, o1, m2, c2, o2, n2);
    var m0 := Merge(m, m1, o1, m2, o2, n2);
    MergeAt(m, m1, o1, m2, o2, n2, k);
    HangAtAt(m0, x, L, ShiftId(c1, o1), k);
    HangAtAt(HangAt(m0, x, L, ShiftId(c1, o1)), x, R, ShiftId(c2, o2), k);
  }

  /** Each node of the attached map: kept from m, the leaf x with its new links, or moved from m1 or m2. */
  lemma AttachMapAt<T>(m: map<nat, NodeData<T>>, x: nat, m1: map<nat, NodeData<T>>, c1: Option<nat>, o1: nat,
                       m2: map<nat, NodeData<T>>, c2: Option<nat>, o2: nat, n2: nat, k: nat)
    requires (forall j | j in m :: j < o1) && (forall j | j in m1 :: j + o1 < o2) && o1 <= o2 && (forall j | j in m2 :: j < n2)
    requires x in m && (c1.Some? ==> c1.value in m1) && (c2.Some? ==> c2.value in m2)
    requires m[x].left.None? && m[x].right.None?
    ensures AttachKey(AttachMap(m, x, m1, c1, o1, m2, c2, o2, n2), m, x, m1, c1, o1, m2, c2, o2, k)
  {
    if k < o1 {
      AttachMapKept(m, x, m1, c1, o1, m2, c2, o2, n2, k);
    } else {
      AttachMapMovedAt(m, x, m1, c1, o1, m2, c2, o2, n2, k);
    }
  }

  /** Every node j of m1 sits at j + o in r, holding its moved record; c is the moved root. */
  ghost predicate MovedIn<T>(r: map<nat, NodeData<T>>, m1: map<nat, NodeData<T>>, o: nat, c: Option<nat>, x: nat) {
    forall j | j in m1 :: j + o in r && r[j + o] == Moved(m1[j], o, c == Some(j), x)
  }

  /** What the attached map r holds: this tree's nodes, the leaf x with its new links, and the two moved trees. */
  ghost predicate AttachedMap<T>(r: map<nat, NodeData<T>>, m: map<nat, NodeData<T>>, x: nat,
                                 m1: map<nat, NodeData<T>>, c1: Option<nat>, o1: nat,
                                 m2: map<nat, NodeData<T>>, c2: Option<nat>, o2: nat)
    requires x in m
  {
    (forall k | k in m :: k in r && (k != x ==> r[k] == m[k])) &&
    x in r && r[x] == m[x].(left := ShiftId(c1, o1), right := ShiftId(c2, o2)) &&
    MovedIn(r, m1, o1, c1, x) && MovedIn(r, m2, o2, c2, x)
  }

  /** Every node of r comes from m, from m1 moved by o1, or from m2 moved by o2. */
  ghost predicate FromParts<T>(r: map<nat, NodeData<T>>, m: map<nat, NodeData<T>>,
                               m1: map<nat, NodeData<T>>, o1: nat, m2: map<nat, NodeData<T>>, o2: nat) {
    forall k | k in r :: k in m || (o1 <= k && k - o1 in m1) || (o2 <= k && k - o2 in m2)
  }

  lemma AttachMapKeeps<T>(r: map<nat, NodeData<T>>, m: map<nat, NodeData<T>>, x: nat,
                          m1: map<nat, NodeData<T>>, c1: Option<nat>, o1: nat, m2: map<nat, NodeData<T>>, c2: Option<nat>, o2: nat)
    requires x in m && (forall j | j in m :: j < o1)
    requires Attached(r, m, x, m1, c1, o1, m2, c2, o2)
    ensures (forall k | k in m :: k in r && (k != x ==> r[k] == m[k])) &&
            x in r && r[x] == m[x].(left := ShiftId(c1, o1), right := ShiftId(c2, o2))
  {
    forall k | k in m ensures k in r && (k != x ==> r[k] == m[k]) {
      assert AttachKey(r, m, x, m1, c1, o1, m2, c2, o2, k);
    }
    assert AttachKey(r, m, x, m1, c1, o1, m2, c2, o2, x);
  }

  lemma AttachMapMoves<T>(r: map<nat, NodeData<T>>, m: map<nat, NodeData<T>>, x: nat,
                          m1: map<nat, NodeData<T>>, c1: Option<nat>, o1: nat, m2: map<nat, NodeData<T>>, c2: Option<nat>, o2: nat)
    requires x in m && (forall j | j in m1 :: j + o1 < o2)
    requires Attached(r, m, x, m1, c1, o1, m2, c2, o2)
    ensures MovedIn(r, m1, o1, c1, x) && MovedIn(r, m2, o2, c2, x)
  {
    forall j | j in m1 ensures j + o1 in r && r[j + o1] == Moved(m1[j], o1, c1 == Some(j), x) {
      assert AttachKey(r, m, x, m1, c1, o1, m2, c2, o2, j + o1);
    }
    forall j | j in m2 ensures j + o2 in r && r[j + o2] == Moved(m2[j], o2, c2 == Some(j), x) {
      assert AttachKey(r, m, x, m1, c1, o1, m2, c2, o2, j + o2);
    }
  }

  lemma AttachMapFrom<T>(r: map<nat, NodeData<T>>, m: map<nat, NodeData<T>>, x: nat,
                         m1: map<nat, NodeData<T>>, c1: Option<nat>, o1: nat,
                         m2: map<nat, NodeData<T>>, c2: Option<nat>, o2: nat)
    requires x in m && (forall j | j in m :: j < o1) && o1 <= o2
    requires Attached(r, m, x, m1, c1, o1, m2, c2, o2)
    ensures FromParts(r, m, m1, o1, m2, o2)
  {
    forall k | k in r ensures k in m || (o1 <= k && k - o1 in m1) || (o2 <= k && k - o2 in m2) {
      assert AttachKey(r, m, x, m1, c1, o1, m2, c2, o2, k);
    }
  }

  lemma AttachMapBelow<T>(r: map<nat, NodeData<T>>, m: map<nat, NodeData<T>>, x: nat,
                          m1: map<nat, NodeData<T>>, c1: Option<nat>, o1: nat,
                          m2: map<nat, NodeData<T>>, c2: Option<nat>, o2: nat, n2: nat)
    requires x in m && (forall j | j in m :: j < o1) && o1 <= o2 && (forall j | j in m2 :: j < n2)
    requires Attached(r, m, x, m1, c1, o1, m2, c2, o2)
    ensures forall k | k in r :: k < o2 + n2
  {
    forall k | k in r ensures k < o2 + n2 {
      assert AttachKey(r, m, x, m1, c1, o1, m2, c2, o2, k);
    }
  }

  /**
   * The attached map holds this tree's nodes with x's new links and the two
   * moved trees, and nothing else; its ids stay below o2 + n2.
   */
  lemma AttachMapParts<T>(m: map<nat, NodeData<T>>, x: nat, m1: map<nat, NodeData<T>>, c1: Option<nat>, o1: nat,
                          m2: map<nat, NodeData<T>>, c2: Option<nat>, o2: nat, n2: nat)
    requires (forall j | j in m :: j < o1) && (forall j | j in m1 :: j + o1 < o2) && o1 <= o2 && (forall j | j in m2 :: j < n2)
    requires x in m && (c1.Some? ==> c1.value in m1) && (c2.Some? ==> c2.value in m2)
    requires m[x].left.None? && m[x].right.None?
    ensures Attached(AttachMap(m, x, m1, c1, o1, m2, c2, o2, n2), m, x, m1, c1, o1, m2, c2, o2)
    ensures forall k | k in AttachMap(m, x, m1, c1, o1, m2, c2, o2, n2) :: k < o2 + n2
  {
    var r := AttachMap(m, x, m1, c1, o1, m2, c2, o2, n2);
    forall k: nat ensures AttachKey(r, m, x, m1, c1, o1, m2, c2, o2, k) {
      AttachMapAt(m, x, m1, c1, o1, m2, c2, o2, n2, k);
    }
    AttachMapBelow(r, m, x, m1, c1, o1, m2, c2, o2, n2);
  }

  /** A moved tree keeps its shape: its links are renumbered alike, and only its root's parent changes. */
  lemma {:induction false} MovedShaped<T>(r: map<nat, NodeData<T>>, m1: map<nat, NodeData<T>>, s: Tree<nat>, o: nat,
                                          c: Option<nat>, x: nat)
    requires Shaped(m1, s) && Unique(s) && MovedIn(r, m1, o, c, x)
    requires c.None? || c == RootLabel(s) || c.value !in Labels(s)
    ensures Shaped(r, ShiftTree(s, o))
  {
    if s.Node? {
      MovedShaped(r, m1, s.left, o, c, x);
      MovedShaped(r, m1, s.right, o, c, x);
      assert r[s.value + o] == Moved(m1[s.value], o, c == Some(s.value), x);
      if s.left.Node? {
        assert r[s.left.value + o] == Moved(m1[s.left.value], o, c == Some(s.left.value), x);
      }
      if s.right.Node? {
        assert r[s.right.value + o] == Moved(m1[s.right.value], o, c == Some(s.right.value), x);
      }
    }
  }

  /** The tree of ids after attaching: the leaf x gets s1 and s2, renumbered, as its subtrees. */
  ghost function AttachShape(s: Tree<nat>, x: nat, s1: Tree<nat>, o1: nat, s2: Tree<nat>, o2: nat): Tree<nat>
    requires x in Labels(s)
  {
    if s.value == x then Node(ShiftTree(s1, o1), x, ShiftTree(s2, o2))
    else if x in Labels(s.left) then Node(AttachShape(s.left, x, s1, o1, s2, o2), s.value, s.right)
    else Node(s.left, s.value, AttachShape(s.right, x, s1, o1, s2, o2))
  }

  /** Attaching puts the new subtree in place of the node at the path to x. */
  lemma {:induction false} AttachShapeReplaces(s: Tree<nat>, x: nat, s1: Tree<nat>, o1: nat, s2: Tree<nat>, o2: nat)
    requires x in Labels(s)
    ensures AttachShape(s, x, s1, o1, s2, o2) == ReplaceAt(s, PathTo(s, x), Node(ShiftTree(s1, o1), x, ShiftTree(s2, o2)))
  {
    if s.value != x {
      if x in Labels(s.left) {
        AttachShapeReplaces(s.left, x, s1, o1, s2, o2);
        assert ([L] + PathTo(s.left, x))[1..] == PathTo(s.left, x);
      } else {
        AttachShapeReplaces(s.right, x, s1, o1, s2, o2);
        assert ([R] + PathTo(s.right, x))[1..] == PathTo(s.right, x);
      }
    }
  }

  /** The parent y of the node at q receives u there when only that node's record changes, keeping its parent. */
  lemma LeafGraftPoint<T>(m: map<nat, NodeData<T>>, r: map<nat, NodeData<T>>, s: Tree<nat>, q: Path, u: Tree<nat>)
    requires Shaped(m, s) && ValidPath(s, q) && q != [] && ValidPath(s, q[..|q| - 1])
    requires u.Node? && u.value == Subtree(s, q).value && Subtree(s, q[..|q| - 1]).value != u.value
    requires forall k | k in m :: k in r && r[k].parent == m[k].parent && (k != u.value ==> r[k] == m[k])
    ensures GraftPoint(m, r, Subtree(s, q[..|q| - 1]).value, q[|q| - 1], u)
  {
    ParentValid(s, q);
    ShapedLinks(m, s, q);
    ShapedLinks(m, s, q[..|q| - 1]);
  }

  /** Outside a leaf x every node of s keeps its record. */
  lemma LeafFrame<T>(m: map<nat, NodeData<T>>, r: map<nat, NodeData<T>>, s: Tree<nat>, q: Path, x: nat, y: nat)
    requires Labels(s) <= m.Keys && Labels(Subtree(s, q)) == {x}
    requires forall k | k in m :: k in r && r[k].parent == m[k].parent && (k != x ==> r[k] == m[k])
    ensures FrameOutside(m, r, s, q, y)
  {
  }

  /**
   * Replacing the leaf x by a shaped tree u rooted at x keeps the tree shaped
   * when every other node keeps its record and x keeps its parent.
   */
  lemma GraftAtLeaf<T>(m: map<nat, NodeData<T>>, r: map<nat, NodeData<T>>, s: Tree<nat>, x: nat, u: Tree<nat>)
    requires Shaped(m, s) && Unique(s) && x in Labels(s) && IsLeaf(At(s, x))
    requires Shaped(r, u) && u.Node? && u.value == x
    requires forall k | k in m :: k in r && r[k].parent == m[k].parent && (k != x ==> r[k] == m[k])
    ensures Shaped(r, ReplaceAt(s, PathTo(s, x), u))
  {
    var q := PathTo(s, x);
    if q == [] {
      assert ReplaceAt(s, q, u) == u;
    } else {
      LabelsIn(m, s);
      assert Labels(Subtree(s, q)) == {x};
      GraftBelowParent(m, r, s, q, u);
    }
  }

  /** GraftAtLeaf below the root: the leaf's parent takes u in the leaf's place. */
  lemma GraftBelowParent<T>(m: map<nat, NodeData<T>>, r: map<nat, NodeData<T>>, s: Tree<nat>, q: Path, u: Tree<nat>)
    requires Shaped(m, s) && Unique(s) && ValidPath(s, q) && q != [] && Labels(s) <= m.Keys
    requires Shaped(r, u) && u.Node? && u.value == Subtree(s, q).value && Labels(Subtree(s, q)) == {u.value}
    requires forall k | k in m :: k in r && r[k].parent == m[k].parent && (k != u.value ==> r[k] == m[k])
    ensures Shaped(r, ReplaceAt(s, q, u))
  {
    var pp, d := q[..|q| - 1], q[|q| - 1];
    assert q == pp + [d];
    ParentValid(s, q);
    PathToUnique(s, pp);
    PathToUnique(s, q);
    var y := Subtree(s, pp).value;
    LeafGraftPoint(m, r, s, q, u);
    LeafFrame(m, r, s, q, u.value, y);
    ShapedGraft(m, r, s, pp, d, u);
  }

  /** Two trees renumbered into disjoint ranges above x, hung below x, keep their labels apart. */
  lemma ShiftedApart(s1: Tree<nat>, n1: nat, s2: Tree<nat>, x: nat, o1: nat)
    requires Unique(s1) && Unique(s2) && x < o1
    requires forall k | k in Labels(s1) :: k < n1
    ensures var u := Node(ShiftTree(s1, o1), x, ShiftTree(s2, o1 + n1));
            Unique(u) && Size(u) == 1 + Size(s1) + Size(s2) &&
            forall k | k in Labels(u) && k != x :: o1 <= k
  {
    var u1, u2 := ShiftTree(s1, o1), ShiftTree(s2, o1 + n1);
    ShiftUnique(s1, o1);
    ShiftUnique(s2, o1 + n1);
    forall k | k in Labels(u1) ensures o1 <= k < o1 + n1 {
      ShiftLabels(s1, o1, k);
    }
    forall k | k in Labels(u2) ensures o1 + n1 <= k {
      ShiftLabels(s2, o1 + n1, k);
    }
    forall k | k in Labels(Node(u1, x, u2)) && k != x ensures o1 <= k {
      assert k in Labels(u1) || k in Labels(u2);
    }
  }

  /** The attached subtree: x with the two moved trees below it is shaped in the attached map. */
  lemma AttachedShaped<T>(r: map<nat, NodeData<T>>, m: map<nat, NodeData<T>>, x: nat, o1: nat,
                          m1: map<nat, NodeData<T>>, s1: Tree<nat>, root1: Option<nat>, next1: nat,
                          m2: map<nat, NodeData<T>>, s2: Tree<nat>, root2: Option<nat>)
    requires Shaped(m1, s1) && Unique(s1) && root1 == RootLabel(s1)
    requires Shaped(m2, s2) && Unique(s2) && root2 == RootLabel(s2)
    requires x in m && AttachedMap(r, m, x, m1, root1, o1, m2, root2, o1 + next1)
    ensures Shaped(r, Node(ShiftTree(s1, o1), x, ShiftTree(s2, o1 + next1)))
  {
    var o2 := o1 + next1;
    LabelsIn(m1, s1);
    LabelsIn(m2, s2);
    var u1, u2 := ShiftTree(s1, o1), ShiftTree(s2, o2);
    MovedShaped(r, m1, s1, o1, root1, x);
    MovedShaped(r, m2, s2, o2, root2, x);
    if u1.Node? {
      assert r[u1.value] == Moved(m1[s1.value], o1, true, x);
    }
    if u2.Node? {
      assert r[u2.value] == Moved(m2[s2.value], o2, true, x);
    }
  }

  /** Putting u in place of the leaf x: labels unique, all of them kept, one node fewer counted, the same root. */
  lemma GraftLabels(s: Tree<nat>, x: nat, u: Tree<nat>)
    requires Unique(s) && x in Labels(s) && IsLeaf(At(s, x))
    requires Unique(u) && u.Node? && u.value == x && Labels(u) !! (Labels(s) - {x})
    ensures var s' := ReplaceAt(s, PathTo(s, x), u);
            Unique(s') && Labels(s') == Labels(s) + Labels(u) &&
            Size(s') == Size(s) + Size(u) - 1 && RootLabel(s') == RootLabel(s)
  {
    var q := PathTo(s, x);
    ValidPathReaches(s, q);
    assert Labels(Subtree(s, q)) == {x};
    ReplaceAtEffect(s, q, u);
    assert (Labels(s) - {x}) + Labels(u) == Labels(s) + Labels(u);
    if q != [] {
      ReplaceAtRoot(s, q, u);
    }
  }

  /** Grafting the attached subtree at the leaf x: shaped, with unique labels, all of them kept. */
  lemma AttachGraft<T>(r: map<nat, NodeData<T>>, m: map<nat, NodeData<T>>, s: Tree<nat>, x: nat, u: Tree<nat>)
    requires Shaped(m, s) && Unique(s) && x in Labels(s) && IsLeaf(At(s, x)) && Labels(s) <= m.Keys
    requires Shaped(r, u) && Unique(u) && u.Node? && u.value == x
    requires forall k | k in Labels(u) && k != x :: k !in m
    requires forall k | k in m :: k in r && r[k].parent == m[k].parent && (k != x ==> r[k] == m[k])
    ensures var s' := ReplaceAt(s, PathTo(s, x), u);
            Shaped(r, s') && Unique(s') && Labels(s') == Labels(s) + Labels(u) &&
            Size(s') == Size(s) + Size(u) - 1 && RootLabel(s') == RootLabel(s)
  {
    GraftAtLeaf(m, r, s, x, u);
    assert Labels(u) !! (Labels(s) - {x});
    GraftLabels(s, x, u);
  }

  /** A deleted node of a moved tree stays deleted: its moved record still names itself as parent. */
  lemma MovedDeleted<T>(r: map<nat, NodeData<T>>, m1: map<nat, NodeData<T>>, s1: Tree<nat>, o: nat,
                        c: Option<nat>, x: nat, k: nat)
    requires MovedIn(r, m1, o, c, x) && c == RootLabel(s1)
    requires forall j | j in m1 && j !in Labels(s1) :: m1[j].parent == Some(j)
    requires o <= k && k - o in m1 && k !in Labels(ShiftTree(s1, o))
    ensures k in r && r[k].parent == Some(k)
  {
    var j := k - o;
    ShiftLabels(s1, o, k);
    assert j !in Labels(s1);
    assert r[j + o] == Moved(m1[j], o, c == Some(j), x);
  }

  /** After attaching, a node outside the three trees is one deleted before from one of them. */
  lemma AttachDeleted<T>(r: map<nat, NodeData<T>>, m: map<nat, NodeData<T>>, s: Tree<nat>, x: nat,
                         m1: map<nat, NodeData<T>>, s1: Tree<nat>, root1: Option<nat>, o1: nat,
                         m2: map<nat, NodeData<T>>, s2: Tree<nat>, root2: Option<nat>, o2: nat, k: nat)
    requires forall j | j in m :: j in r && (j != x ==> r[j] == m[j])
    requires MovedIn(r, m1, o1, root1, x) && MovedIn(r, m2, o2, root2, x)
    requires forall j | j in m && j !in Labels(s) :: m[j].parent == Some(j)
    requires forall j | j in m1 && j !in Labels(s1) :: m1[j].parent == Some(j)
    requires forall j | j in m2 && j !in Labels(s2) :: m2[j].parent == Some(j)
    requires root1 == RootLabel(s1) && root2 == RootLabel(s2) && x in Labels(s)
    requires k in m || (o1 <= k && k - o1 in m1) || (o2 <= k && k - o2 in m2)
    requires k !in Labels(s) && k !in Labels(ShiftTree(s1, o1)) && k !in Labels(ShiftTree(s2, o2))
    ensures k in r && r[k].parent == Some(k)
  {
    if k in m {
      assert k != x;
    } else if o1 <= k && k - o1 in m1 {
      MovedDeleted(r, m1, s1, o1, root1, x, k);
    } else {
      MovedDeleted(r, m2, s2, o2, root2, x, k);
    }
  }

  /**
   * The attached map is coherent with the attached tree s' once s' is shaped
   * in it: every node outside s' is a deleted one.
   */
  lemma AttachOrphans<T>(r: map<nat, NodeData<T>>, m: map<nat, NodeData<T>>, s: Tree<nat>, x: nat,
                         m1: map<nat, NodeData<T>>, s1: Tree<nat>, root1: Option<nat>, o1: nat,
                         m2: map<nat, NodeData<T>>, s2: Tree<nat>, root2: Option<nat>, o2: nat,
                         s': Tree<nat>, root: Option<nat>, size: nat, next: nat)
    requires Shaped(r, s') && Unique(s') && root == RootLabel(s') && size == Size(s')
    requires (root.Some? ==> root.value in r && r[root.value].parent == None) && (forall k | k in r :: k < next)
    requires x in m && (forall j | j in m :: j < o1) && (forall j | j in m1 :: j + o1 < o2) && o1 <= o2
    requires Attached(r, m, x, m1, root1, o1, m2, root2, o2)
    requires (forall k :: Orphaned(m, s, k)) && (forall k :: Orphaned(m1, s1, k)) && (forall k :: Orphaned(m2, s2, k))
    requires root1 == RootLabel(s1) && root2 == RootLabel(s2) && x in Labels(s)
    requires Labels(s') == Labels(s) + Labels(ShiftTree(s1, o1)) + Labels(ShiftTree(s2, o2))
    ensures Coherent(r, s', root, size, next)
  {
    OrphansOf(m, s);
    OrphansOf(m1, s1);
    OrphansOf(m2, s2);
    AttachMapKeeps(r, m, x, m1, root1, o1, m2, root2, o2);
    AttachMapMoves(r, m, x, m1, root1, o1, m2, root2, o2);
    AttachMapFrom(r, m, x, m1, root1, o1, m2, root2, o2);
    forall k | k in r && k !in Labels(s') ensures r[k].parent == Some(k) {
      AttachDeleted(r, m, s, x, m1, s1, root1, o1, m2, s2, root2, o2, k);
    }
    OrphansFrom(r, s');
  }

  /** Adding x to a set that already holds it changes nothing. */
  lemma AbsorbLabel(a: set<nat>, x: nat, b: set<nat>, c: set<nat>)
    requires x in a
    ensures a + (b + {x} + c) == a + b + c
  {
  }

  /**
   * The attached tree of ids: shaped in the attached map, labels unique, the
   * same root, and exactly the nodes of the three trees.
   */
  lemma AttachShaped<T>(r: map<nat, NodeData<T>>, m: map<nat, NodeData<T>>, s: Tree<nat>, x: nat,
                        m1: map<nat, NodeData<T>>, s1: Tree<nat>, root1: Option<nat>, o1: nat, n1: nat,
                        m2: map<nat, NodeData<T>>, s2: Tree<nat>, root2: Option<nat>)
    requires Shaped(m, s) && Unique(s) && x in Labels(s) && x in m && m[x].left.None? && m[x].right.None?
    requires forall j | j in m :: j < o1
    requires Shaped(m1, s1) && Unique(s1) && root1 == RootLabel(s1) && (forall j | j in m1 :: j < n1)
    requires Shaped(m2, s2) && Unique(s2) && root2 == RootLabel(s2)
    requires Attached(r, m, x, m1, root1, o1, m2, root2, o1 + n1)
    ensures var s' := AttachShape(s, x, s1, o1, s2, o1 + n1);
            Shaped(r, s') && Unique(s') && RootLabel(s') == RootLabel(s) &&
            Size(s') == Size(s) + Size(s1) + Size(s2) &&
            Labels(s') == Labels(s) + Labels(ShiftTree(s1, o1)) + Labels(ShiftTree(s2, o1 + n1))
  {
    var o2 := o1 + n1;
    AttachShapeReplaces(s, x, s1, o1, s2, o2);
    AttachMapKeeps(r, m, x, m1, root1, o1, m2, root2, o2);
    AttachMapMoves(r, m, x, m1, root1, o1, m2, root2, o2);
    LabelsIn(m, s);
    LabelsIn(m1, s1);
    ShapedLinks(m, s, PathTo(s, x));
    assert IsLeaf(At(s, x));
    var u := Node(ShiftTree(s1, o1), x, ShiftTree(s2, o2));
    AttachedShaped(r, m, x, o1, m1, s1, root1, n1, m2, s2, root2);
    ShiftedApart(s1, n1, s2, x, o1);
    AttachGraft(r, m, s, x, u);
    AbsorbLabel(Labels(s), x, Labels(ShiftTree(s1, o1)), Labels(ShiftTree(s2, o2)));
  }

  /**
   * Attaching two coherent trees below a leaf x of a coherent tree, their ids
   * moved above this tree's, gives a coherent tree of all their nodes.
   */
  lemma AttachCoherent<T>(r: map<nat, NodeData<T>>,
                          m: map<nat, NodeData<T>>, s: Tree<nat>, root: Option<nat>, size: nat, nextId: nat,
                          m1: map<nat, NodeData<T>>, s1: Tree<nat>, root1: Option<nat>, size1: nat, next1: nat,
                          m2: map<nat, NodeData<T>>, s2: Tree<nat>, root2: Option<nat>, size2: nat, next2: nat, x: nat)
    requires Coherent(m, s, root, size, nextId) && Coherent(m1, s1, root1, size1, next1)
    requires Coherent(m2, s2, root2, size2, next2)
    requires x in Labels(s) && x in m && m[x].left.None? && m[x].right.None?
    requires Attached(r, m, x, m1, root1, nextId, m2, root2, nextId + next1)
    requires forall k | k in r :: k < nextId + next1 + next2
    ensures Coherent(r, AttachShape(s, x, s1, nextId, s2, nextId + next1), root, size + size1 + size2, nextId + next1 + next2)
  {
    var s' := AttachShape(s, x, s1, nextId, s2, nextId + next1);
    AttachShaped(r, m, s, x, m1, s1, root1, nextId, next1, m2, s2, root2);
    if root.Some? {
      assert AttachKey(r, m, x, m1, root1, nextId, m2, root2, nextId + next1, root.value);
    }
    AttachOrphans(r, m, s, x, m1, s1, root1, nextId, m2, s2, root2, nextId + next1,
                  s', root, size + size1 + size2, nextId + next1 + next2);
  }

  /** The attached tree holds exactly the nodes of the three trees, the moved ones under their new ids. */
  lemma AttachLabels<T>(r: map<nat, NodeData<T>>,
                        m: map<nat, NodeData<T>>, s: Tree<nat>, root: Option<nat>, size: nat, nextId: nat,
                        m1: map<nat, NodeData<T>>, s1: Tree<nat>, root1: Option<nat>, size1: nat, next1: nat,
                        m2: map<nat, NodeData<T>>, s2: Tree<nat>, root2: Option<nat>, size2: nat, next2: nat, x: nat)
    requires Coherent(m, s, root, size, nextId) && Coherent(m1, s1, root1, size1, next1)
    requires Coherent(m2, s2, root2, size2, next2)
    requires x in Labels(s) && x in m && m[x].left.None? && m[x].right.None?
    requires Attached(r, m, x, m1, root1, nextId, m2, root2, nextId + next1)
    ensures Labels(AttachShape(s, x, s1, nextId, s2, nextId + next1))
            == Labels(s) + Labels(ShiftTree(s1, nextId)) + Labels(ShiftTree(s2, nextId + next1))
  {
    AttachShaped(r, m, s, x, m1, s1, root1, nextId, next1, m2, s2, root2);
  }

  /**
   * The node map after attaching, computed as AttachMap: this tree's nodes
   * with x's new links and the two moved trees, key by key, and nothing else.
   */
  method AttachNodes<T>(m: map<nat, NodeData<T>>, x: nat, m1: map<nat, NodeData<T>>, c1: Option<nat>, o1: nat,
                        m2: map<nat, NodeData<T>>, c2: Option<nat>, o2: nat, n2: nat) returns (r: map<nat, NodeData<T>>)
    requires (forall j | j in m :: j < o1) && (forall j | j in m1 :: j + o1 < o2) && o1 <= o2 && (forall j | j in m2 :: j < n2)
    requires x in m && (c1.Some? ==> c1.value in m1) && (c2.Some? ==> c2.value in m2)
    requires m[x].left.None? && m[x].right.None?
    ensures Attached(r, m, x, m1, c1, o1, m2, c2, o2)
    ensures forall k | k in r :: k < o2 + n2
  {
    AttachMapParts(m, x, m1, c1, o1, m2, c2, o2, n2);
    r := AttachMap(m, x, m1, c1, o1, m2, c2, o2, n2);
  }

  /** Every element survives the attach: kept ones in place, moved ones at their shifted ids. */
  lemma AttachElements<T>(r: map<nat, NodeData<T>>, m: map<nat, NodeData<T>>, x: nat,
                          m1: map<nat, NodeData<T>>, c1: Option<nat>, o1: nat, m2: map<nat, NodeData<T>>, c2: Option<nat>, o2: nat)
    requires x in m && (forall j | j in m :: j < o1) && (forall j | j in m1 :: j + o1 < o2)
    requires Attached(r, m, x, m1, c1, o1, m2, c2, o2)
    ensures forall k | k in m :: k in r && r[k].element == m[k].element
    ensures forall k | k in m1 :: k + o1 in r && r[k + o1].element == m1[k].element
    ensures forall k | k in m2 :: k + o2 in r && r[k + o2].element == m2[k].element
  {
    AttachMapKeeps(r, m, x, m1, c1, o1, m2, c2, o2);
    AttachMapMoves(r, m, x, m1, c1, o1, m2, c2, o2);
  }

  class LinkedBinaryTree<T> {
    var nodes: map<nat, NodeData<T>>
    var root: Option<nat>
    var size: nat
    var nextId: nat
    /** The tree of node ids the links describe. */
    ghost var shape: Tree<nat>

    /** The fields form a coherent tree (see Coherent). */
    ghost predicate Valid()
      reads this
    {
      Coherent(nodes, shape, root, size, nextId)
    }

    constructor()
      ensures Valid() && shape == Nil && nodes == map[] && nextId == 0
    {
      nodes := map[];
      root := None;
      size := 0;
      nextId := 0;
      shape := Nil;
    }

    function Len(): (r: nat)
      reads this
      requires Valid()
      ensures r == Size(shape)
    {
      size
    }

    function IsEmpty(): (r: bool)
      reads this
      requires Valid()
      ensures r <==> shape.Nil?
    {
      size == 0
    }

    function Root(): (r: Option<Position<T>>)
      reads this
      requires Valid()
      ensures r == if shape.Nil? then None else Some(Position(this, shape.value))
    {
      MakePosition(this, root)
    }

    /** A node inside the tree never names itself as parent; a node outside it always does. */
    lemma LiveNotDeleted(x: nat)
      requires Valid()
      ensures x in Labels(shape) ==> x in nodes && nodes[x].parent != Some(x)
      ensures x in nodes && x !in Labels(shape) ==> nodes[x].parent == Some(x)
    {
      assert Orphaned(nodes, shape, x);
      if x in Labels(shape) {
        var q := PathTo(shape, x);
        ShapedLinks(nodes, shape, q);
        if q != [] {
          var pp := q[..|q| - 1];
          PathToUnique(shape, pp);
          PathToUnique(shape, q);
          assert pp != q;
        }
      }
    }

    /**
     * The node of a position, when the position belongs to this tree and its
     * node has not been deleted; otherwise the error the source raises.
     */
    function Validate(p: Position<T>): (r: Result<nat>)
      reads this
      requires Valid()
      ensures r.Ok? <==> p.container == this && p.node in Labels(shape)
      ensures r.Ok? ==> r.value == p.node
      ensures r.Err? && (p.container != this || p.node !in nodes) ==> r.error == NotOwned
      ensures r.Err? && p.container == this && p.node in nodes ==> r.error == NoLongerValid
    {
      LiveNotDeleted(p.node);
      if p.container != this || p.node !in nodes then Err(NotOwned)
      else if nodes[p.node].parent == Some(p.node) then Err(NoLongerValid)
      else Ok(p.node)
    }

    /** The subtree below a live node. */
    ghost function Below(x: nat): (r: Tree<nat>)
      reads this
      requires x in Labels(shape)
      ensures r.Node? && r.value == x
    {
      At(shape, x)
    }

    /** The parent of a live node: none for the root, else the node one step up its path. */
    ghost function ParentOf(x: nat): (r: Option<nat>)
      reads this
      requires Valid() && x in Labels(shape)
      ensures r.None? <==> x == shape.value
      ensures r.Some? ==> r.value in Labels(shape)
    {
      var q := PathTo(shape, x);
      if q == [] then None
      else
        ParentValid(shape, q);
        PathToUnique(shape, q[..|q| - 1]);
        PathToUnique(shape, q);
        assert q[..|q| - 1] != q;
        Some(Subtree(shape, q[..|q| - 1]).value)
    }

    /** The other child of a live node's parent, if any: the child on the other side of its last step. */
    ghost function SiblingOf(x: nat): Option<nat>
      reads this
      requires Valid() && x in Labels(shape)
    {
      var q := PathTo(shape, x);
      if q == [] then None
      else
        ParentValid(shape, q);
        RootLabel(Child(Subtree(shape, q[..|q| - 1]), Flip(q[|q| - 1])))
    }

    lemma LinksOf(x: nat)
      requires Valid() && x in Labels(shape)
      ensures x in nodes
      ensures nodes[x].left == RootLabel(Below(x).left) && nodes[x].right == RootLabel(Below(x).right)
      ensures nodes[x].parent == ParentOf(x)
      ensures LinkKids(nodes[x]) == KidLabels(Below(x))
    {
      ShapedLinks(nodes, shape, PathTo(shape, x));
    }

    function IsRoot(p: Position<T>): (r: bool)
      reads this
      requires Valid()
      ensures r <==> p.container == this && shape.Node? && p.node == shape.value
    {
      Root() == Some(p)
    }

    /** The parent position, None at the root. */
    function Parent(p: Position<T>): (r: Result<Option<Position<T>>>)
      reads this
      requires Valid()
      ensures Validate(p).Err? ==> r == Err(Validate(p).error)
      ensures Validate(p).Ok? ==> r == Ok(MakePosition(this, ParentOf(p.node)))
    {
      match Validate(p)
      case Err(e) => Err(e)
      case Ok(x) =>
        LinksOf(x);
        Ok(MakePosition(this, nodes[x].parent))
    }

    function Left(p: Position<T>): (r: Result<Option<Position<T>>>)
      reads this
      requires Valid()
      ensures Validate(p).Err? ==> r == Err(Validate(p).error)
      ensures Validate(p).Ok? ==> r == Ok(MakePosition(this, RootLabel(Below(p.node).left)))
    {
      match Validate(p)
      case Err(e) => Err(e)
      case Ok(x) =>
        LinksOf(x);
        Ok(MakePosition(this, nodes[x].left))
    }

    function Right(p: Position<T>): (r: Result<Option<Position<T>>>)
      reads this
      requires Valid()
      ensures Validate(p).Err? ==> r == Err(Validate(p).error)
      ensures Validate(p).Ok? ==> r == Ok(MakePosition(this, RootLabel(Below(p.node).right)))
    {
      match Validate(p)
      case Err(e) => Err(e)
      case Ok(x) =>
        LinksOf(x);
        Ok(MakePosition(this, nodes[x].right))
    }

    function NumChildren(p: Position<T>): (r: Result<nat>)
      reads this
      requires Valid()
      ensures Validate(p).Err? ==> r == Err(Validate(p).error)
      ensures Validate(p).Ok? ==> r == Ok(|Kids(Below(p.node))|)
    {
      match Validate(p)
      case Err(e) => Err(e)
      case Ok(x) =>
        LinksOf(x);
        Ok((if nodes[x].left.Some? then 1 else 0) + (if nodes[x].right.Some? then 1 else 0))
    }

    function IsLeafAt(p: Position<T>): (r: Result<bool>)
      reads this
      requires Valid()
      ensures Validate(p).Err? ==> r == Err(Validate(p).error)
      ensures Validate(p).Ok? ==> r == Ok(IsLeaf(Below(p.node)))
    {
      match NumChildren(p)
      case Err(e) => Err(e)
      case Ok(n) => Ok(n == 0)
    }

    /** The other child of p's parent: None at the root or when p is an only child. */
    function Sibling(p: Position<T>): (r: Result<Option<Position<T>>>)
      reads this
      requires Valid()
      ensures Validate(p).Err? ==> r == Err(Validate(p).error)
      ensures Validate(p).Ok? ==> r == Ok(MakePosition(this, SiblingOf(p.node)))
    {
      match Parent(p)
      case Err(e) => Err(e)
      case Ok(None) => Ok(None)
      case Ok(Some(up)) =>
        SiblingLinks(p.node);
        if Left(up) == Ok(Some(p)) then Right(up) else Left(up)
    }

    /** A non-root node is the left child of its parent exactly when its path ends with a left step. */
    lemma SiblingLinks(x: nat)
      requires Valid() && x in Labels(shape) && PathTo(shape, x) != []
      ensures var q := PathTo(shape, x);
        ValidPath(shape, q[..|q| - 1]) &&
        var y := Subtree(shape, q[..|q| - 1]).value;
        y in Labels(shape) && Below(y) == Subtree(shape, q[..|q| - 1]) &&
        (RootLabel(Below(y).left) == Some(x) <==> q[|q| - 1] == L)
    {
      var q := PathTo(shape, x);
      ParentValid(shape, q);
      var pp := q[..|q| - 1];
      PathToUnique(shape, pp);
      SubtreeAppend(shape, pp, L);
      SubtreeAppend(shape, pp, R);
      if q[|q| - 1] == L {
        assert pp + [L] == q;
      } else {
        assert pp + [R] == q;
        if Subtree(shape, pp).left.Node? {
          PathToUnique(shape, pp + [L]);
        }
      }
    }

    /** The child positions of p, left before right. */
    function Children(p: Position<T>): (r: Result<seq<Position<T>>>)
      reads this
      requires Valid()
      ensures Validate(p).Err? ==> r == Err(Validate(p).error)
      ensures Validate(p).Ok? ==> r == Ok(MakePositions(this, KidLabels(Below(p.node))))
    {
      match Validate(p)
      case Err(e) => Err(e)
      case Ok(x) =>
        LinksOf(x);
        Ok(MakePositions(this, LinkKids(nodes[x])))
    }

    /** The subtrees below a node's children are the subtrees at the child ids. */
    lemma BelowKids(x: nat)
      requires Valid() && x in Labels(shape)
      ensures Below(x).left.Node? ==> Below(x).left.value in Labels(shape) && Below(Below(x).left.value) == Below(x).left
      ensures Below(x).right.Node? ==> Below(x).right.value in Labels(shape) && Below(Below(x).right.value) == Below(x).right
    {
      var q := PathTo(shape, x);
      SubtreeAppend(shape, q, L);
      SubtreeAppend(shape, q, R);
      if Below(x).left.Node? {
        PathToUnique(shape, q + [L]);
      }
      if Below(x).right.Node? {
        PathToUnique(shape, q + [R]);
      }
    }

    /** A non-root node lies one step deeper than its parent. */
    lemma ParentDepth(x: nat)
      requires Valid() && x in Labels(shape) && x != shape.value
      ensures |PathTo(shape, ParentOf(x).value)| + 1 == |PathTo(shape, x)|
    {
      var q := PathTo(shape, x);
      ParentValid(shape, q);
      PathToUnique(shape, q[..|q| - 1]);
    }

    /**
     * The number of steps from the root. The source accepts anything: on an
     * empty tree the missing position counts as the root (depth 0); elsewhere
     * it is not a position.
     */
    function Depth(p: Option<Position<T>>): (r: Result<nat>)
      reads this
      requires Valid()
      ensures p.None? ==> r == if shape.Nil? then Ok(0) else Err(NotAPosition)
      ensures p.Some? && Validate(p.value).Err? ==> r == Err(Validate(p.value).error)
      ensures p.Some? && Validate(p.value).Ok? ==> r == Ok(|PathTo(shape, p.value.node)|)
      decreases if p.Some? && Validate(p.value).Ok? then |PathTo(shape, p.value.node)| + 1 else 0
    {
      if Root() == p then Ok(0)
      else if p.None? then Err(NotAPosition)
      else
        match Validate(p.value)
        case Err(e) => Err(e)
        case Ok(x) =>
          LinksOf(x);
          ParentDepth(x);
          Ok(1 + Depth(MakePosition(this, nodes[x].parent)).value)
    }

    /** The height of the subtree below a live node, following the child links. */
    function HeightBelow(x: nat): (h: nat)
      reads this
      requires Valid() && x in Labels(shape)
      ensures h == Height(Below(x))
      decreases Size(Below(x))
    {
      LinksOf(x);
      BelowKids(x);
      var n := nodes[x];
      if n.left.None? && n.right.None? then 0
      else 1 + Max(if n.left.Some? then HeightBelow(n.left.value) else 0,
                   if n.right.Some? then HeightBelow(n.right.value) else 0)
    }

    /** The height of a position's subtree (the source's second method). */
    function Height2(p: Position<T>): (r: Result<nat>)
      reads this
      requires Valid()
      ensures Validate(p).Err? ==> r == Err(Validate(p).error)
      ensures Validate(p).Ok? ==> r == Ok(Height(Below(p.node)))
    {
      match Validate(p)
      case Err(e) => Err(e)
      case Ok(x) => Ok(HeightBelow(x))
    }

    /** The height at p, the root by default; an empty tree has no root to measure. */
    function HeightAt(p: Option<Position<T>>): (r: Result<nat>)
      reads this
      requires Valid()
      ensures p.None? && shape.Nil? ==> r == Err(NotAPosition)
      ensures p.None? && shape.Node? ==> r == Ok(Height(shape))
      ensures p.Some? ==> r == Height2(p.value)
    {
      var start := if p.None? then Root() else p;
      if start.None? then Err(NotAPosition)
      else
        assert p.None? ==> PathTo(shape, shape.value) == [];
        Height2(start.value)
    }

    /** Every position of ps is a live position of this tree. */
    ghost predicate Live(ps: seq<Position<T>>)
      reads this
    {
      forall i | 0 <= i < |ps| :: ps[i].container == this && ps[i].node in Labels(shape)
    }

    /** The greatest depth of a leaf among ps (0 when none is a leaf). */
    function MaxLeafDepth(ps: seq<Position<T>>): (r: nat)
      reads this
      requires Valid() && Live(ps)
    {
      if ps == [] then 0
      else
        assert Validate(ps[0]).Ok?;
        Max(if IsLeafAt(ps[0]).value then Depth(Some(ps[0])).value else 0, MaxLeafDepth(ps[1..]))
    }

    /** The height as the greatest depth of a leaf (the source's first method); an empty tree has none. */
    function Height1(): (r: Result<nat>)
      reads this
      requires Valid()
      ensures shape.Nil? ==> r == Err(Empty)
    {
      if IsEmpty() then Err(Empty)
      else
        InorderOf(shape.value);
        Ok(MaxLeafDepth(Positions()))
    }

    // -------------------------------------------------------------------------
    // Traversals, following the links
    // -------------------------------------------------------------------------

    function PreorderBelow(x: nat): (r: seq<nat>)
      reads this
      requires Valid() && x in Labels(shape)
      ensures r == Preorder(Below(x))
      decreases Size(Below(x))
    {
      LinksOf(x);
      BelowKids(x);
      var n := nodes[x];
      [x] + (if n.left.Some? then PreorderBelow(n.left.value) else [])
          + (if n.right.Some? then PreorderBelow(n.right.value) else [])
    }

    function PostorderBelow(x: nat): (r: seq<nat>)
      reads this
      requires Valid() && x in Labels(shape)
      ensures r == Postorder(Below(x))
      decreases Size(Below(x))
    {
      LinksOf(x);
      BelowKids(x);
      var n := nodes[x];
      (if n.left.Some? then PostorderBelow(n.left.value) else [])
        + (if n.right.Some? then PostorderBelow(n.right.value) else []) + [x]
    }

    function InorderBelow(x: nat): (r: seq<nat>)
      reads this
      requires Valid() && x in Labels(shape)
      ensures r == Inorder(Below(x))
      decreases Size(Below(x))
    {
      LinksOf(x);
      BelowKids(x);
      var n := nodes[x];
      (if n.left.Some? then InorderBelow(n.left.value) else [])
        + [x] + (if n.right.Some? then InorderBelow(n.right.value) else [])
    }

    /** The root's subtree is the whole tree. */
    lemma BelowRoot()
      requires Valid() && shape.Node?
      ensures Below(shape.value) == shape
    {
      assert PathTo(shape, shape.value) == [];
    }

    function PreorderPositions(): (r: seq<Position<T>>)
      reads this
      requires Valid()
      ensures r == MakePositions(this, Preorder(shape))
    {
      if IsEmpty() then []
      else
        BelowRoot();
        MakePositions(this, PreorderBelow(root.value))
    }

    function PostorderPositions(): (r: seq<Position<T>>)
      reads this
      requires Valid()
      ensures r == MakePositions(this, Postorder(shape))
    {
      if IsEmpty() then []
      else
        BelowRoot();
        MakePositions(this, PostorderBelow(root.value))
    }

    function InorderPositions(): (r: seq<Position<T>>)
      reads this
      requires Valid()
      ensures r == MakePositions(this, Inorder(shape))
    {
      if IsEmpty() then []
      else
        BelowRoot();
        MakePositions(this, InorderBelow(root.value))
    }

    /** A binary tree lists its positions in inorder. */
    function Positions(): (r: seq<Position<T>>)
      reads this
      requires Valid()
      ensures r == MakePositions(this, Inorder(shape))
    {
      InorderPositions()
    }

    /** Iterating a tree yields the elements at its positions, in inorder. */
    function Elements(): (r: seq<T>)
      reads this
      requires Valid()
      ensures |r| == |Inorder(shape)| == Size(shape)
      ensures forall i | 0 <= i < |r| :: Inorder(shape)[i] in nodes && r[i] == nodes[Inorder(shape)[i]].element
    {
      InorderInNodes();
      ElementsOf(Positions())
    }

    /** A node in the tree holds one of the elements iteration yields. */
    lemma ElementListed(x: nat)
      ensures Valid() && x in Labels(shape) ==> x in nodes && nodes[x].element in Elements()
    {
      if Valid() && x in Labels(shape) {
        InorderInNodes();
        InorderLabels(shape);
        var i :| 0 <= i < |Inorder(shape)| && Inorder(shape)[i] == x;
        assert Elements()[i] == nodes[x].element;
      }
    }

    lemma InorderInNodes()
      requires Valid()
      ensures |Inorder(shape)| == Size(shape)
      ensures forall i | 0 <= i < |Inorder(shape)| :: Inorder(shape)[i] in Labels(shape) && Inorder(shape)[i] in nodes
    {
      InorderVisitsAll(shape);
      LabelsIn(nodes, shape);
      InorderLabels(shape);
      forall i | 0 <= i < |Inorder(shape)| ensures Inorder(shape)[i] in Labels(shape) {
        assert Inorder(shape)[i] in Inorder(shape);
      }
    }

    function ElementsOf(ps: seq<Position<T>>): (r: seq<T>)
      reads this
      requires forall i | 0 <= i < |ps| :: ps[i].container == this && ps[i].node in nodes
      ensures |r| == |ps|
      ensures forall i | 0 <= i < |ps| :: r[i] == nodes[ps[i].node].element
    {
      if ps == [] then [] else [nodes[ps[0].node].element] + ElementsOf(ps[1..])
    }

    /** A live node's position occurs in the inorder listing. */
    lemma InorderOf(x: nat)
      requires Valid() && x in Labels(shape)
      ensures Live(Positions())
      ensures Position(this, x) in Positions()
    {
      InorderLabels(shape);
    }

    lemma {:induction false} MaxLeafDepthBound(ps: seq<Position<T>>, b: nat)
      requires Valid() && Live(ps)
      requires forall i | 0 <= i < |ps| :: |PathTo(shape, ps[i].node)| <= b
      ensures MaxLeafDepth(ps) <= b
    {
      if ps != [] {
        assert Validate(ps[0]).Ok?;
        MaxLeafDepthBound(ps[1..], b);
      }
    }

    lemma {:induction false} MaxLeafDepthAt(ps: seq<Position<T>>, i: nat)
      requires Valid() && Live(ps)
      requires i < |ps| && IsLeaf(Below(ps[i].node))
      ensures |PathTo(shape, ps[i].node)| <= MaxLeafDepth(ps)
    {
      assert Validate(ps[0]).Ok?;
      if i > 0 {
        MaxLeafDepthAt(ps[1..], i - 1);
      }
    }

    /** No leaf lies deeper than the recursive height. */
    lemma Height1AtMost()
      requires Valid() && shape.Node?
      ensures Height1().Ok? && Height1().value <= Height(shape)
    {
      InorderOf(shape.value);
      var ps := Positions();
      forall i | 0 <= i < |ps| ensures |PathTo(shape, ps[i].node)| <= Height(shape) {
        HeightBoundsDepth(shape, PathTo(shape, ps[i].node));
      }
      MaxLeafDepthBound(ps, Height(shape));
    }

    /** Some leaf lies as deep as the recursive height. */
    lemma Height1AtLeast()
      requires Valid() && shape.Node?
      ensures Height1().Ok? && Height(shape) <= Height1().value
    {
      InorderOf(shape.value);
      var ps := Positions();
      var deepest := DeepestLeaf(shape);
      var x := Subtree(shape, deepest).value;
      PathToUnique(shape, deepest);
      InorderOf(x);
      var i :| 0 <= i < |ps| && ps[i] == Position(this, x);
      MaxLeafDepthAt(ps, i);
    }

    /** The source's two height methods agree: the greatest depth of a leaf is the recursive height of the root. */
    lemma HeightsAgree()
      requires Valid() && shape.Node?
      ensures Height1() == HeightAt(None) == Ok(Height(shape))
    {
      Height1AtMost();
      Height1AtLeast();
    }

    /** A listing of node ids that holds every node of the tree once gives every valid position once. */
    lemma VisitsEach(ids: seq<nat>)
      requires Valid() && multiset(ids) == TreeSpec.Elements(shape)
      ensures |MakePositions(this, ids)| == Size(shape)
      ensures Distinct(MakePositions(this, ids))
      ensures forall p: Position<T> :: p in MakePositions(this, ids) <==> Validate(p).Ok?
    {
      ElementsSize(shape);
      assert |ids| == |multiset(ids)|;
      forall x ensures multiset(ids)[x] <= 1 {
        UniqueElements(shape, x);
      }
      DistinctFromCounts(ids);
      var ps := MakePositions(this, ids);
      forall i, j ensures DistinctAt(ps, i, j) {
        assert DistinctAt(ids, i, j);
      }
      forall p: Position<T> ensures p in ps <==> Validate(p).Ok? {
        ElementsLabels(shape, p.node);
        if p in ps {
          var i :| 0 <= i < |ps| && ps[i] == p;
          assert ids[i] in multiset(ids);
        }
        if Validate(p).Ok? {
          assert p.node in multiset(ids);
          var i :| 0 <= i < |ids| && ids[i] == p.node;
          assert ps[i] == p;
        }
      }
    }

    /** The positions a breadth-first walk still visits when the fringe holds ids. */
    ghost function Pending(ids: seq<nat>): seq<Position<T>>
      reads this
      requires AllIn(shape, ids)
    {
      MakePositions(this, LevelOrder(AtAll(shape, ids)))
    }

    /** Serving the front of a fringe of positions, in the terms of the positions. */
    lemma ServeFront(visited: seq<Position<T>>, ids: seq<nat>)
      requires Valid() && ids != [] && AllIn(shape, ids)
      ensures AllIn(shape, ids[1..] + KidLabels(At(shape, ids[0])))
      ensures visited + Pending(ids)
           == (visited + [Position(this, ids[0])]) + Pending(ids[1..] + KidLabels(At(shape, ids[0])))
    {
      FrontierFront(shape, ids);
      var later := LevelOrder(AtAll(shape, ids[1..] + KidLabels(At(shape, ids[0]))));
      MakePositionsAppend(this, [ids[0]], later);
      assert visited + ([Position(this, ids[0])] + Pending(ids[1..] + KidLabels(At(shape, ids[0]))))
          == (visited + [Position(this, ids[0])]) + Pending(ids[1..] + KidLabels(At(shape, ids[0])));
    }

    /**
     * Breadth-first traversal with a FIFO fringe: serve the front position,
     * then queue its children, left before right.
     */
    method BreadthFirst() returns (r: seq<Position<T>>)
      requires Valid()
      ensures r == MakePositions(this, TreeSpec.BreadthFirst(shape))
    {
      r := [];
      if IsEmpty() {
        return;
      }
      ghost var target := MakePositions(this, TreeSpec.BreadthFirst(shape));
      var fringe := new LinkedQueue<Position<T>>();
      fringe.Enqueue(Root().value);
      ghost var ids := [shape.value];
      BelowRoot();
      assert AtAll(shape, ids) == [shape];
      while !fringe.IsEmpty()
        invariant fresh(fringe) && fringe.Valid()
        invariant AllIn(shape, ids) && fringe.Contents == MakePositions(this, ids)
        invariant r + Pending(ids) == target
        decreases |target| - |r|
      {
        assert Position(this, ids[0]) == fringe.Contents[0];
        var front := fringe.Dequeue();
        var p := front.value;
        assert fringe.Contents == MakePositions(this, ids[1..]);
        ServeFront(r, ids);
        ghost var kids := KidLabels(At(shape, ids[0]));
        assert p == Position(this, ids[0]);
        r := r + [p];
        var cs := Children(p).value;
        assert cs == MakePositions(this, kids);
        EnqueueAll(fringe, cs);
        MakePositionsAppend(this, ids[1..], kids);
        ids := ids[1..] + kids;
      }
    }

    /** Each traversal yields every valid position exactly once, as many as the tree's length. */
    lemma TraversalsVisitEach()
      requires Valid()
      ensures |PreorderPositions()| == |PostorderPositions()| == |InorderPositions()| == Len()
      ensures Distinct(PreorderPositions()) && Distinct(PostorderPositions()) && Distinct(InorderPositions())
      ensures forall p: Position<T> :: p in PreorderPositions() <==> Validate(p).Ok?
      ensures forall p: Position<T> :: p in PostorderPositions() <==> Validate(p).Ok?
      ensures forall p: Position<T> :: p in InorderPositions() <==> Validate(p).Ok?
    {
      PreorderVisitsAll(shape);
      PostorderVisitsAll(shape);
      InorderVisitsAll(shape);
      VisitsEach(Preorder(shape));
      VisitsEach(Postorder(shape));
      VisitsEach(Inorder(shape));
    }

    /** Breadth-first order, too, yields every valid position exactly once. */
    lemma BreadthFirstVisitsEach()
      requires Valid()
      ensures |MakePositions(this, TreeSpec.BreadthFirst(shape))| == Len()
      ensures Distinct(MakePositions(this, TreeSpec.BreadthFirst(shape)))
      ensures forall p: Position<T> :: p in MakePositions(this, TreeSpec.BreadthFirst(shape)) <==> Validate(p).Ok?
    {
      BreadthFirstVisitsAll(shape);
      VisitsEach(TreeSpec.BreadthFirst(shape));
    }

    // -------------------------------------------------------------------------
    // Updates
    // -------------------------------------------------------------------------

    /** Place e at a new root of an empty tree; RootExists otherwise. */
    method AddRoot(e: T) returns (r: Result<Position<T>>)
      requires Valid()
      modifies this
      ensures Valid()
      ensures old(shape).Node? ==> r == Err(RootExists) && unchanged(this)
      ensures old(shape).Nil? ==>
                r == Ok(Position(this, old(nextId))) &&
                shape == Node(Nil, old(nextId), Nil) &&
                nodes == old(nodes)[old(nextId) := NodeData(e, None, None, None)] &&
                nextId == old(nextId) + 1
    {
      if root.Some? {
        return Err(RootExists);
      }
      var c := nextId;
      nodes := nodes[c := NodeData(e, None, None, None)];
      root := Some(c);
      size := 1;
      nextId := nextId + 1;
      shape := Node(Nil, c, Nil);
      forall k ensures Orphaned(nodes, shape, k) {
        assert Orphaned(old(nodes), old(shape), k);
      }
      return Ok(Position(this, c));
    }

    /**
     * Hang a new leaf holding e as child d of p: the error of an invalid p, or
     * the given one when that child already exists; otherwise the leaf takes
     * the next id and p's node links to it.
     */
    method AddChild(p: Position<T>, e: T, d: Dir, occupied: Error) returns (r: Result<Position<T>>)
      requires Valid()
      modifies this
      ensures Valid()
      ensures old(Validate(p)).Err? ==> r == Err(old(Validate(p)).error) && unchanged(this)
      ensures old(Validate(p)).Ok? && old(Child(Below(p.node), d)).Node? ==> r == Err(occupied) && unchanged(this)
      ensures old(Validate(p)).Ok? && old(Child(Below(p.node), d)).Nil? ==>
                var c := old(nextId);
                r == Ok(Position(this, c)) &&
                shape == ReplaceAt(old(shape), old(PathTo(shape, p.node)) + [d], Node(Nil, c, Nil)) &&
                nodes == old(nodes)[p.node := WithLink(old(nodes)[p.node], d, Some(c))][c := NodeData(e, Some(p.node), None, None)] &&
                nextId == c + 1 && size == old(size) + 1 && root == old(root) &&
                Labels(shape) == old(Labels(shape)) + {c}
    {
      var v := Validate(p);
      if v.Err? {
        return Err(v.error);
      }
      var x := v.value;
      LinksOf(x);
      if LinkOf(nodes[x], d).Some? {
        return Err(occupied);
      }
      var c := nextId;
      AddLeafShaped(nodes, shape, x, d, c, e);
      ghost var s' := ReplaceAt(shape, PathTo(shape, x) + [d], Node(Nil, c, Nil));
      nodes := nodes[x := WithLink(nodes[x], d, Some(c))][c := NodeData(e, Some(x), None, None)];
      size := size + 1;
      nextId := nextId + 1;
      shape := s';
      forall k ensures Orphaned(nodes, shape, k) {
        assert Orphaned(old(nodes), old(shape), k);
      }
      return Ok(Position(this, c));
    }

    /** Hang a new left child holding e below p. */
    method AddLeft(p: Position<T>, e: T) returns (r: Result<Position<T>>)
      requires Valid()
      modifies this
      ensures Valid()
      ensures old(Validate(p)).Err? ==> r == Err(old(Validate(p)).error) && unchanged(this)
      ensures old(Validate(p)).Ok? && old(Below(p.node).left).Node? ==> r == Err(LeftChildExists) && unchanged(this)
      ensures old(Validate(p)).Ok? && old(Below(p.node).left).Nil? ==>
                var c := old(nextId);
                r == Ok(Position(this, c)) &&
                shape == ReplaceAt(old(shape), old(PathTo(shape, p.node)) + [L], Node(Nil, c, Nil)) &&
                nodes == old(nodes)[p.node := old(nodes)[p.node].(left := Some(c))][c := NodeData(e, Some(p.node), None, None)] &&
                nextId == c + 1 && size == old(size) + 1 && root == old(root) &&
                Labels(shape) == old(Labels(shape)) + {c}
    {
      r := AddChild(p, e, L, LeftChildExists);
    }

    /** Hang a new right child holding e below p. */
    method AddRight(p: Position<T>, e: T) returns (r: Result<Position<T>>)
      requires Valid()
      modifies this
      ensures Valid()
      ensures old(Validate(p)).Err? ==> r == Err(old(Validate(p)).error) && unchanged(this)
      ensures old(Validate(p)).Ok? && old(Below(p.node).right).Node? ==> r == Err(RightChildExists) && unchanged(this)
      ensures old(Validate(p)).Ok? && old(Below(p.node).right).Nil? ==>
                var c := old(nextId);
                r == Ok(Position(this, c)) &&
                shape == ReplaceAt(old(shape), old(PathTo(shape, p.node)) + [R], Node(Nil, c, Nil)) &&
                nodes == old(nodes)[p.node := old(nodes)[p.node].(right := Some(c))][c := NodeData(e, Some(p.node), None, None)] &&
                nextId == c + 1 && size == old(size) + 1 && root == old(root) &&
                Labels(shape) == old(Labels(shape)) + {c}
    {
      r := AddChild(p, e, R, RightChildExists);
    }

    /** Put e at p and return the element it replaces; nothing else changes. */
    method Replace(p: Position<T>, e: T) returns (r: Result<T>)
      requires Valid()
      modifies this
      ensures Valid()
      ensures old(Validate(p)).Err? ==> r == Err(old(Validate(p)).error) && unchanged(this)
      ensures old(Validate(p)).Ok? ==>
                r == Ok(old(nodes)[p.node].element) &&
                nodes == old(nodes)[p.node := old(nodes)[p.node].(element := e)] &&
                shape == old(shape) && root == old(root) && size == old(size) && nextId == old(nextId)
    {
      var v := Validate(p);
      if v.Err? {
        return Err(v.error);
      }
      var x := v.value;
      var previous := nodes[x].element;
      ghost var m := nodes;
      LabelsIn(m, shape);
      nodes := nodes[x := nodes[x].(element := e)];
      ShapedFrame(m, nodes, shape);
      forall k ensures Orphaned(nodes, shape, k) {
        assert Orphaned(m, shape, k);
      }
      return Ok(previous);
    }

    /** What Delete relies on about the child of the node x it removes. */
    lemma DeleteChildPlan(x: nat)
      requires Valid() && x in Labels(shape) && !(Below(x).left.Node? && Below(x).right.Node?)
      ensures x in nodes
      ensures var n := nodes[x];
              var child := if n.left.Some? then n.left else n.right;
              child == RootLabel(OnlyChild(Below(x))) &&
              (child.Some? ==> child.value in nodes && child.value in Labels(Below(x)) && child.value != x &&
                               child.value in Labels(shape))
    {
      LinksOf(x);
      LabelsIn(nodes, shape);
      SubtreeLabelsAny(shape, PathTo(shape, x));
      var n := nodes[x];
      if n.left.Some? || n.right.Some? {
        BelowKids(x);
        SubtreeUnique(shape, PathTo(shape, x));
      }
    }

    /** What Delete relies on about the parent of the node x it removes. */
    lemma DeleteParentPlan(x: nat)
      requires Valid() && x in Labels(shape)
      ensures x in nodes
      ensures var n := nodes[x];
              (root == Some(x) <==> n.parent.None?) && (n.parent.None? <==> PathTo(shape, x) == []) &&
              (n.parent.Some? ==> n.parent.value in nodes && n.parent.value != x && n.parent.value in Labels(shape) &&
                                  n.parent.value !in Labels(Below(x)))
    {
      var q := PathTo(shape, x);
      LinksOf(x);
      LiveNotDeleted(x);
      LabelsIn(nodes, shape);
      var n := nodes[x];
      if n.parent.Some? {
        ParentValid(shape, q);
        SubtreeUnique(shape, q[..|q| - 1]);
        assert n.parent.value !in Labels(Subtree(shape, q));
      }
    }

    /** The source tells the side of x by comparing its parent's left link with x. */
    lemma DeleteSidePlan(x: nat)
      requires Valid() && x in Labels(shape) && PathTo(shape, x) != []
      ensures x in nodes && nodes[x].parent.Some? && nodes[x].parent.value in nodes
      ensures var q := PathTo(shape, x);
              nodes[nodes[x].parent.value].left == Some(x) <==> q[|q| - 1] == L
    {
      LinksOf(x);
      SiblingLinks(x);
      LinksOf(nodes[x].parent.value);
    }

    /** The root is no node below another one. */
    lemma RootNotBelowOther(x: nat)
      requires Valid() && x in Labels(shape) && x != shape.value
      ensures shape.value !in Labels(Below(x))
    {
      var q := PathTo(shape, x);
      assert q != [];
      RootNotBelow(shape, q);
    }

    /** Everything Splice relies on about x, its child and its parent. */
    lemma SplicePlan(x: nat)
      requires Valid() && x in Labels(shape) && |Kids(At(shape, x))| < 2
      ensures SpliceReady(nodes, shape, root, size, nextId, x)
    {
      LinksOf(x);
      DeleteChildPlan(x);
      DeleteParentPlan(x);
      if PathTo(shape, x) != [] {
        DeleteSidePlan(x);
        RootNotBelowOther(x);
      }
    }

    lemma SpliceReadyAt(x: nat)
      requires Valid() && x in Labels(shape) && |Kids(At(shape, x))| < 2
      ensures UnlinkReady(nodes, x, root == Some(x))
    {
      SplicePlan(x);
    }

    /** The state after Splice: coherent, x gone from the tree and marked deleted, every other record in place. */
    lemma SpliceOutcome(x: nat, links: map<nat, NodeData<T>>, top: Option<nat>, s': Tree<nat>)
      requires Valid() && x in Labels(shape) && |Kids(At(shape, x))| < 2 && UnlinkReady(nodes, x, root == Some(x))
      requires links == Unlink(nodes, x, root == Some(x))
      requires top == if root == Some(x) then (if nodes[x].left.Some? then nodes[x].left else nodes[x].right) else root
      requires s' == ReplaceAt(shape, PathTo(shape, x), OnlyChild(At(shape, x)))
      ensures Coherent(links, s', top, size - 1, nextId) && Labels(s') == Labels(shape) - {x} && Size(s') + 1 == Size(shape)
      ensures (forall k :: k in links <==> k in nodes) && links[x] == nodes[x].(parent := Some(x)) &&
              (forall k | k in nodes :: links[k].element == nodes[k].element) &&
              (forall k | k in nodes && k !in Labels(shape) :: links[k] == nodes[k])
    {
      SplicePlan(x);
      UnlinkSpliced(nodes, x, root == Some(x));
      SpliceValid(nodes, links, shape, root, size, nextId, x, s', top);
      SpliceKeeps(nodes, links, shape, root, size, nextId, x);
    }

    /**
     * The splice of Delete once p is validated as the live node x with at most
     * one child: the child takes x's place and x's element is returned.
     */
    method Splice(x: nat) returns (e: T)
      requires Valid() && x in Labels(shape) && |Kids(At(shape, x))| < 2
      modifies this
      ensures Valid()
      ensures x in old(nodes) && e == old(nodes)[x].element &&
              shape == ReplaceAt(old(shape), PathTo(old(shape), x), OnlyChild(At(old(shape), x))) &&
              Labels(shape) == old(Labels(shape)) - {x} && Size(shape) + 1 == old(Size(shape)) &&
              (forall k :: k in nodes <==> k in old(nodes)) && nextId == old(nextId) &&
              nodes[x] == old(nodes)[x].(parent := Some(x)) &&
              (forall k | k in old(nodes) :: nodes[k].element == old(nodes)[k].element) &&
              (forall k | k in old(nodes) && k !in old(Labels(shape)) :: nodes[k] == old(nodes)[k])
    {
      SpliceReadyAt(x);
      var n := nodes[x];
      var child := if n.left.Some? then n.left else n.right;
      e := n.element;
      var links := Unlink(nodes, x, root == Some(x));
      var top := if root == Some(x) then child else root;
      ghost var s' := ReplaceAt(shape, PathTo(shape, x), OnlyChild(At(shape, x)));
      SpliceOutcome(x, links, top, s');
      nodes, root, size, shape := links, top, size - 1, s';
    }

    /**
     * Remove the node at p, which may have at most one child (TwoChildren
     * otherwise): the child takes its place below p's parent, or becomes the
     * root. The removed node names itself as parent, which invalidates p; its
     * element is returned.
     */
    method Delete(p: Position<T>) returns (r: Result<T>)
      requires Valid()
      modifies this
      ensures Valid()
      ensures old(Validate(p)).Err? ==> r == Err(old(Validate(p)).error) && unchanged(this)
      ensures old(Validate(p)).Ok? && |Kids(At(old(shape), p.node))| == 2 ==> r == Err(TwoChildren) && unchanged(this)
      ensures old(Validate(p)).Ok? && |Kids(At(old(shape), p.node))| < 2 ==>
                r == Ok(old(nodes)[p.node].element) &&
                shape == ReplaceAt(old(shape), PathTo(old(shape), p.node), OnlyChild(At(old(shape), p.node))) &&
                Labels(shape) == old(Labels(shape)) - {p.node} && Size(shape) + 1 == old(Size(shape)) &&
                (forall k :: k in nodes <==> k in old(nodes)) && nextId == old(nextId) &&
                nodes[p.node] == old(nodes)[p.node].(parent := Some(p.node)) &&
                (forall k | k in old(nodes) :: nodes[k].element == old(nodes)[k].element) &&
                (forall k | k in old(nodes) && k !in old(Labels(shape)) :: nodes[k] == old(nodes)[k])
      ensures old(Validate(p)).Ok? && |Kids(At(old(shape), p.node))| < 2 ==> Validate(p) == Err(NoLongerValid)
    {
      var v := Validate(p);
      if v.Err? {
        return Err(v.error);
      }
      var x := v.value;
      LinksOf(x);
      if NumChildren(p).value == 2 {
        return Err(TwoChildren);
      }
      var e := Splice(x);
      return Ok(e);
    }

    /** A live leaf x has no links down, and the ids of t1 and t2 fit above this tree's. */
    lemma AttachReady(x: nat, t1: LinkedBinaryTree<T>, t2: LinkedBinaryTree<T>)
      requires Valid() && t1.Valid() && t2.Valid() && x in Labels(shape) && IsLeaf(Below(x))
      ensures x in nodes && nodes[x].left.None? && nodes[x].right.None?
      ensures (forall j | j in nodes :: j < nextId) && (forall j | j in t1.nodes :: j + nextId < nextId + t1.nextId) &&
              (forall j | j in t2.nodes :: j < t2.nextId)
      ensures (t1.root.Some? ==> t1.root.value in t1.nodes) && (t2.root.Some? ==> t2.root.value in t2.nodes)
    {
      LinksOf(x);
    }

    /**
     * Empty this tree once its nodes have moved elsewhere: no root, size 0.
     * Its positions no longer belong to it.
     */
    method Clear()
      requires Valid()
      modifies this
      ensures Valid() && shape == Nil && nodes == map[] && nextId == old(nextId)
    {
      nodes, root, size, shape := map[], None, 0, Nil;
    }

    /**
     * The attach proper at a live leaf x: t1's and t2's nodes move in with
     * their ids raised above this tree's, and x links down to their roots.
     */
    method Graft(x: nat, t1: LinkedBinaryTree<T>, t2: LinkedBinaryTree<T>)
      requires Valid() && t1.Valid() && t2.Valid() && this != t1 && this != t2
      requires x in Labels(shape) && x in nodes && nodes[x].left.None? && nodes[x].right.None?
      modifies this
      ensures var o1, o2 := old(nextId), old(nextId + t1.nextId);
              shape == AttachShape(old(shape), x, old(t1.shape), o1, old(t2.shape), o2) &&
              Attached(nodes, old(nodes), x, old(t1.nodes), old(t1.root), o1, old(t2.nodes), old(t2.root), o2)
      ensures Valid()
      ensures size == old(size + t1.size + t2.size)
    {
      var o1, o2 := nextId, nextId + t1.nextId;
      var links := AttachNodes(nodes, x, t1.nodes, t1.root, o1, t2.nodes, t2.root, o2, t2.nextId);
      ghost var s' := AttachShape(shape, x, t1.shape, o1, t2.shape, o2);
      AttachCoherent(links, nodes, shape, root, size, nextId, t1.nodes, t1.shape, t1.root, t1.size, t1.nextId,
                     t2.nodes, t2.shape, t2.root, t2.size, t2.nextId, x);
      nodes, size, nextId, shape := links, size + t1.size + t2.size, o2 + t2.nextId, s';
    }

    /**
     * Attach t1 and t2 as the left and right subtrees of the leaf at p: the
     * error of an invalid p, NotLeaf when p has a child; otherwise Graft, and
     * t1 and t2 are left empty.
     */
    method Attach(p: Position<T>, t1: LinkedBinaryTree<T>, t2: LinkedBinaryTree<T>) returns (r: Result<()>)
      requires Valid() && t1.Valid() && t2.Valid()
      requires this != t1 && this != t2 && t1 != t2
      modifies this, t1, t2
      ensures Valid() && t1.Valid() && t2.Valid()
      ensures old(Validate(p)).Err? ==> r == Err(old(Validate(p)).error) && unchanged(this, t1, t2)
      ensures old(Validate(p)).Ok? && !IsLeaf(At(old(shape), p.node)) ==> r == Err(NotLeaf) && unchanged(this, t1, t2)
      ensures old(Validate(p)).Ok? && IsLeaf(At(old(shape), p.node)) ==>
                var o1, o2 := old(nextId), old(nextId + t1.nextId);
                r == Ok(()) &&
                shape == AttachShape(old(shape), p.node, old(t1.shape), o1, old(t2.shape), o2) &&
                Attached(nodes, old(nodes), p.node, old(t1.nodes), old(t1.root), o1, old(t2.nodes), old(t2.root), o2) &&
                size == old(size + t1.size + t2.size) &&
                t1.shape == Nil && t2.shape == Nil
    {
      var v := Validate(p);
      if v.Err? {
        return Err(v.error);
      }
      var x := v.value;
      if !IsLeafAt(p).value {
        return Err(NotLeaf);
      }
      AttachReady(x, t1, t2);
      Graft(x, t1, t2);
      t1.Clear();
      t2.Clear();
      return Ok(());
    }
  }
}
