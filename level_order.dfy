/**
 * Level-order lists: a tree given as a list of optional values, root first,
 * where the entries after the root fill the child slots of the nodes in the
 * order the nodes were created, left slot before right slot, and None marks
 * an absent child. Also the fact both builders rely on: a tree whose nodes
 * are numbered in creation order this way lists them 0, 1, ... in
 * breadth-first order.
 */
module LevelOrderLists {
  import opened Wrappers
  import opened TreeSpec

  /** The indices lo, lo+1, ..., hi-1. */
  function Range(lo: nat, hi: nat): (r: seq<nat>)
    ensures |r| == if lo <= hi then hi - lo else 0
    decreases hi - lo
  {
    if lo < hi then [lo] + Range(lo + 1, hi) else []
  }

  /** Entry i of the range is lo + i. */
  lemma {:induction false} RangeIndex(lo: nat, hi: nat)
    ensures forall i | 0 <= i < |Range(lo, hi)| :: Range(lo, hi)[i] == lo + i
    decreases hi - lo
  {
    if lo < hi {
      RangeIndex(lo + 1, hi);
      assert forall i | 1 <= i < |Range(lo, hi)| :: Range(lo, hi)[i] == Range(lo + 1, hi)[i - 1];
    }
  }

  lemma RangeSnoc(lo: nat, hi: nat)
    requires lo <= hi
    ensures Range(lo, hi) + [hi] == Range(lo, hi + 1)
  {
    RangeIndex(lo, hi);
    RangeIndex(lo, hi + 1);
    assert forall i | 0 <= i < hi + 1 - lo :: (Range(lo, hi) + [hi])[i] == lo + i;
  }

  lemma RangeFront(lo: nat, hi: nat)
    requires lo < hi
    ensures Range(lo, hi)[0] == lo && Range(lo, hi)[1..] == Range(lo + 1, hi)
  {
  }

  lemma RangeAppend(a: nat, b: nat, c: nat)
    requires a <= b <= c
    ensures Range(a, b) + Range(b, c) == Range(a, c)
  {
    RangeIndex(a, b);
    RangeIndex(b, c);
    RangeIndex(a, c);
    assert forall i | 0 <= i < c - a :: (Range(a, b) + Range(b, c))[i] == a + i;
  }

  lemma RangeHas(x: nat, lo: nat, hi: nat)
    requires x in Range(lo, hi)
    ensures lo <= x < hi
  {
    RangeIndex(lo, hi);
  }

  /** A prefix of a range is a range. */
  lemma RangePrefix(s: seq<nat>, lo: nat, hi: nat)
    requires lo <= hi && s <= Range(lo, hi)
    ensures lo + |s| <= hi && s == Range(lo, lo + |s|)
  {
    RangeIndex(lo, hi);
    RangeIndex(lo, lo + |s|);
    assert forall i | 0 <= i < |s| :: s[i] == Range(lo, hi)[i];
  }

  /** The present (non-None) entries among values[1..e], in order. */
  function Present<T>(values: seq<Option<T>>, e: nat): seq<Option<T>>
    requires e <= |values|
  {
    if e <= 1 then []
    else Present(values, e - 1) + (if values[e - 1].Some? then [values[e - 1]] else [])
  }

  /** The node number that slot s of values receives, when its entry is present and the list reaches it. */
  function SlotChild<T>(values: seq<Option<T>>, s: nat): Option<nat> {
    if 1 <= s < |values| && values[s].Some? then Some(1 + |Present(values, s)|) else None
  }

  /** The child a slot gives once the scan has passed it, and none before. */
  function SlotSeen<T>(values: seq<Option<T>>, e: nat, s: nat): Option<nat> {
    if s < e then SlotChild(values, s) else None
  }

  /**
   * Node k (in creation order) is taken from the queue when the scan has
   * reached slot 2k+1: the queue is empty then exactly when fewer than k+1
   * nodes have been created from the slots before it.
   */
  ghost predicate Starved<T>(values: seq<Option<T>>, k: nat) {
    2 * k + 1 < |values| && 1 + |Present(values, 2 * k + 1)| <= k
  }

  // ---------------------------------------------------------------------------
  // Creation order is breadth-first order
  // ---------------------------------------------------------------------------

  /** Every entry of xs labels a node of t. */
  ghost predicate AllIn<T>(t: Tree<T>, xs: seq<T>) {
    forall i | 0 <= i < |xs| :: xs[i] in Labels(t)
  }

  /** The subtrees rooted at the labels xs, in order. */
  function AtAll<T(==)>(t: Tree<T>, xs: seq<T>): (r: seq<Tree<T>>)
    requires AllIn(t, xs)
    ensures |r| == |xs|
  {
    if xs == [] then [] else [At(t, xs[0])] + AtAll(t, xs[1..])
  }

  lemma {:induction false} AtAllAppend<T>(t: Tree<T>, a: seq<T>, b: seq<T>)
    requires AllIn(t, a)
    requires AllIn(t, b)
    ensures AllIn(t, a + b)
    ensures AtAll(t, a + b) == AtAll(t, a) + AtAll(t, b)
  {
    if a != [] {
      assert (a + b)[1..] == a[1..] + b;
      AtAllAppend(t, a[1..], b);
    } else {
      assert a + b == b;
    }
  }

  /** With unique labels, the children of the subtree at x are the subtrees at its child labels. */
  lemma KidsAt<T>(t: Tree<T>, x: T)
    requires Unique(t) && x in Labels(t)
    ensures AllIn(t, KidLabels(At(t, x)))
    ensures Kids(At(t, x)) == AtAll(t, KidLabels(At(t, x)))
  {
    var q := PathTo(t, x);
    var s := At(t, x);
    if s.left.Node? {
      SubtreeAppend(t, q, L);
      PathToUnique(t, q + [L]);
    }
    if s.right.Node? {
      SubtreeAppend(t, q, R);
      PathToUnique(t, q + [R]);
    }
    if s.left.Node? && s.right.Node? {
      assert [s.left.value, s.right.value][1..] == [s.right.value];
    }
  }

  /** Serving the front label of a frontier visits it, then its children join the back. */
  lemma FrontierFront<T>(t: Tree<T>, xs: seq<T>)
    requires Unique(t) && xs != [] && AllIn(t, xs)
    ensures AllIn(t, xs[1..] + KidLabels(At(t, xs[0])))
    ensures LevelOrder(AtAll(t, xs)) == [xs[0]] + LevelOrder(AtAll(t, xs[1..] + KidLabels(At(t, xs[0]))))
  {
    KidsAt(t, xs[0]);
    assert AllIn(t, xs[1..]) by {
      forall i | 0 <= i < |xs| - 1 ensures xs[1..][i] in Labels(t) {
        assert xs[1..][i] == xs[i + 1];
      }
    }
    AtAllAppend(t, xs[1..], KidLabels(At(t, xs[0])));
    LevelOrderFront(AtAll(t, xs));
  }

  /** The child labels of the nodes labelled 0, 1, ..., k-1, in that order (a missing label has none). */
  ghost function KidsUpTo(t: Tree<nat>, k: nat): seq<nat>
  {
    if k == 0 then [] else KidsUpTo(t, k - 1) + (if k - 1 in Labels(t) then KidLabels(At(t, k - 1)) else [])
  }

  /**
   * The nodes are labelled 0..n-1, the root 0; every child has a greater label
   * than its parent; and listing the children of nodes 0, 1, ..., n-1 in turn
   * gives 1, 2, ..., n-1: the numbering a builder produces when it hands out
   * numbers as it creates children, serving the nodes in the order created.
   */
  ghost predicate LevelNumbered(t: Tree<nat>, n: nat) {
    t.Node? && t.value == 0 && Unique(t) &&
    (forall j: nat :: j in Labels(t) <==> j < n) &&
    KidsUpTo(t, n) == Range(1, n) &&
    (forall j: nat | j < n :: forall c | c in KidLabels(At(t, j)) :: j < c)
  }

  lemma PrefixExtend<T>(a: seq<T>, b: seq<T>, c: seq<T>)
    requires a <= b
    ensures a <= b + c
  {
    assert (b + c)[..|a|] == b[..|a|];
  }

  lemma {:induction false} KidsUpToPrefix(t: Tree<nat>, k: nat, k': nat)
    requires k <= k'
    ensures KidsUpTo(t, k) <= KidsUpTo(t, k')
    decreases k' - k
  {
    if k < k' {
      KidsUpToPrefix(t, k, k' - 1);
      PrefixExtend(KidsUpTo(t, k), KidsUpTo(t, k' - 1), if k' - 1 in Labels(t) then KidLabels(At(t, k' - 1)) else []);
    }
  }

  lemma {:induction false} InKidsUpTo(t: Tree<nat>, j: nat, k: nat, c: nat)
    requires j < k && j in Labels(t)
    requires c in KidLabels(At(t, j))
    ensures c in KidsUpTo(t, k)
    decreases k
  {
    if j < k - 1 {
      InKidsUpTo(t, j, k - 1, c);
    }
  }

  /** A node other than the root is the child of a node numbered before it. */
  lemma ReachedBefore(t: Tree<nat>, n: nat, k: nat)
    requires LevelNumbered(t, n) && 1 <= k < n
    ensures k in KidsUpTo(t, k)
  {
    var q := PathTo(t, k);
    assert q != [];
    ParentValid(t, q);
    var p := q[..|q| - 1];
    var j := Subtree(t, p).value;
    PathToUnique(t, p);
    assert At(t, j) == Subtree(t, p);
    assert k in KidLabels(At(t, j));
    InKidsUpTo(t, j, k, k);
  }

  /** Serving node k appends its children, which carry the next numbers m, m+1, ... */
  lemma ServeNext(t: Tree<nat>, n: nat, k: nat, m: nat) returns (m': nat)
    requires k < m <= n && k in Labels(t) && KidsUpTo(t, n) == Range(1, n)
    requires KidsUpTo(t, k) == Range(1, m)
    ensures m <= m' <= n && KidLabels(At(t, k)) == Range(m, m')
    ensures KidsUpTo(t, k + 1) == Range(1, m') && m' == 1 + |KidsUpTo(t, k + 1)|
  {
    var kids := KidLabels(At(t, k));
    KidsUpToPrefix(t, k + 1, n);
    assert KidsUpTo(t, k + 1) == Range(1, m) + kids;
    RangePrefix(KidsUpTo(t, k + 1), 1, n);
    m' := m + |kids|;
    RangeAppend(1, m, m');
    CancelPrefix(Range(1, m), kids, Range(m, m'));
  }

  lemma CancelPrefix<T>(a: seq<T>, b: seq<T>, c: seq<T>)
    requires a + b == a + c
    ensures b == c
  {
    assert b == (a + b)[|a|..];
  }

  /** When the labels are exactly the numbers below n, every range below n names nodes. */
  lemma NumbersIn(t: Tree<nat>, n: nat, lo: nat, hi: nat)
    requires forall j: nat :: j in Labels(t) <==> j < n
    requires hi <= n
    ensures AllIn(t, Range(lo, hi))
  {
    RangeIndex(lo, hi);
  }

  /** The queue after serving node k: the rest of the frontier, then k's children. */
  lemma {:induction false} FrontierStep(t: Tree<nat>, n: nat, k: nat, m: nat, m': nat)
    requires Unique(t) && (forall j: nat :: j in Labels(t) <==> j < n) && k < m <= m' <= n
    requires KidLabels(At(t, k)) == Range(m, m')
    ensures AllIn(t, Range(k, m))
    ensures AllIn(t, Range(k + 1, m'))
    ensures LevelOrder(AtAll(t, Range(k, m))) == [k] + LevelOrder(AtAll(t, Range(k + 1, m')))
  {
    KidsAt(t, k);
    NumbersIn(t, n, k, m);
    NumbersIn(t, n, k + 1, m);
    NumbersIn(t, n, m, m');
    NumbersIn(t, n, k + 1, m');
    RangeAppend(k + 1, m, m');
    assert Range(k, m) == [k] + Range(k + 1, m);
    assert Range(k, m)[1..] == Range(k + 1, m);
    AtAllAppend(t, Range(k + 1, m), Range(m, m'));
    var q := AtAll(t, Range(k, m));
    assert q[0] == At(t, k) && q[1..] == AtAll(t, Range(k + 1, m));
    LevelOrderFront(q);
  }

  /** One turn of the traversal: node k is visited and its children, numbered m..m'-1, join the queue. */
  lemma ServeStep(t: Tree<nat>, n: nat, k: nat, m: nat) returns (m': nat)
    requires LevelNumbered(t, n) && k < m <= n
    requires KidsUpTo(t, k) == Range(1, m)
    ensures m <= m' <= n && KidsUpTo(t, k + 1) == Range(1, m') && m' == 1 + |KidsUpTo(t, k + 1)|
    ensures AllIn(t, Range(k, m)) && AllIn(t, Range(k + 1, m'))
    ensures LevelOrder(AtAll(t, Range(k, m))) == [k] + LevelOrder(AtAll(t, Range(k + 1, m')))
  {
    m' := ServeNext(t, n, k, m);
    FrontierStep(t, n, k, m, m');
  }

  /** The frontier k..m-1 names nodes, and it runs empty only once every node has been served. */
  lemma FrontierIn(t: Tree<nat>, n: nat, k: nat, m: nat)
    requires LevelNumbered(t, n) && k <= m <= n && 0 < m
    requires KidsUpTo(t, k) == Range(1, m)
    ensures AllIn(t, Range(k, m))
    ensures k == m ==> k == n
  {
    NumbersIn(t, n, k, m);
    if 1 <= k < n {
      ReachedBefore(t, n, k);
      RangeHas(k, 1, m);
    }
  }

  /**
   * After the nodes numbered below k have been visited, the queue of a
   * breadth-first traversal holds the subtrees of the nodes numbered k..m-1,
   * and the rest of the traversal is k..n-1.
   */
  lemma {:induction false} LevelOrderNumbered(t: Tree<nat>, n: nat, k: nat, m: nat)
    requires LevelNumbered(t, n) && k <= m <= n && 0 < m
    requires KidsUpTo(t, k) == Range(1, m)
    ensures AllIn(t, Range(k, m))
    ensures LevelOrder(AtAll(t, Range(k, m))) == Range(k, n)
    decreases n - k
  {
    FrontierIn(t, n, k, m);
    if k < m {
      var m' := ServeStep(t, n, k, m);
      LevelOrderNumbered(t, n, k + 1, m');
      assert Range(k, n) == [k] + Range(k + 1, n);
      assert LevelOrder(AtAll(t, Range(k, m))) == Range(k, n);
    } else {
      assert LevelOrder(AtAll(t, Range(k, m))) == Range(k, n);
    }
  }

  /** Numbering nodes as they are created, serving them first come first served, numbers them breadth-first. */
  lemma NumberedBreadthFirst(t: Tree<nat>, n: nat)
    requires LevelNumbered(t, n)
    ensures BreadthFirst(t) == Range(0, n)
  {
    assert PathTo(t, 0) == [];
    assert Range(0, 1) == [0];
    assert KidsUpTo(t, 0) == [] == Range(1, 1);
    LevelOrderNumbered(t, n, 0, 1);
    assert AtAll(t, Range(0, 1)) == [t];
  }
}
