/**
 * The BinaryTree layer over a tree value: positions are paths from the root,
 * the parent of a position drops its last step, and left/right add one.
 * Sibling and children lookups, the inorder and postorder sequences of
 * positions, and the successor queries inorderNext and postorderNext.
 *
 * The successor queries call a helper `_leftmost` that the source never
 * defines. InorderNext is modelled with Leftmost (follow left links), which
 * is what it needs; PostorderNext with FirstPostorder (descend left, else
 * right, down to a leaf), which is what it needs. No single helper serves
 * both: see SharedHelperConflict.
 */
module BinaryTree {
  import opened Wrappers
  import opened TreeSpec
  import opened LevelOrderLists

  /** The parent position: None for the root. */
  function Parent(p: Path): (r: Option<Path>)
    ensures r.Some? <==> p != []
    ensures r.Some? ==> r.value + [p[|p| - 1]] == p
  {
    if p == [] then None else Some(p[..|p| - 1])
  }

  function LeftOf<T>(t: Tree<T>, p: Path): (r: Option<Path>)
    requires ValidPath(t, p)
    ensures r.Some? <==> Subtree(t, p).left.Node?
    ensures r.Some? ==> r.value == p + [L] && ValidPath(t, r.value) && Subtree(t, r.value) == Subtree(t, p).left
  {
    SubtreeAppend(t, p, L);
    if Subtree(t, p).left.Node? then Some(p + [L]) else None
  }

  function RightOf<T>(t: Tree<T>, p: Path): (r: Option<Path>)
    requires ValidPath(t, p)
    ensures r.Some? <==> Subtree(t, p).right.Node?
    ensures r.Some? ==> r.value == p + [R] && ValidPath(t, r.value) && Subtree(t, r.value) == Subtree(t, p).right
  {
    SubtreeAppend(t, p, R);
    if Subtree(t, p).right.Node? then Some(p + [R]) else None
  }

  /** None for the root; otherwise the parent's other child, which may be absent. */
  function Sibling<T>(t: Tree<T>, p: Path): (r: Option<Path>)
    requires ValidPath(t, p)
    ensures p == [] ==> r == None
    ensures p != [] ==>
      var other := p[..|p| - 1] + [Flip(p[|p| - 1])];
      r == (if ValidPath(t, other) then Some(other) else None)
  {
    match Parent(p)
    case None => None
    case Some(parent) =>
      ParentValid(t, p);
      SubtreeAppend(t, parent, L);
      SubtreeAppend(t, parent, R);
      if Some(p) == LeftOf(t, parent) then RightOf(t, parent) else LeftOf(t, parent)
  }

  /** The children of p, left before right, absent ones skipped. */
  function Children<T>(t: Tree<T>, p: Path): (r: seq<Path>)
    requires ValidPath(t, p)
    ensures |r| <= 2
    ensures forall c | c in r :: ValidPath(t, c) && Parent(c) == Some(p)
    ensures p + [L] in r <==> Subtree(t, p).left.Node?
    ensures p + [R] in r <==> Subtree(t, p).right.Node?
    ensures |r| == 2 ==> r == [p + [L], p + [R]]
  {
    SubtreeAppend(t, p, L);
    SubtreeAppend(t, p, R);
    assert Parent(p + [L]) == Some(p) by { assert (p + [L])[..|p|] == p; }
    assert Parent(p + [R]) == Some(p) by { assert (p + [R])[..|p|] == p; }
    assert p + [L] != p + [R] by { assert (p + [L])[|p|] != (p + [R])[|p|]; }
    var u := Subtree(t, p);
    if u.left.Node? && u.right.Node? then [p + [L], p + [R]]
    else if u.left.Node? then [p + [L]]
    else if u.right.Node? then [p + [R]]
    else []
  }

  /** Every position of ps names a node of t. */
  ghost predicate AllValid<T>(t: Tree<T>, ps: seq<Path>) {
    forall i | 0 <= i < |ps| :: ValidPath(t, ps[i])
  }

  /** The labels at the positions ps, in order. */
  function Values<T>(t: Tree<T>, ps: seq<Path>): seq<T>
    requires AllValid(t, ps)
  {
    if ps == [] then [] else [Subtree(t, ps[0]).value] + Values(t, ps[1..])
  }

  lemma {:induction false} ValuesLength<T>(t: Tree<T>, ps: seq<Path>)
    requires AllValid(t, ps)
    ensures |Values(t, ps)| == |ps|
  {
    if ps != [] {
      ValuesLength(t, ps[1..]);
    }
  }

  lemma {:induction false} ValuesAppend<T>(t: Tree<T>, a: seq<Path>, b: seq<Path>)
    requires AllValid(t, a) && AllValid(t, b)
    ensures AllValid(t, a + b)
    ensures Values(t, a + b) == Values(t, a) + Values(t, b)
  {
    if a != [] {
      assert (a + b)[1..] == a[1..] + b;
      ValuesAppend(t, a[1..], b);
    } else {
      assert a + b == b;
    }
  }

  lemma ValuesSingle<T>(t: Tree<T>, p: Path)
    requires ValidPath(t, p)
    ensures AllValid(t, [p]) && Values(t, [p]) == [Subtree(t, p).value]
  {
    assert [p][1..] == [];
  }

  /** q lies in the subtree at p: p is a prefix of q. */
  ghost predicate Under(p: Path, q: Path) {
    |p| <= |q| && q[..|p|] == p
  }

  lemma UnderStep(p: Path, d: Dir, q: Path)
    requires Under(p + [d], q)
    ensures Under(p, q) && |p| < |q| && q[|p|] == d
  {
    assert q[..|p|] == q[..|p| + 1][..|p|];
  }

  /** a, then p, then b is duplicate free when the parts are and p is shorter than every path of a and b. */
  lemma DistinctJoin(a: seq<Path>, p: Path, b: seq<Path>)
    requires Distinct(a) && Distinct(b)
    requires forall i | 0 <= i < |a| :: Under(p + [L], a[i])
    requires forall i | 0 <= i < |b| :: Under(p + [R], b[i])
    ensures Distinct(a + [p] + b) && Distinct(a + b + [p])
  {
    forall i | 0 <= i < |a| ensures |p| < |a[i]| && a[i][|p|] == L {
      UnderStep(p, L, a[i]);
    }
    forall i | 0 <= i < |b| ensures |p| < |b[i]| && b[i][|p|] == R {
      UnderStep(p, R, b[i]);
    }
    var s := a + [p] + b;
    forall i, j ensures DistinctAt(s, i, j) {
      if !(0 <= i < j < |s|) {
      } else if j < |a| {
        assert DistinctAt(a, i, j);
      } else if i < |a| && j == |a| {
        assert |s[i]| > |p|;
      } else if i < |a| {
        assert s[j] == b[j - |a| - 1];
        assert s[i][|p|] != s[j][|p|];
      } else if i == |a| {
        assert s[j] == b[j - |a| - 1];
        assert |s[j]| > |p|;
      } else {
        assert s[i] == b[i - |a| - 1] && s[j] == b[j - |a| - 1];
        assert DistinctAt(b, i - |a| - 1, j - |a| - 1);
      }
    }
    var s' := a + b + [p];
    forall i, j ensures DistinctAt(s', i, j) {
      if !(0 <= i < j < |s'|) {
      } else if j < |a| {
        assert DistinctAt(a, i, j);
      } else if i < |a| && j < |a| + |b| {
        assert s'[j] == b[j - |a|];
        assert s'[i][|p|] != s'[j][|p|];
      } else if i < |a| {
        assert |s'[i]| > |p|;
      } else if j < |a| + |b| {
        assert s'[i] == b[i - |a|] && s'[j] == b[j - |a|];
        assert DistinctAt(b, i - |a|, j - |a|);
      } else {
        assert s'[i] == b[i - |a|];
        assert |s'[i]| > |p|;
      }
    }
  }

  // ---------------------------------------------------------------------------
  // Inorder
  // ---------------------------------------------------------------------------

  /** The positions of the subtree at p: its left subtree, p, its right subtree. */
  function SubtreeInorder<T>(t: Tree<T>, p: Path): seq<Path>
    requires ValidPath(t, p)
    decreases Size(Subtree(t, p))
  {
    (match LeftOf(t, p) case Some(c) => SubtreeInorder(t, c) case None => [])
    + [p]
    + (match RightOf(t, p) case Some(c) => SubtreeInorder(t, c) case None => [])
  }

  /** An empty tree yields nothing; otherwise the inorder positions of the root's subtree. */
  function InorderPositions<T>(t: Tree<T>): (r: seq<Path>)
    ensures AllValid(t, r) && |r| == Size(t)
  {
    if t.Nil? then []
    else
      InorderValues(t, []);
      InorderVisitsAll(t);
      ValuesLength(t, SubtreeInorder(t, []));
      SubtreeInorder(t, [])
  }

  /** A binary tree's default position order is inorder: each node once, carrying the inorder labels. */
  function Positions<T>(t: Tree<T>): (r: seq<Path>)
    ensures AllValid(t, r) && Distinct(r)
    ensures Values(t, r) == Inorder(t)
  {
    InorderPositionsMatch(t);
    InorderPositions(t)
  }

  function InLeft<T>(t: Tree<T>, p: Path): seq<Path>
    requires ValidPath(t, p)
  {
    match LeftOf(t, p) case Some(c) => SubtreeInorder(t, c) case None => []
  }

  function InRight<T>(t: Tree<T>, p: Path): seq<Path>
    requires ValidPath(t, p)
  {
    match RightOf(t, p) case Some(c) => SubtreeInorder(t, c) case None => []
  }

  lemma InorderUnfold<T>(t: Tree<T>, p: Path)
    requires ValidPath(t, p)
    ensures SubtreeInorder(t, p) == InLeft(t, p) + [p] + InRight(t, p)
  {
  }

  lemma {:induction false} InorderValid<T>(t: Tree<T>, p: Path)
    requires ValidPath(t, p)
    ensures AllValid(t, SubtreeInorder(t, p))
    ensures forall i | 0 <= i < |SubtreeInorder(t, p)| :: Under(p, SubtreeInorder(t, p)[i])
    decreases Size(Subtree(t, p))
  {
    InorderUnfold(t, p);
    var a, b := InLeft(t, p), InRight(t, p);
    if LeftOf(t, p).Some? {
      InorderValid(t, p + [L]);
      forall i | 0 <= i < |a| ensures Under(p, a[i]) {
        UnderStep(p, L, a[i]);
      }
    }
    if RightOf(t, p).Some? {
      InorderValid(t, p + [R]);
      forall i | 0 <= i < |b| ensures Under(p, b[i]) {
        UnderStep(p, R, b[i]);
      }
    }
    ValuesAppend(t, a, [p]);
    ValuesAppend(t, a + [p], b);
  }

  lemma {:induction false} InorderDistinct<T>(t: Tree<T>, p: Path)
    requires ValidPath(t, p)
    ensures Distinct(SubtreeInorder(t, p))
    decreases Size(Subtree(t, p))
  {
    InorderUnfold(t, p);
    if LeftOf(t, p).Some? {
      InorderValid(t, p + [L]);
      InorderDistinct(t, p + [L]);
    }
    if RightOf(t, p).Some? {
      InorderValid(t, p + [R]);
      InorderDistinct(t, p + [R]);
    }
    DistinctJoin(InLeft(t, p), p, InRight(t, p));
  }

  lemma {:induction false} InorderValues<T>(t: Tree<T>, p: Path)
    requires ValidPath(t, p)
    ensures AllValid(t, SubtreeInorder(t, p))
    ensures Values(t, SubtreeInorder(t, p)) == Inorder(Subtree(t, p))
    decreases Size(Subtree(t, p))
  {
    InorderUnfold(t, p);
    InorderValid(t, p);
    var a, b := InLeft(t, p), InRight(t, p);
    var u := Subtree(t, p);
    if LeftOf(t, p).Some? {
      InorderValid(t, p + [L]);
      InorderValues(t, p + [L]);
    }
    assert Values(t, a) == Inorder(u.left);
    if RightOf(t, p).Some? {
      InorderValid(t, p + [R]);
      InorderValues(t, p + [R]);
    }
    assert Values(t, b) == Inorder(u.right);
    ValuesSingle(t, p);
    ValuesAppend(t, a, [p]);
    ValuesAppend(t, a + [p], b);
    assert Values(t, SubtreeInorder(t, p)) == Values(t, a) + [u.value] + Values(t, b);
  }

  /** The inorder positions are duplicate free and name, left to right, the labels of the value-level inorder traversal. */
  lemma InorderPositionsMatch<T>(t: Tree<T>)
    ensures AllValid(t, InorderPositions(t))
    ensures Values(t, InorderPositions(t)) == Inorder(t)
    ensures Distinct(InorderPositions(t))
  {
    if t.Node? {
      InorderValues(t, []);
      InorderDistinct(t, []);
    }
  }

  lemma InorderPositionsDistinct<T>(t: Tree<T>)
    ensures Distinct(InorderPositions(t))
  {
    if t.Node? {
      InorderDistinct(t, []);
    }
  }
  /** y follows x in inorder when the inorder sequence reads a, x, y, b. */
  lemma InorderNextIn<T>(t: Tree<T>, a: seq<Path>, x: Path, y: Path, b: seq<Path>)
    requires InorderPositions(t) == a + [x, y] + b
    ensures Next(InorderPositions(t), x) == Some(y)
  {
    InorderPositionsDistinct(t);
    NextIn(InorderPositions(t), a, x, y, b);
  }

  /** Nothing follows the last inorder position. */
  lemma InorderNextLast<T>(t: Tree<T>, a: seq<Path>, x: Path)
    requires InorderPositions(t) == a + [x]
    ensures Next(InorderPositions(t), x) == None
  {
    InorderPositionsDistinct(t);
    NextLastIn(InorderPositions(t), a, x);
  }


  /** The subtree at a valid position occupies a contiguous block of the whole inorder sequence. */
  lemma {:induction false} InorderBlock<T>(t: Tree<T>, q: Path) returns (a: seq<Path>, b: seq<Path>)
    requires ValidPath(t, q)
    ensures InorderPositions(t) == a + SubtreeInorder(t, q) + b
    decreases |q|
  {
    if q == [] {
      a, b := [], [];
    } else {
      var q0 := q[..|q| - 1];
      ParentValid(t, q);
      var a0, b0 := InorderBlock(t, q0);
      InorderUnfold(t, q0);
      SplitLast(q);
      var l, r := InLeft(t, q0), InRight(t, q0);
      if q[|q| - 1] == L {
        assert l == SubtreeInorder(t, q);
        BlockFirst(a0, l, [q0] + r, b0);
        a, b := a0, [q0] + r + b0;
      } else {
        assert r == SubtreeInorder(t, q);
        BlockLast(a0, l + [q0], r, b0);
        a, b := a0 + (l + [q0]), b0;
      }
    }
  }

  /** Follow left links from p: the first position of p's subtree in inorder. */
  function Leftmost<T>(t: Tree<T>, p: Path): (r: Path)
    requires ValidPath(t, p)
    ensures ValidPath(t, r) && LeftOf(t, r).None?
    ensures Under(p, r) && forall i | |p| <= i < |r| :: r[i] == L
    ensures r == SubtreeInorder(t, p)[0]
    decreases Size(Subtree(t, p))
  {
    InorderUnfold(t, p);
    match LeftOf(t, p)
    case None => p
    case Some(c) =>
      var r := Leftmost(t, c);
      UnderStep(p, L, r);
      InorderUnfold(t, c);
      r
  }

  /** When p is reached from w by right steps only and has no right child, p closes w's inorder block. */
  lemma {:induction false} InorderBlockEnd<T>(t: Tree<T>, w: Path, p: Path)
    requires ValidPath(t, w) && ValidPath(t, p) && Under(w, p)
    requires forall i | |w| <= i < |p| :: p[i] == R
    requires RightOf(t, p).None?
    ensures SubtreeInorder(t, w)[|SubtreeInorder(t, w)| - 1] == p
    decreases |p| - |w|
  {
    InorderUnfold(t, w);
    if |w| < |p| {
      assert p[..|w| + 1] == p[..|w|] + [p[|w|]];
      assert Under(w + [R], p);
      ParentValidUnder(t, w + [R], p);
      SubtreeAppend(t, w, R);
      InorderBlockEnd(t, w + [R], p);
      var s := SubtreeInorder(t, w + [R]);
      InorderUnfold(t, w + [R]);
      assert InRight(t, w) == s;
      assert SubtreeInorder(t, w) == (InLeft(t, w) + [w]) + s;
      assert SubtreeInorder(t, w)[|SubtreeInorder(t, w)| - 1] == s[|s| - 1];
    } else {
      assert w == p;
    }
  }

  /** A prefix of a valid path is valid. */
  lemma {:induction false} ParentValidUnder<T>(t: Tree<T>, w: Path, p: Path)
    requires ValidPath(t, p) && Under(w, p)
    ensures ValidPath(t, w)
    decreases |p| - |w|
  {
    if |w| < |p| {
      var p0 := p[..|p| - 1];
      ParentValid(t, p);
      assert p0[..|w|] == p[..|w|];
      ParentValidUnder(t, w, p0);
    } else {
      assert w == p[..|p|] == p;
    }
  }

  // ---------------------------------------------------------------------------
  // Successors in a sequence
  // ---------------------------------------------------------------------------

  /** The element after the first occurrence of x; None when x is last or absent. */
  function Next<T(==)>(s: seq<T>, x: T): Option<T> {
    if |s| < 2 then None
    else if s[0] == x then Some(s[1])
    else Next(s[1..], x)
  }

  lemma {:induction false} NextAfter<T>(a: seq<T>, x: T, y: T, b: seq<T>)
    requires x !in a
    ensures Next(a + [x, y] + b, x) == Some(y)
  {
    if a != [] {
      assert (a + [x, y] + b)[1..] == a[1..] + [x, y] + b;
      NextAfter(a[1..], x, y, b);
    }
  }

  lemma {:induction false} NextAtEnd<T>(a: seq<T>, x: T)
    requires x !in a
    ensures Next(a + [x], x) == None
  {
    if a != [] {
      assert (a + [x])[1..] == a[1..] + [x];
      NextAtEnd(a[1..], x);
    }
  }

  /** In a duplicate-free sequence the successor of s[i] is s[i+1], and there is none exactly for the last. */
  lemma NextAt<T>(s: seq<T>, i: nat)
    requires Distinct(s) && i < |s|
    ensures Next(s, s[i]) == if i + 1 < |s| then Some(s[i + 1]) else None
  {
    forall k | 0 <= k < i ensures s[k] != s[i] {
      assert DistinctAt(s, k, i);
    }
    assert s[i] !in s[..i];
    if i + 1 < |s| {
      assert s == s[..i] + [s[i], s[i + 1]] + s[i + 2..];
      NextAfter(s[..i], s[i], s[i + 1], s[i + 2..]);
    } else {
      assert s == s[..i] + [s[i]];
      NextAtEnd(s[..i], s[i]);
    }
  }

  /** In a duplicate-free s = a + [x, y] + b, y follows x. */
  lemma NextIn<T>(s: seq<T>, a: seq<T>, x: T, y: T, b: seq<T>)
    requires Distinct(s) && s == a + [x, y] + b
    ensures Next(s, x) == Some(y)
  {
    NotBefore(s, a, x, [y] + b);
    NextAfter(a, x, y, b);
  }

  /** In a duplicate-free s = a + [x], nothing follows x. */
  lemma NextLastIn<T>(s: seq<T>, a: seq<T>, x: T)
    requires Distinct(s) && s == a + [x]
    ensures Next(s, x) == None
  {
    NotBefore(s, a, x, []);
    NextAtEnd(a, x);
  }

  lemma BlockFirst<T>(a: seq<T>, x: seq<T>, y: seq<T>, b: seq<T>)
    ensures a + (x + y) + b == a + x + (y + b)
  {
  }

  lemma BlockLast<T>(a: seq<T>, x: seq<T>, y: seq<T>, b: seq<T>)
    ensures a + (x + y) + b == (a + x) + y + b
  {
  }

  lemma BlockOfThree<T>(a: seq<T>, x: seq<T>, y: seq<T>, z: seq<T>, b: seq<T>)
    ensures a + (x + y + z) + b == a + x + (y + z + b)
    ensures a + (x + y + z) + b == (a + x) + y + (z + b)
  {
  }

  lemma Regroup<T>(a: seq<T>, l: seq<T>, x: T, y: T, r: seq<T>, b: seq<T>)
    ensures a + (l + [x] + ([y] + r)) + b == (a + l) + [x, y] + (r + b)
  {
  }

  lemma RegroupLeft<T>(a: seq<T>, m: seq<T>, x: T, y: T, r: seq<T>, b: seq<T>)
    ensures a + ((m + [x]) + [y] + r) + b == (a + m) + [x, y] + (r + b)
  {
  }

  lemma RegroupEnd<T>(a: seq<T>, m: seq<T>, x: T, y: T, b: seq<T>)
    ensures a + ((m + [x]) + [] + [y]) + b == (a + m) + [x, y] + b
  {
  }

  lemma RegroupMid<T>(a: seq<T>, m: seq<T>, x: T, y: T, r: seq<T>, z: T, b: seq<T>)
    ensures a + ((m + [x]) + ([y] + r) + [z]) + b == (a + m) + [x, y] + (r + [z] + b)
  {
  }

  lemma RegroupRight<T>(a: seq<T>, l: seq<T>, m: seq<T>, x: T, y: T, b: seq<T>)
    ensures a + (l + (m + [x]) + [y]) + b == (a + l + m) + [x, y] + b
  {
  }

  lemma NotBefore<T>(s: seq<T>, a: seq<T>, x: T, b: seq<T>)
    requires Distinct(s) && s == a + [x] + b
    ensures x !in a
  {
    forall i | 0 <= i < |a| ensures a[i] != x {
      assert a[i] == s[i] && x == s[|a|] && DistinctAt(s, i, |a|);
    }
  }

  // ---------------------------------------------------------------------------
  // inorderNext
  // ---------------------------------------------------------------------------

  /**
   * The position after p in inorder. With a right child, the leftmost node of
   * the right subtree; otherwise climb while the walk is a right child and
   * return the parent reached from a left child, or None at the top.
   */
  method InorderNext<T>(t: Tree<T>, p: Path) returns (r: Option<Path>)
    requires ValidPath(t, p)
    ensures r == Next(InorderPositions(t), p)
    ensures RightOf(t, p).Some? ==>
      r.Some? && Under(p + [R], r.value) && ValidPath(t, r.value) && LeftOf(t, r.value).None?
    ensures RightOf(t, p).None? ==>
      (r.None? <==> forall i | 0 <= i < |p| :: p[i] == R) &&
      (r.Some? ==> Under(r.value, p) && |r.value| < |p| && p[|r.value|] == L &&
                   forall i | |r.value| < i < |p| :: p[i] == R)
  {
    var right := RightOf(t, p);
    if right.Some? {
      r := Some(Leftmost(t, right.value));
      InorderSuccessorBelow(t, p);
    } else {
      var walk := p;
      var parent := Parent(walk);
      if p != [] {
        ParentValid(t, p);
      }
      while parent.Some? && Some(walk) == RightOf(t, parent.value)
        invariant ValidPath(t, walk) && Under(walk, p)
        invariant parent == Parent(walk)
        invariant parent.Some? ==> ValidPath(t, parent.value)
        invariant forall i | |walk| <= i < |p| :: p[i] == R
        decreases |walk|
      {
        ParentValid(t, walk);
        assert walk[..|walk| - 1] == p[..|walk| - 1];
        walk := parent.value;
        parent := Parent(walk);
        if walk != [] {
          ParentValid(t, walk);
        }
      }
      r := parent;
      if parent.None? {
        InorderSuccessorAtTop(t, p);
      } else {
        InorderSuccessorAbove(t, walk, p);
        assert p[..|parent.value|] == walk[..|parent.value|];
      }
    }
  }

  /** With a right child, p is followed in inorder by the leftmost position of its right subtree. */
  lemma InorderSuccessorBelow<T>(t: Tree<T>, p: Path)
    requires ValidPath(t, p) && RightOf(t, p).Some?
    ensures Next(InorderPositions(t), p) == Some(Leftmost(t, p + [R]))
  {
    var lm := Leftmost(t, p + [R]);
    var a, b := InorderBlock(t, p);
    InorderUnfold(t, p);
    var lp, rp := InLeft(t, p), InRight(t, p);
    assert rp == SubtreeInorder(t, p + [R]);
    assert rp == [lm] + rp[1..];
    Regroup(a, lp, p, lm, rp[1..], b);
    InorderNextIn(t, a + lp, p, lm, rp[1..] + b);
  }

  /** A position reached from the root by right steps only, with no right child, is last in inorder. */
  lemma InorderSuccessorAtTop<T>(t: Tree<T>, p: Path)
    requires ValidPath(t, p) && RightOf(t, p).None?
    requires forall i | 0 <= i < |p| :: p[i] == R
    ensures Next(InorderPositions(t), p) == None
  {
    ParentValidUnder(t, [], p);
    InorderBlockEnd(t, [], p);
    var w := InorderPositions(t);
    SplitLast(w);
    InorderNextLast(t, w[..|w| - 1], p);
  }

  /**
   * When p has no right child and walk is the highest position above p
   * reached from p by right steps only, walk is a left child and its parent
   * follows p in inorder.
   */
  lemma InorderSuccessorAbove<T>(t: Tree<T>, walk: Path, p: Path)
    requires ValidPath(t, p) && RightOf(t, p).None?
    requires ValidPath(t, walk) && Under(walk, p) && walk != []
    requires ValidPath(t, walk[..|walk| - 1])
    requires forall i | |walk| <= i < |p| :: p[i] == R
    requires Some(walk) != RightOf(t, walk[..|walk| - 1])
    ensures walk[|walk| - 1] == L
    ensures Next(InorderPositions(t), p) == Some(walk[..|walk| - 1])
  {
    var up := walk[..|walk| - 1];
    var d := walk[|walk| - 1];
    SplitLast(walk);
    SubtreeAppend(t, up, d);
    var right := RightOf(t, up);
    assert d == R ==> right == Some(walk);
    InorderBlockEnd(t, walk, p);
    InorderAfterLeftBlock(t, up, p);
  }

  /** If p closes the inorder block of up's left child, up follows p. */
  lemma InorderAfterLeftBlock<T>(t: Tree<T>, up: Path, p: Path)
    requires ValidPath(t, up) && ValidPath(t, up + [L])
    requires SubtreeInorder(t, up + [L])[|SubtreeInorder(t, up + [L])| - 1] == p
    ensures Next(InorderPositions(t), p) == Some(up)
  {
    SubtreeAppend(t, up, L);
    var w := SubtreeInorder(t, up + [L]);
    var pre := w[..|w| - 1];
    assert w == pre + [p];
    var a0, b0 := InorderBlock(t, up);
    InorderUnfold(t, up);
    var rp := InRight(t, up);
    assert InLeft(t, up) == w;
    RegroupLeft(a0, pre, p, up, rp, b0);
    InorderNextIn(t, a0 + pre, p, up, rp + b0);
  }

  // ---------------------------------------------------------------------------
  // Postorder and postorderNext
  // ---------------------------------------------------------------------------

  /** The positions of the subtree at p: its left subtree, its right subtree, then p. */
  function SubtreePostorder<T>(t: Tree<T>, p: Path): seq<Path>
    requires ValidPath(t, p)
    decreases Size(Subtree(t, p))
  {
    (match LeftOf(t, p) case Some(c) => SubtreePostorder(t, c) case None => [])
    + (match RightOf(t, p) case Some(c) => SubtreePostorder(t, c) case None => [])
    + [p]
  }

  /** An empty tree yields nothing; otherwise the postorder positions of the root's subtree. */
  function PostorderPositions<T>(t: Tree<T>): (r: seq<Path>)
    ensures AllValid(t, r) && |r| == Size(t)
  {
    if t.Nil? then []
    else
      PostorderValues(t, []);
      PostorderVisitsAll(t);
      ValuesLength(t, SubtreePostorder(t, []));
      SubtreePostorder(t, [])
  }

  function PostLeft<T>(t: Tree<T>, p: Path): seq<Path>
    requires ValidPath(t, p)
  {
    match LeftOf(t, p) case Some(c) => SubtreePostorder(t, c) case None => []
  }

  function PostRight<T>(t: Tree<T>, p: Path): seq<Path>
    requires ValidPath(t, p)
  {
    match RightOf(t, p) case Some(c) => SubtreePostorder(t, c) case None => []
  }

  lemma PostorderUnfold<T>(t: Tree<T>, p: Path)
    requires ValidPath(t, p)
    ensures SubtreePostorder(t, p) == PostLeft(t, p) + PostRight(t, p) + [p]
  {
  }

  lemma {:induction false} PostorderValid<T>(t: Tree<T>, p: Path)
    requires ValidPath(t, p)
    ensures AllValid(t, SubtreePostorder(t, p))
    ensures forall i | 0 <= i < |SubtreePostorder(t, p)| :: Under(p, SubtreePostorder(t, p)[i])
    decreases Size(Subtree(t, p))
  {
    PostorderUnfold(t, p);
    var a, b := PostLeft(t, p), PostRight(t, p);
    if LeftOf(t, p).Some? {
      PostorderValid(t, p + [L]);
      forall i | 0 <= i < |a| ensures Under(p, a[i]) {
        UnderStep(p, L, a[i]);
      }
    }
    if RightOf(t, p).Some? {
      PostorderValid(t, p + [R]);
      forall i | 0 <= i < |b| ensures Under(p, b[i]) {
        UnderStep(p, R, b[i]);
      }
    }
    ValuesAppend(t, a, b);
    ValuesAppend(t, a + b, [p]);
  }

  lemma {:induction false} PostorderDistinct<T>(t: Tree<T>, p: Path)
    requires ValidPath(t, p)
    ensures Distinct(SubtreePostorder(t, p))
    decreases Size(Subtree(t, p))
  {
    PostorderUnfold(t, p);
    if LeftOf(t, p).Some? {
      PostorderValid(t, p + [L]);
      PostorderDistinct(t, p + [L]);
    }
    if RightOf(t, p).Some? {
      PostorderValid(t, p + [R]);
      PostorderDistinct(t, p + [R]);
    }
    DistinctJoin(PostLeft(t, p), p, PostRight(t, p));
  }

  lemma {:induction false} PostorderValues<T>(t: Tree<T>, p: Path)
    requires ValidPath(t, p)
    ensures AllValid(t, SubtreePostorder(t, p))
    ensures Values(t, SubtreePostorder(t, p)) == Postorder(Subtree(t, p))
    decreases Size(Subtree(t, p))
  {
    PostorderUnfold(t, p);
    PostorderValid(t, p);
    var a, b := PostLeft(t, p), PostRight(t, p);
    var u := Subtree(t, p);
    if LeftOf(t, p).Some? {
      PostorderValid(t, p + [L]);
      PostorderValues(t, p + [L]);
    }
    assert Values(t, a) == Postorder(u.left);
    if RightOf(t, p).Some? {
      PostorderValid(t, p + [R]);
      PostorderValues(t, p + [R]);
    }
    assert Values(t, b) == Postorder(u.right);
    ValuesSingle(t, p);
    ValuesAppend(t, a, b);
    ValuesAppend(t, a + b, [p]);
    assert Values(t, SubtreePostorder(t, p)) == Values(t, a) + Values(t, b) + [u.value];
  }

  /** The postorder positions are duplicate free and name, left to right, the labels of the value-level postorder traversal. */
  lemma PostorderPositionsMatch<T>(t: Tree<T>)
    ensures AllValid(t, PostorderPositions(t))
    ensures Values(t, PostorderPositions(t)) == Postorder(t)
    ensures Distinct(PostorderPositions(t))
  {
    if t.Node? {
      PostorderValues(t, []);
      PostorderDistinct(t, []);
    }
  }

  lemma PostorderPositionsDistinct<T>(t: Tree<T>)
    ensures Distinct(PostorderPositions(t))
  {
    if t.Node? {
      PostorderDistinct(t, []);
    }
  }
  /** y follows x in postorder when the postorder sequence reads a, x, y, b. */
  lemma PostorderNextIn<T>(t: Tree<T>, a: seq<Path>, x: Path, y: Path, b: seq<Path>)
    requires PostorderPositions(t) == a + [x, y] + b
    ensures Next(PostorderPositions(t), x) == Some(y)
  {
    PostorderPositionsDistinct(t);
    NextIn(PostorderPositions(t), a, x, y, b);
  }

  /** Nothing follows the last postorder position. */
  lemma PostorderNextLast<T>(t: Tree<T>, a: seq<Path>, x: Path)
    requires PostorderPositions(t) == a + [x]
    ensures Next(PostorderPositions(t), x) == None
  {
    PostorderPositionsDistinct(t);
    NextLastIn(PostorderPositions(t), a, x);
  }


  lemma {:induction false} PostorderBlock<T>(t: Tree<T>, q: Path) returns (a: seq<Path>, b: seq<Path>)
    requires ValidPath(t, q)
    ensures PostorderPositions(t) == a + SubtreePostorder(t, q) + b
    decreases |q|
  {
    if q == [] {
      a, b := [], [];
    } else {
      var q0 := q[..|q| - 1];
      ParentValid(t, q);
      var a0, b0 := PostorderBlock(t, q0);
      PostorderUnfold(t, q0);
      SplitLast(q);
      var l, r := PostLeft(t, q0), PostRight(t, q0);
      if q[|q| - 1] == L {
        assert l == SubtreePostorder(t, q);
        BlockOfThree(a0, l, r, [q0], b0);
        a, b := a0, r + [q0] + b0;
      } else {
        assert r == SubtreePostorder(t, q);
        BlockOfThree(a0, l, r, [q0], b0);
        a, b := a0 + l, [q0] + b0;
      }
    }
  }

  /** Descend to the left child if there is one, otherwise to the right child, until a leaf: the first position of p's subtree in postorder. */
  function FirstPostorder<T>(t: Tree<T>, p: Path): (r: Path)
    requires ValidPath(t, p)
    ensures ValidPath(t, r) && IsLeaf(Subtree(t, r)) && Under(p, r)
    ensures r == SubtreePostorder(t, p)[0]
    decreases Size(Subtree(t, p))
  {
    PostorderUnfold(t, p);
    match LeftOf(t, p)
    case Some(c) =>
      var r := FirstPostorder(t, c);
      UnderStep(p, L, r);
      PostorderUnfold(t, c);
      r
    case None =>
      match RightOf(t, p)
      case Some(c) =>
        var r := FirstPostorder(t, c);
        UnderStep(p, R, r);
        PostorderUnfold(t, c);
        r
      case None => p
  }

  /**
   * The position after p in postorder: None for the root; the parent when p
   * is a right child or the parent has no right child; otherwise the first
   * postorder position of the parent's right subtree.
   */
  function PostorderNext<T>(t: Tree<T>, p: Path): (r: Option<Path>)
    requires ValidPath(t, p)
    ensures r.None? <==> p == []
    ensures r.Some? ==> ValidPath(t, r.value) && r.value != p
  {
    match Parent(p)
    case None => None
    case Some(parent) =>
      ParentValid(t, p);
      if Some(p) == LeftOf(t, parent) then
        match RightOf(t, parent)
        case None => Some(parent)
        case Some(c) => Some(FirstPostorder(t, c))
      else Some(parent)
  }

  /** PostorderNext is the successor in the postorder sequence, and None exactly for the root, which comes last. */
  lemma PostorderNextIsSuccessor<T>(t: Tree<T>, p: Path)
    requires ValidPath(t, p)
    ensures PostorderNext(t, p) == Next(PostorderPositions(t), p)
    ensures PostorderNext(t, p).None? <==> p == []
  {
    if p == [] {
      var all := PostorderPositions(t);
      PostorderUnfold(t, []);
      SplitLast(all);
      PostorderNextLast(t, all[..|all| - 1], p);
    } else {
      var up := p[..|p| - 1];
      ParentValid(t, p);
      SplitLast(p);
      if p[|p| - 1] == L {
        assert LeftOf(t, up) == Some(p);
        if RightOf(t, up).None? {
          PostorderAfterLeft(t, up);
        } else {
          PostorderAfterLeftWithRight(t, up);
        }
      } else {
        assert LeftOf(t, up) != Some(p) by {
          if LeftOf(t, up).Some? { assert (up + [L])[|up|] != p[|up|]; }
        }
        assert RightOf(t, up) == Some(p);
        PostorderAfterRight(t, up);
      }
    }
  }

  /** The last position of the subtree at q is q itself. */
  lemma PostorderEndsAt<T>(t: Tree<T>, q: Path)
    requires ValidPath(t, q)
    ensures SubtreePostorder(t, q) == SubtreePostorder(t, q)[..|SubtreePostorder(t, q)| - 1] + [q]
  {
    PostorderUnfold(t, q);
  }

  /** A left child whose parent has no right child is followed by the parent. */
  lemma PostorderAfterLeft<T>(t: Tree<T>, up: Path)
    requires ValidPath(t, up) && LeftOf(t, up).Some? && RightOf(t, up).None?
    ensures Next(PostorderPositions(t), up + [L]) == Some(up)
  {
    var p := up + [L];
    var a, b := PostorderBlock(t, up);
    PostorderUnfold(t, up);
    PostorderEndsAt(t, p);
    var own := SubtreePostorder(t, p);
    var pre := own[..|own| - 1];
    assert PostLeft(t, up) == own;
    assert PostRight(t, up) == [];
    RegroupEnd(a, pre, p, up, b);
    PostorderNextIn(t, a + pre, p, up, b);
  }

  /** A left child whose parent has a right child is followed by the first postorder position of that right subtree. */
  lemma PostorderAfterLeftWithRight<T>(t: Tree<T>, up: Path)
    requires ValidPath(t, up) && LeftOf(t, up).Some? && RightOf(t, up).Some?
    ensures Next(PostorderPositions(t), up + [L]) == Some(FirstPostorder(t, up + [R]))
  {
    var p := up + [L];
    var a, b := PostorderBlock(t, up);
    PostorderUnfold(t, up);
    PostorderEndsAt(t, p);
    var own := SubtreePostorder(t, p);
    var pre := own[..|own| - 1];
    assert PostLeft(t, up) == own;
    var rp := PostRight(t, up);
    var f := FirstPostorder(t, up + [R]);
    assert rp == SubtreePostorder(t, up + [R]);
    PostorderUnfold(t, up + [R]);
    assert rp == [f] + rp[1..];
    RegroupMid(a, pre, p, f, rp[1..], up, b);
    PostorderNextIn(t, a + pre, p, f, rp[1..] + [up] + b);
  }

  /** A right child is followed by its parent. */
  lemma PostorderAfterRight<T>(t: Tree<T>, up: Path)
    requires ValidPath(t, up) && RightOf(t, up).Some?
    ensures Next(PostorderPositions(t), up + [R]) == Some(up)
  {
    var p := up + [R];
    var a, b := PostorderBlock(t, up);
    PostorderUnfold(t, up);
    PostorderEndsAt(t, p);
    var own := SubtreePostorder(t, p);
    var pre := own[..|own| - 1];
    assert PostRight(t, up) == own;
    var lp := PostLeft(t, up);
    RegroupRight(a, lp, pre, p, up, b);
    PostorderNextIn(t, a + lp + pre, p, up, b);
  }

  // ---------------------------------------------------------------------------
  // The single `_leftmost` helper
  // ---------------------------------------------------------------------------

  /** postorderNext with the follow-left-links helper that inorderNext needs. */
  function PostorderNextFollowingLeft<T>(t: Tree<T>, p: Path): (r: Option<Path>)
    requires ValidPath(t, p)
    ensures r.None? <==> p == []
    ensures r.Some? ==> ValidPath(t, r.value) && r.value != p
  {
    match Parent(p)
    case None => None
    case Some(parent) =>
      ParentValid(t, p);
      if Some(p) == LeftOf(t, parent) then
        match RightOf(t, parent)
        case None => Some(parent)
        case Some(c) => Some(Leftmost(t, c))
      else Some(parent)
  }

  /** The tree 1(2, 3(-, 4)): the root's right child has only a right child. */
  function ConflictTree(): Tree<int> {
    Node(Node(Nil, 2, Nil), 1, Node(Nil, 3, Node(Nil, 4, Nil)))
  }

  /** With the follow-left helper, postorderNext of 2 gives 3, but 4 follows 2 in postorder (2, 4, 3, 1). */
  lemma PostorderNextFollowingLeftIsWrong()
    ensures ValidPath(ConflictTree(), [L])
    ensures PostorderNextFollowingLeft(ConflictTree(), [L]) == Some([R])
    ensures Next(PostorderPositions(ConflictTree()), [L]) == Some([R, R])
  {
    var t := ConflictTree();
    assert Subtree(t, [L]) == Node(Nil, 2, Nil);
    assert Subtree(t, [R]) == Node(Nil, 3, Node(Nil, 4, Nil));
    assert [L][..0] == [] && [] + [L] == [L] && [] + [R] == [R];
    assert LeftOf(t, []) == Some([L]) && RightOf(t, []) == Some([R]);
    assert LeftOf(t, [R]).None?;
    assert Leftmost(t, [R]) == [R];
    PostorderNextIsSuccessor(t, [L]);
    assert [R] + [R] == [R, R];
    SubtreeAppend(t, [R], R);
    assert Subtree(t, [R, R]) == Node(Nil, 4, Nil);
    assert LeftOf(t, [R, R]).None? && RightOf(t, [R, R]).None?;
    assert FirstPostorder(t, [R, R]) == [R, R];
    assert RightOf(t, [R]) == Some([R, R]);
    assert FirstPostorder(t, [R]) == [R, R];
  }

  /**
   * inorderNext(1) and postorderNext(2) both call `_leftmost` on the same
   * position [R] (node 3), yet the first needs [R] back and the second [R, R]:
   * no single definition of the helper makes both successors correct.
   */
  lemma SharedHelperConflict()
    ensures RightOf(ConflictTree(), []) == Some([R])
    ensures Next(InorderPositions(ConflictTree()), []) == Some([R])
    ensures Next(PostorderPositions(ConflictTree()), [L]) == Some([R, R])
  {
    var t := ConflictTree();
    assert [] + [L] == [L] && [] + [R] == [R] && [R] + [R] == [R, R];
    assert Subtree(t, [L]) == Node(Nil, 2, Nil);
    assert Subtree(t, [R]) == Node(Nil, 3, Node(Nil, 4, Nil));
    SubtreeAppend(t, [R], R);
    assert Subtree(t, [R, R]) == Node(Nil, 4, Nil);
    InorderUnfold(t, [R, R]);
    assert SubtreeInorder(t, [R, R]) == [[R, R]];
    InorderUnfold(t, [R]);
    assert SubtreeInorder(t, [R]) == [[R], [R, R]];
    InorderUnfold(t, [L]);
    assert SubtreeInorder(t, [L]) == [[L]];
    InorderUnfold(t, []);
    assert InorderPositions(t) == [[L]] + [[], [R]] + [[R, R]];
    NextAfter([[L]], [], [R], [[R, R]]);
    PostorderNextFollowingLeftIsWrong();
  }

  // ---------------------------------------------------------------------------
  // The sample tree of the driver
  // ---------------------------------------------------------------------------

  /** The tree list_to_tree builds from the driver's list 1, 2, 3, None, 4, 5, 6 (BuildSample proves it). */
  function SampleTree(): Tree<int> {
    Node(Node(Nil, 2, Node(Nil, 4, Nil)), 1, Node(Node(Nil, 5, Nil), 3, Node(Nil, 6, Nil)))
  }

  lemma SampleTraversals()
    ensures Inorder(SampleTree()) == [2, 4, 1, 5, 3, 6]
    ensures Postorder(SampleTree()) == [4, 2, 5, 6, 3, 1]
  {
    var t := SampleTree();
    var n4, n5, n6 := Node(Nil, 4, Nil), Node(Nil, 5, Nil), Node(Nil, 6, Nil);
    assert Inorder(n4) == [4] && Inorder(n5) == [5] && Inorder(n6) == [6];
    assert Postorder(n4) == [4] && Postorder(n5) == [5] && Postorder(n6) == [6];
    var l, r := Node(Nil, 2, n4), Node(n5, 3, n6);
    assert Inorder(l) == [2, 4] && Postorder(l) == [4, 2];
    assert Inorder(r) == [5, 3, 6] && Postorder(r) == [5, 6, 3];
    assert t == Node(l, 1, r);
    assert Inorder(t) == [2, 4] + [1] + [5, 3, 6];
    assert Postorder(t) == [4, 2] + [5, 6, 3] + [1];
  }

  /** Read through positions, the sample tree's inorder and postorder sequences are 2 4 1 5 3 6 and 4 2 5 6 3 1. */
  lemma SamplePositions()
    ensures AllValid(SampleTree(), InorderPositions(SampleTree()))
    ensures Values(SampleTree(), InorderPositions(SampleTree())) == [2, 4, 1, 5, 3, 6]
    ensures AllValid(SampleTree(), PostorderPositions(SampleTree()))
    ensures Values(SampleTree(), PostorderPositions(SampleTree())) == [4, 2, 5, 6, 3, 1]
  {
    SampleTraversals();
    InorderPositionsMatch(SampleTree());
    PostorderPositionsMatch(SampleTree());
  }

  // ---------------------------------------------------------------------------
  // list_to_tree: building linked nodes from a level-order list
  // ---------------------------------------------------------------------------

  /** A node built from a level-order list; children are indices into the node sequence. */
  datatype TreeNode<T> = TreeNode(value: Option<T>, left: Option<nat>, right: Option<nat>)

  /** The values held by nodes, in order. */
  function NodeValues<T>(nodes: seq<TreeNode<T>>): (r: seq<Option<T>>)
    ensures |r| == |nodes|
  {
    if nodes == [] then [] else NodeValues(nodes[..|nodes| - 1]) + [nodes[|nodes| - 1].value]
  }

  /** Node k's children are the ones its slots 2k+1 and 2k+2 give. */
  ghost predicate SlotsPlaced<T>(values: seq<Option<T>>, nodes: seq<TreeNode<T>>, j: nat)
    requires j < |nodes|
  {
    nodes[j].left == SlotChild(values, 2 * j + 1) && nodes[j].right == SlotChild(values, 2 * j + 2)
  }

  /**
   * The level-order layout: the root holds values[0]; the other nodes hold the
   * present entries of values[1..] in order; node k's children come from
   * slots 2k+1 (left) and 2k+2 (right).
   */
  ghost predicate LevelOrderLayout<T>(values: seq<Option<T>>, nodes: seq<TreeNode<T>>) {
    (values == [] ==> nodes == []) &&
    (values != [] ==>
      NodeValues(nodes) == [values[0]] + Present(values, |values|) &&
      forall j | 0 <= j < |nodes| :: SlotsPlaced(values, nodes, j))
  }

  /** The nodes built after reading the slots before e. */
  ghost predicate Placed<T>(values: seq<Option<T>>, nodes: seq<TreeNode<T>>, e: nat)
    requires 1 <= e <= |values|
  {
    NodeValues(nodes) == [values[0]] + Present(values, e) &&
    forall j | 0 <= j < |nodes| ::
      nodes[j].left == SlotSeen(values, e, 2 * j + 1) && nodes[j].right == SlotSeen(values, e, 2 * j + 2)
  }

  /** Adding a node with a present slot's value as child `d` of node `current`. */
  lemma AddChildValues<T>(nodes: seq<TreeNode<T>>, current: nat, v: Option<T>, d: Dir)
    requires current < |nodes|
    ensures var n := nodes + [TreeNode(v, None, None)];
      var c := |nodes|;
      NodeValues(n[current := if d == L then n[current].(left := Some(c)) else n[current].(right := Some(c))])
        == NodeValues(nodes) + [v]
  {
    var n := nodes + [TreeNode(v, None, None)];
    var c := |nodes|;
    var n' := n[current := if d == L then n[current].(left := Some(c)) else n[current].(right := Some(c))];
    assert n'[..|n'| - 1] == nodes[current := n'[current]];
    UpdateKeepsValues(nodes, current, n'[current]);
  }

  lemma {:induction false} UpdateKeepsValues<T>(nodes: seq<TreeNode<T>>, j: nat, x: TreeNode<T>)
    requires j < |nodes| && x.value == nodes[j].value
    ensures NodeValues(nodes[j := x]) == NodeValues(nodes)
  {
    var m := nodes[j := x];
    if j < |nodes| - 1 {
      assert m[..|m| - 1] == nodes[..|nodes| - 1][j := x];
      UpdateKeepsValues(nodes[..|nodes| - 1], j, x);
    } else {
      assert m[..|m| - 1] == nodes[..|nodes| - 1];
    }
  }

  /**
   * Read slot s, which belongs to node current as child d: a present entry
   * becomes a new node, linked from current and queued.
   */
  method PlaceChild<T>(values: seq<Option<T>>, nodes: seq<TreeNode<T>>, queue: seq<nat>, current: nat, s: nat, d: Dir)
    returns (nodes': seq<TreeNode<T>>, queue': seq<nat>)
    requires s < |values| && current < |nodes| && s == 2 * current + (if d == L then 1 else 2)
    requires Placed(values, nodes, s)
    ensures Placed(values, nodes', s + 1)
    ensures |nodes'| == |nodes| + (if values[s].Some? then 1 else 0)
    ensures queue' == queue + (if values[s].Some? then [|nodes|] else [])
  {
    nodes', queue' := nodes, queue;
    if values[s].Some? {
      AddChildValues(nodes, current, values[s], d);
      nodes' := nodes + [TreeNode(values[s], None, None)];
      if d == L {
        nodes' := nodes'[current := nodes'[current].(left := Some(|nodes|))];
      } else {
        nodes' := nodes'[current := nodes'[current].(right := Some(|nodes|))];
      }
      queue' := queue + [|nodes|];
    }
    PlacedStep(values, nodes, nodes', current, s, d);
  }

  /** Reading slot s keeps every link Placed describes and adds the one slot s gives. */
  lemma PlacedStep<T>(values: seq<Option<T>>, nodes: seq<TreeNode<T>>, nodes': seq<TreeNode<T>>, current: nat, s: nat, d: Dir)
    requires s < |values| && current < |nodes| && s == 2 * current + (if d == L then 1 else 2)
    requires Placed(values, nodes, s)
    requires values[s].None? ==> nodes' == nodes
    requires values[s].Some? ==>
      NodeValues(nodes') == NodeValues(nodes) + [values[s]] &&
      var n := nodes + [TreeNode(values[s], None, None)];
      nodes' == n[current := if d == L then n[current].(left := Some(|nodes|)) else n[current].(right := Some(|nodes|))]
    ensures Placed(values, nodes', s + 1)
  {
    var grown := if values[s].Some? then [values[s]] else [];
    assert Present(values, s + 1) == Present(values, s) + grown;
    assert NodeValues(nodes') == ([values[0]] + Present(values, s)) + grown;
    AppendAssoc([values[0]], Present(values, s), grown);
    forall j | 0 <= j < |nodes'|
      ensures nodes'[j].left == SlotSeen(values, s + 1, 2 * j + 1)
      ensures nodes'[j].right == SlotSeen(values, s + 1, 2 * j + 2)
    {
      PlacedLink(values, nodes, nodes', current, s, d, j);
    }
  }

  lemma AppendAssoc<T>(a: seq<T>, b: seq<T>, c: seq<T>)
    ensures (a + b) + c == a + (b + c)
  {
  }

  /** The links of node j after reading slot s. */
  lemma PlacedLink<T>(values: seq<Option<T>>, nodes: seq<TreeNode<T>>, nodes': seq<TreeNode<T>>, current: nat, s: nat, d: Dir,
                      j: nat)
    requires s < |values| && current < |nodes| && s == 2 * current + (if d == L then 1 else 2)
    requires Placed(values, nodes, s)
    requires values[s].None? ==> nodes' == nodes
    requires values[s].Some? ==>
      var n := nodes + [TreeNode(values[s], None, None)];
      nodes' == n[current := if d == L then n[current].(left := Some(|nodes|)) else n[current].(right := Some(|nodes|))]
    requires j < |nodes'|
    ensures nodes'[j].left == SlotSeen(values, s + 1, 2 * j + 1)
    ensures nodes'[j].right == SlotSeen(values, s + 1, 2 * j + 2)
  {
    assert |nodes| == 1 + |Present(values, s)| by {
      assert |NodeValues(nodes)| == |[values[0]] + Present(values, s)|;
    }
    if j < |nodes| {
      assert nodes[j].left == SlotSeen(values, s, 2 * j + 1);
      assert nodes[j].right == SlotSeen(values, s, 2 * j + 2);
    }
  }

  lemma RangeGrow(lo: nat, n: nat, extra: seq<nat>)
    requires lo <= n && (extra == [] || extra == [n])
    ensures Range(lo, n) + extra == Range(lo, n + |extra|)
  {
    if extra != [] {
      RangeSnoc(lo, n);
    }
  }

  /**
   * One round of the scan: take node k from the front of the queue and read
   * its two slots i and i+1 (the second only if the list reaches it).
   */
  method ServeNode<T>(values: seq<Option<T>>, nodes: seq<TreeNode<T>>, queue: seq<nat>, i: nat)
    returns (nodes': seq<TreeNode<T>>, queue': seq<nat>)
    requires 1 <= i < |values| && queue != [] && i == 2 * queue[0] + 1 && queue[0] < |nodes|
    requires Placed(values, nodes, i)
    ensures |nodes| <= |nodes'| && queue' == queue[1..] + Range(|nodes|, |nodes'|)
    ensures Placed(values, nodes', if i + 2 < |values| then i + 2 else |values|)
  {
    var current := queue[0];
    queue' := queue[1..];
    nodes', queue' := PlaceChild(values, nodes, queue', current, i, L);
    ghost var n1 := nodes';
    RangeGrow(|nodes|, |nodes|, if values[i].Some? then [|nodes|] else []);
    if i + 1 < |values| {
      nodes', queue' := PlaceChild(values, nodes', queue', current, i + 1, R);
      RangeGrow(|nodes|, |n1|, if values[i + 1].Some? then [|n1|] else []);
    }
  }

  /**
   * Build nodes from a level-order list. The empty list gives no nodes. An
   * empty queue while entries remain is an error: the source's pop from an
   * empty list.
   */
  method ListToTree<T>(values: seq<Option<T>>) returns (r: Result<seq<TreeNode<T>>>)
    ensures r.Err? <==> exists k :: Starved(values, k)
    ensures r.Err? ==> r.error == Empty
    ensures r.Ok? ==> LevelOrderLayout(values, r.value)
  {
    if values == [] {
      return Ok([]);
    }
    var nodes := [TreeNode(values[0], None, None)];
    var queue: seq<nat> := [0];
    var i := 1;
    ghost var k: nat := 0;
    while i < |values|
      invariant i == 2 * k + 1 && k <= |nodes|
      invariant queue == Range(k, |nodes|)
      invariant Placed(values, nodes, if i < |values| then i else |values|)
      invariant forall k' | 0 <= k' < k :: !Starved(values, k')
      decreases |values| - i
    {
      if queue == [] {
        assert k == |nodes|;
        assert |NodeValues(nodes)| == 1 + |Present(values, i)|;
        assert Starved(values, k);
        return Err(Empty);
      }
      assert |NodeValues(nodes)| == 1 + |Present(values, i)|;
      assert !Starved(values, k);
      RangeFront(k, |nodes|);
      ghost var n0 := |nodes|;
      nodes, queue := ServeNode(values, nodes, queue, i);
      RangeAppend(k + 1, n0, |nodes|);
      i := i + 2;
      k := k + 1;
    }
    r := Ok(nodes);
    PlacedLayout(values, nodes);
    NeverStarved(values, k);
  }

  lemma PlacedLayout<T>(values: seq<Option<T>>, nodes: seq<TreeNode<T>>)
    requires values != [] && Placed(values, nodes, |values|)
    ensures LevelOrderLayout(values, nodes)
  {
    forall j | 0 <= j < |nodes| ensures SlotsPlaced(values, nodes, j) {
      assert nodes[j].left == SlotSeen(values, |values|, 2 * j + 1);
      assert nodes[j].right == SlotSeen(values, |values|, 2 * j + 2);
    }
  }

  lemma NeverStarved<T>(values: seq<Option<T>>, k: nat)
    requires 2 * k + 1 >= |values|
    requires forall k' | 0 <= k' < k :: !Starved(values, k')
    ensures !exists k' :: Starved(values, k')
  {
    forall k': nat ensures !Starved(values, k') {
      if k' >= k {
        assert 2 * k' + 1 >= |values|;
      }
    }
  }

  // ---------------------------------------------------------------------------
  // The driver's list, built and read back
  // ---------------------------------------------------------------------------

  /** The level-order list of the driver: 1, 2, 3, None, 4, 5, 6. */
  function SampleValues(): seq<Option<int>> {
    [Some(1), Some(2), Some(3), None, Some(4), Some(5), Some(6)]
  }

  /** Every node's children come after it in the node sequence. */
  ghost predicate Forward<T>(nodes: seq<TreeNode<T>>) {
    forall j | 0 <= j < |nodes| ::
      (nodes[j].left.Some? ==> j < nodes[j].left.value) && (nodes[j].right.Some? ==> j < nodes[j].right.value)
  }

  /** The tree hanging from node k of a node sequence; a missing index reads as no subtree. */
  function NodeTree<T>(nodes: seq<TreeNode<T>>, k: nat): Tree<Option<T>>
    requires Forward(nodes)
    decreases |nodes| - k
  {
    if k >= |nodes| then Nil
    else
      Node(match nodes[k].left case Some(c) => NodeTree(nodes, c) case None => Nil,
           nodes[k].value,
           match nodes[k].right case Some(c) => NodeTree(nodes, c) case None => Nil)
  }

  /** A tree of plain labels as a tree of present entries. */
  function LiftTree<T>(t: Tree<T>): Tree<Option<T>> {
    match t
    case Nil => Nil
    case Node(l, x, r) => Node(LiftTree(l), Some(x), LiftTree(r))
  }

  lemma {:induction false} NodeValuesAt<T>(nodes: seq<TreeNode<T>>, i: nat)
    requires i < |nodes|
    ensures NodeValues(nodes)[i] == nodes[i].value
    decreases |nodes|
  {
    if i < |nodes| - 1 {
      NodeValuesAt(nodes[..|nodes| - 1], i);
    }
  }

  /** The queue never runs dry on the driver's list. */
  lemma SampleNeverStarved()
    ensures !exists k :: Starved(SampleValues(), k)
  {
    var v := SampleValues();
    assert |Present(v, 3)| == 2 && |Present(v, 5)| == 3;
    forall k: nat ensures !Starved(v, k) {
      if 2 * k + 1 < |v| {
        assert k == 0 || k == 1 || k == 2;
      }
    }
  }

  /** The layout of the driver's list admits exactly one node sequence. */
  lemma SampleLayout(nodes: seq<TreeNode<int>>)
    requires LevelOrderLayout(SampleValues(), nodes)
    ensures nodes == [TreeNode(Some(1), Some(1), Some(2)), TreeNode(Some(2), None, Some(3)),
                      TreeNode(Some(3), Some(4), Some(5)), TreeNode(Some(4), None, None),
                      TreeNode(Some(5), None, None), TreeNode(Some(6), None, None)]
  {
    var v := SampleValues();
    assert Present(v, 2) == [Some(2)];
    assert Present(v, 4) == [Some(2), Some(3)];
    assert Present(v, 5) == [Some(2), Some(3), Some(4)];
    assert Present(v, 7) == [Some(2), Some(3), Some(4), Some(5), Some(6)];
    assert NodeValues(nodes) == [Some(1), Some(2), Some(3), Some(4), Some(5), Some(6)];
    forall j | 0 <= j < 6 ensures nodes[j].value == v[if j < 3 then j else j + 1] {
      NodeValuesAt(nodes, j);
    }
    assert SlotsPlaced(v, nodes, 0) && SlotsPlaced(v, nodes, 1) && SlotsPlaced(v, nodes, 2);
    assert SlotsPlaced(v, nodes, 3) && SlotsPlaced(v, nodes, 4) && SlotsPlaced(v, nodes, 5);
  }

  /**
   * The driver's build: list_to_tree of 1, 2, 3, None, 4, 5, 6 succeeds, and
   * the nodes read back from the root are the sample tree.
   */
  method BuildSample() returns (t: Tree<Option<int>>)
    ensures t == LiftTree(SampleTree())
  {
    var r := ListToTree(SampleValues());
    SampleNeverStarved();
    var nodes := r.value;
    SampleLayout(nodes);
    t := NodeTree(nodes, 0);
    assert NodeTree(nodes, 5) == Node(Nil, Some(6), Nil);
    assert NodeTree(nodes, 4) == Node(Nil, Some(5), Nil);
    assert NodeTree(nodes, 3) == Node(Nil, Some(4), Nil);
    assert NodeTree(nodes, 2) == Node(NodeTree(nodes, 4), Some(3), NodeTree(nodes, 5));
    assert NodeTree(nodes, 1) == Node(Nil, Some(2), NodeTree(nodes, 3));
  }
}
