/**
 * The doubly linked positional list: a chain of nodes between two sentinel
 * nodes, the header and the trailer, with constant-time splice insertion and
 * removal. Nodes live in an arena keyed by id; the ghost sequence `ids`
 * records the interior of the chain from header to trailer and `Contents`
 * the elements along it. A deleted node has its element and both links
 * cleared, which is how positions are invalidated.
 */
module PositionalLists {
  import opened Wrappers

  /** A node: its element (none for the sentinels and for deleted nodes) and its neighbours' ids. */
  datatype LNode<T> = LNode(element: Option<T>, prev: Option<nat>, next: Option<nat>)

  /** A position: the list that handed it out and the id of its node. */
  datatype Position<T> = Position(container: PositionalList<T>, node: nat)

  /** The ids of the two sentinels; interior nodes get ids from 2 on. */
  const Header: nat := 0
  const Trailer: nat := 1

  /** The node a deleted node turns into. */
  function Deprecated<T>(): LNode<T> {
    LNode(None, None, None)
  }

  /** Node j of the whole chain header, ids..., trailer. */
  function ChainAt(ids: seq<nat>, j: nat): nat
    requires j <= |ids| + 1
  {
    if j == 0 then Header else if j <= |ids| then ids[j - 1] else Trailer
  }

  /** Interior ids are distinct and are not the sentinels' ids. */
  ghost predicate Interior(ids: seq<nat>) {
    Distinct(ids) && forall i | 0 <= i < |ids| :: 2 <= ids[i]
  }

  /** Chain node j links forward to chain node j+1, and that one back to it. */
  ghost predicate LinkAt<T>(m: map<nat, LNode<T>>, ids: seq<nat>, j: nat)
    requires j <= |ids|
  {
    ChainAt(ids, j) in m && ChainAt(ids, j + 1) in m &&
    m[ChainAt(ids, j)].next == Some(ChainAt(ids, j + 1)) &&
    m[ChainAt(ids, j + 1)].prev == Some(ChainAt(ids, j))
  }

  /** Each node of the chain links forward to the next one, and that one back to it. */
  ghost predicate Linked<T>(m: map<nat, LNode<T>>, ids: seq<nat>) {
    forall j | 0 <= j <= |ids| :: LinkAt(m, ids, j)
  }

  /** The index of x in s. */
  function Find(s: seq<nat>, x: nat): (i: nat)
    requires x in s
    ensures i < |s| && s[i] == x
  {
    if s[0] == x then 0 else 1 + Find(s[1..], x)
  }

  /** Find returns the first index holding the value. */
  lemma {:induction false} FindFirst(s: seq<nat>, k: nat)
    requires k < |s| && forall j | 0 <= j < k :: s[j] != s[k]
    ensures Find(s, s[k]) == k
  {
    if k > 0 {
      assert s[1..][k - 1] == s[k];
      FindFirst(s[1..], k - 1);
    }
  }

  lemma FindIndex(s: seq<nat>, k: nat)
    requires Distinct(s) && k < |s|
    ensures Find(s, s[k]) == k
  {
    forall j | 0 <= j < k ensures s[j] != s[k] {
      assert DistinctAt(s, j, k);
    }
    FindFirst(s, k);
  }

  /** The chain visits no node twice: it is acyclic. */
  lemma ChainDistinct(ids: seq<nat>, a: nat, b: nat)
    requires Interior(ids) && a <= |ids| + 1 && b <= |ids| + 1
    ensures ChainAt(ids, a) == ChainAt(ids, b) <==> a == b
  {
    if 1 <= a <= |ids| && 1 <= b <= |ids| {
      assert DistinctAt(ids, a - 1, b - 1) && DistinctAt(ids, b - 1, a - 1);
    }
  }

  /** The chain after inserting c at interior index i. */
  lemma ChainAtInsert(ids: seq<nat>, i: nat, c: nat, j: nat)
    requires i <= |ids| && j <= |ids| + 2
    ensures var ids' := ids[..i] + [c] + ids[i..];
            ChainAt(ids', j) == if j <= i then ChainAt(ids, j) else if j == i + 1 then c else ChainAt(ids, j - 1)
  {
  }

  /** The chain after removing interior index i. */
  lemma ChainAtRemove(ids: seq<nat>, i: nat, j: nat)
    requires i < |ids| && j <= |ids|
    ensures var ids' := ids[..i] + ids[i + 1..];
            ChainAt(ids', j) == if j <= i then ChainAt(ids, j) else ChainAt(ids, j + 1)
  {
  }

  /** The links after the primitive's insertion of node c holding e between pred and succ. */
  function SpliceIn<T>(m: map<nat, LNode<T>>, pred: nat, succ: nat, c: nat, e: T): map<nat, LNode<T>>
    requires pred in m && succ in m
  {
    var m1 := m[c := LNode(Some(e), Some(pred), Some(succ))];
    var m2 := m1[pred := m1[pred].(next := Some(c))];
    m2[succ := m2[succ].(prev := Some(c))]
  }

  /** The links after the primitive's removal of x from between pred and succ. */
  function SpliceOut<T>(m: map<nat, LNode<T>>, pred: nat, x: nat, succ: nat): map<nat, LNode<T>>
    requires pred in m && succ in m
  {
    var m1 := m[pred := m[pred].(next := Some(succ))];
    var m2 := m1[succ := m1[succ].(prev := Some(pred))];
    m2[x := Deprecated()]
  }

  /**
   * The state of a positional list: the header and trailer enclose the chain
   * of interior nodes ids, linked both ways; size counts them; each holds its
   * element; ids are handed out below nextId; and every other node has been
   * deleted.
   */
  ghost predicate ListState<T>(m: map<nat, LNode<T>>, ids: seq<nat>, contents: seq<T>, size: nat, nextId: nat) {
    Interior(ids) && |ids| == |contents| == size && 2 <= nextId &&
    Header in m && m[Header].prev == None && m[Header].element == None &&
    Trailer in m && m[Trailer].next == None && m[Trailer].element == None &&
    Linked(m, ids) &&
    (forall k | k in m :: k < nextId) &&
    (forall i | 0 <= i < |ids| :: ids[i] in m && m[ids[i]].element == Some(contents[i])) &&
    (forall k | k in m && 2 <= k && k !in ids :: m[k] == Deprecated())
  }

  /** Splicing a new node c between chain nodes i and i+1 links it into the chain there. */
  lemma InsertLinked<T>(m: map<nat, LNode<T>>, ids: seq<nat>, i: nat, c: nat, e: T)
    requires Interior(ids) && Linked(m, ids) && i <= |ids| && c !in m && 2 <= c
    ensures LinkAt(m, ids, i)
    ensures var ids' := ids[..i] + [c] + ids[i..];
            Interior(ids') && Linked(SpliceIn(m, ChainAt(ids, i), ChainAt(ids, i + 1), c, e), ids')
  {
    assert LinkAt(m, ids, i);
    var pred := ChainAt(ids, i);
    var succ := ChainAt(ids, i + 1);
    ChainDistinct(ids, i, i + 1);
    var m' := SpliceIn(m, pred, succ, c, e);
    var ids' := ids[..i] + [c] + ids[i..];
    assert c !in ids by {
      forall k | 0 <= k < |ids| ensures ids[k] != c {
        assert LinkAt(m, ids, k);
      }
    }
    assert Interior(ids') by {
      forall a, b ensures DistinctAt(ids', a, b) {
        if !(0 <= a < b < |ids'|) {
        } else if a < i && b < i {
          assert DistinctAt(ids, a, b);
        } else if b == i || a == i {
        } else if a < i {
          assert ids'[b] == ids[b - 1] && DistinctAt(ids, a, b - 1);
        } else {
          assert ids'[a] == ids[a - 1] && ids'[b] == ids[b - 1] && DistinctAt(ids, a - 1, b - 1);
        }
      }
    }
    forall j | 0 <= j <= |ids'| ensures LinkAt(m', ids', j) {
      ChainAtInsert(ids, i, c, j);
      ChainAtInsert(ids, i, c, j + 1);
      if j < i {
        assert LinkAt(m, ids, j);
        ChainDistinct(ids, j, i);
        ChainDistinct(ids, j, i + 1);
        ChainDistinct(ids, j + 1, i + 1);
      } else if j > i + 1 {
        assert LinkAt(m, ids, j - 1);
        ChainDistinct(ids, j - 1, i);
        ChainDistinct(ids, j, i);
        ChainDistinct(ids, j, i + 1);
      }
    }
  }

  /** Unlinking chain node i+1 (interior entry i) joins its neighbours. */
  lemma RemoveLinked<T>(m: map<nat, LNode<T>>, ids: seq<nat>, i: nat)
    requires Interior(ids) && Linked(m, ids) && i < |ids|
    ensures LinkAt(m, ids, i) && LinkAt(m, ids, i + 1)
    ensures Interior(ids[..i] + ids[i + 1..])
    ensures Linked(SpliceOut(m, ChainAt(ids, i), ids[i], ChainAt(ids, i + 2)), ids[..i] + ids[i + 1..])
  {
    assert LinkAt(m, ids, i) && LinkAt(m, ids, i + 1);
    var pred := ChainAt(ids, i);
    var x := ChainAt(ids, i + 1);
    var succ := ChainAt(ids, i + 2);
    ChainDistinct(ids, i, i + 1);
    ChainDistinct(ids, i, i + 2);
    ChainDistinct(ids, i + 1, i + 2);
    var m' := SpliceOut(m, pred, x, succ);
    var ids' := ids[..i] + ids[i + 1..];
    assert Interior(ids') by {
      forall a, b ensures DistinctAt(ids', a, b) {
        if !(0 <= a < b < |ids'|) {
        } else if b < i {
          assert DistinctAt(ids, a, b);
        } else if a < i {
          assert ids'[b] == ids[b + 1] && DistinctAt(ids, a, b + 1);
        } else {
          assert ids'[a] == ids[a + 1] && ids'[b] == ids[b + 1] && DistinctAt(ids, a + 1, b + 1);
        }
      }
    }
    forall j | 0 <= j <= |ids'| ensures LinkAt(m', ids', j) {
      ChainAtRemove(ids, i, j);
      ChainAtRemove(ids, i, j + 1);
      if j < i {
        assert LinkAt(m, ids, j);
        ChainDistinct(ids, j, i);
        ChainDistinct(ids, j, i + 1);
        ChainDistinct(ids, j, i + 2);
        ChainDistinct(ids, j + 1, i + 1);
        ChainDistinct(ids, j + 1, i + 2);
      } else if j > i {
        assert LinkAt(m, ids, j + 1);
        ChainDistinct(ids, j + 1, i);
        ChainDistinct(ids, j + 1, i + 1);
        ChainDistinct(ids, j + 1, i + 2);
        ChainDistinct(ids, j + 2, i);
        ChainDistinct(ids, j + 2, i + 1);
      }
    }
  }

  /** The primitive's insertion keeps a positional list well formed, with e as new entry i. */
  lemma InsertKeeps<T>(m: map<nat, LNode<T>>, ids: seq<nat>, contents: seq<T>, size: nat, nextId: nat, i: nat, e: T)
    requires ListState(m, ids, contents, size, nextId) && i <= |ids|
    ensures LinkAt(m, ids, i)
    ensures ListState(SpliceIn(m, ChainAt(ids, i), ChainAt(ids, i + 1), nextId, e),
                      ids[..i] + [nextId] + ids[i..], contents[..i] + [e] + contents[i..], size + 1, nextId + 1)
  {
    var c := nextId;
    InsertLinked(m, ids, i, c, e);
    var pred := ChainAt(ids, i);
    var succ := ChainAt(ids, i + 1);
    var m' := SpliceIn(m, pred, succ, c, e);
    var ids' := ids[..i] + [c] + ids[i..];
    var contents' := contents[..i] + [e] + contents[i..];
    forall j | 0 <= j < |ids'| ensures ids'[j] in m' && m'[ids'[j]].element == Some(contents'[j]) {
      if j < i {
        assert ids'[j] == ids[j] && contents'[j] == contents[j];
      } else if j > i {
        assert ids'[j] == ids[j - 1] && contents'[j] == contents[j - 1];
      }
    }
    forall k | k in m' && 2 <= k && k !in ids' ensures m'[k] == Deprecated() {
      assert k in m && k !in ids;
      assert pred == Header || pred in ids;
      assert succ == Trailer || succ in ids;
    }
  }

  /** The primitive's removal of entry i keeps a positional list well formed and deprecates the node. */
  lemma RemoveKeeps<T>(m: map<nat, LNode<T>>, ids: seq<nat>, contents: seq<T>, size: nat, nextId: nat, i: nat)
    requires ListState(m, ids, contents, size, nextId) && i < |ids|
    ensures LinkAt(m, ids, i) && LinkAt(m, ids, i + 1)
    ensures ids[i] in m && m[ids[i]].prev == Some(ChainAt(ids, i)) && m[ids[i]].next == Some(ChainAt(ids, i + 2))
    ensures m[ids[i]].element == Some(contents[i])
    ensures ListState(SpliceOut(m, ChainAt(ids, i), ids[i], ChainAt(ids, i + 2)),
                      ids[..i] + ids[i + 1..], contents[..i] + contents[i + 1..], size - 1, nextId)
  {
    RemoveLinked(m, ids, i);
    var pred := ChainAt(ids, i);
    var x := ids[i];
    var succ := ChainAt(ids, i + 2);
    ChainDistinct(ids, i, i + 1);
    ChainDistinct(ids, i, i + 2);
    ChainDistinct(ids, i + 1, i + 2);
    var m' := SpliceOut(m, pred, x, succ);
    var ids' := ids[..i] + ids[i + 1..];
    var contents' := contents[..i] + contents[i + 1..];
    forall j | 0 <= j < |ids'| ensures ids'[j] in m' && m'[ids'[j]].element == Some(contents'[j]) {
      if j < i {
        assert ids'[j] == ids[j] && contents'[j] == contents[j] && DistinctAt(ids, j, i);
      } else {
        assert ids'[j] == ids[j + 1] && contents'[j] == contents[j + 1] && DistinctAt(ids, i, j + 1);
      }
    }
    forall k | k in m' && 2 <= k && k !in ids' ensures m'[k] == Deprecated() {
      if k != x {
        assert k !in ids;
        assert pred == Header || pred in ids;
        assert succ == Trailer || succ in ids;
      }
    }
  }

  /**
   * The element a position holds. Like the source, this does not validate
   * the position: a deleted node holds no element.
   */
  function Element<T>(p: Position<T>): (r: Option<T>)
    reads p.container
    ensures p.container.Valid() && p.container.Validate(p).Ok? ==>
              r == Some(p.container.Contents[Find(p.container.ids, p.node)])
    ensures p.container.Valid() && p.container.Validate(p) == Err(NoLongerValid) ==> r == None
  {
    var c := p.container;
    if p.node in c.nodes then c.nodes[p.node].element else None
  }

  class PositionalList<T> {
    var nodes: map<nat, LNode<T>>
    var size: nat
    var nextId: nat
    /** The interior nodes, from the header's successor to the trailer's predecessor. */
    ghost var ids: seq<nat>
    /** The elements along the chain. */
    ghost var Contents: seq<T>

    /** The fields form a well-formed positional list (see ListState). */
    ghost predicate Valid()
      reads this
    {
      ListState(nodes, ids, Contents, size, nextId)
    }

    constructor()
      ensures Valid() && Contents == [] && ids == []
    {
      nodes := map[Header := LNode(None, None, Some(Trailer)), Trailer := LNode(None, Some(Header), None)];
      size := 0;
      nextId := 2;
      ids, Contents := [], [];
    }

    function Len(): (r: nat)
      reads this
      requires Valid()
      ensures r == |Contents|
    {
      size
    }

    function IsEmpty(): (r: bool)
      reads this
      requires Valid()
      ensures r <==> Contents == []
    {
      size == 0
    }

    /**
     * The node of a position that belongs to this list and has not been
     * deleted; otherwise the error the source raises. A deleted node is told
     * by its cleared forward link.
     */
    function Validate(p: Position<T>): (r: Result<nat>)
      reads this
      requires Valid()
      ensures r.Ok? <==> p.container == this && p.node in ids
      ensures r.Ok? ==> r.value == p.node
      ensures r.Err? && (p.container != this || p.node !in nodes || p.node < 2) ==> r.error == NotOwned
      ensures r.Err? && p.container == this && p.node in nodes && 2 <= p.node ==> r.error == NoLongerValid
    {
      LinksOf(p.node);
      if p.container != this || p.node !in nodes || p.node == Header || p.node == Trailer then Err(NotOwned)
      else if nodes[p.node].next.None? then Err(NoLongerValid)
      else Ok(p.node)
    }

    /** An interior node links to its neighbours in the chain. */
    lemma LinksOf(x: nat)
      requires Valid()
      ensures x in ids ==>
                var i := Find(ids, x);
                ChainAt(ids, i + 1) == x && x in nodes &&
                nodes[x].prev == Some(ChainAt(ids, i)) && nodes[x].next == Some(ChainAt(ids, i + 2))
    {
      if x in ids {
        var i := Find(ids, x);
        assert LinkAt(nodes, ids, i) && LinkAt(nodes, ids, i + 1);
      }
    }

    /** The position of entry k holds the k-th element, and the one before it is that of entry k-1 (none for the first). */
    lemma PositionAt(k: nat)
      requires Valid() && k < |ids|
      ensures Element(Position(this, ids[k])) == Some(Contents[k])
      ensures Before(Position(this, ids[k])) == Ok(if k == 0 then None else Some(Position(this, ids[k - 1])))
    {
      FindIndex(ids, k);
    }

    /** The position of a node, none for the sentinels. */
    function MakePosition(id: nat): (r: Option<Position<T>>)
      ensures r.None? <==> id == Header || id == Trailer
      ensures r.Some? ==> r.value.container == this && r.value.node == id
    {
      if id == Header || id == Trailer then None else Some(Position(this, id))
    }

    /** The first position, none when the list is empty. */
    function First(): (r: Option<Position<T>>)
      reads this
      requires Valid()
      ensures r == if ids == [] then None else Some(Position(this, ids[0]))
    {
      assert LinkAt(nodes, ids, 0);
      MakePosition(nodes[Header].next.value)
    }

    /** The last position, none when the list is empty. */
    function Last(): (r: Option<Position<T>>)
      reads this
      requires Valid()
      ensures r == if ids == [] then None else Some(Position(this, ids[|ids| - 1]))
    {
      assert LinkAt(nodes, ids, |ids|);
      MakePosition(nodes[Trailer].prev.value)
    }

    /** The position just before p, none when p is the first. */
    function Before(p: Position<T>): (r: Result<Option<Position<T>>>)
      reads this
      requires Valid()
      ensures Validate(p).Err? ==> r == Err(Validate(p).error)
      ensures Validate(p).Ok? ==>
                var i := Find(ids, p.node);
                r == Ok(if i == 0 then None else Some(Position(this, ids[i - 1])))
    {
      match Validate(p)
      case Err(e) => Err(e)
      case Ok(x) =>
        LinksOf(x);
        Ok(MakePosition(nodes[x].prev.value))
    }

    /** The position just after p, none when p is the last. */
    function After(p: Position<T>): (r: Result<Option<Position<T>>>)
      reads this
      requires Valid()
      ensures Validate(p).Err? ==> r == Err(Validate(p).error)
      ensures Validate(p).Ok? ==>
                var i := Find(ids, p.node);
                r == Ok(if i == |ids| - 1 then None else Some(Position(this, ids[i + 1])))
    {
      match Validate(p)
      case Err(e) => Err(e)
      case Ok(x) =>
        LinksOf(x);
        Ok(MakePosition(nodes[x].next.value))
    }

    /** Walk the chain from the first position by repeated After, collecting the elements. */
    method Iterate() returns (r: seq<T>)
      requires Valid()
      ensures r == Contents
    {
      r := [];
      var cursor := First();
      ghost var k := 0;
      while cursor.Some?
        invariant k <= |ids| && r == Contents[..k]
        invariant cursor == if k < |ids| then Some(Position(this, ids[k])) else None
        decreases |ids| - k
      {
        FindIndex(ids, k);
        r := r + [Element(cursor.value).value];
        cursor := After(cursor.value).value;
        assert Contents[..k + 1] == Contents[..k] + [Contents[k]];
        k := k + 1;
      }
      assert Contents[..|ids|] == Contents;
    }

    // -------------------------------------------------------------------------
    // The linked-list primitive: no validation at this layer
    // -------------------------------------------------------------------------

    /**
     * Link a new node holding e between chain nodes pred and succ, which are
     * neighbours (chain entries i and i+1); it becomes interior entry i.
     */
    method InsertBetween(e: T, pred: nat, succ: nat, ghost i: nat) returns (p: Position<T>)
      requires Valid() && i <= |ids| && pred == ChainAt(ids, i) && succ == ChainAt(ids, i + 1)
      modifies this
      ensures Valid()
      ensures p == Position(this, old(nextId)) && nextId == old(nextId) + 1
      ensures ids == old(ids)[..i] + [p.node] + old(ids)[i..]
      ensures Contents == old(Contents)[..i] + [e] + old(Contents)[i..]
    {
      var c := nextId;
      InsertKeeps(nodes, ids, Contents, size, nextId, i, e);
      ghost var m := nodes;
      nodes := nodes[c := LNode(Some(e), Some(pred), Some(succ))];
      nodes := nodes[pred := nodes[pred].(next := Some(c))];
      nodes := nodes[succ := nodes[succ].(prev := Some(c))];
      assert nodes == SpliceIn(m, pred, succ, c, e);
      size := size + 1;
      nextId := nextId + 1;
      ids, Contents := ids[..i] + [c] + ids[i..], Contents[..i] + [e] + Contents[i..];
      return Position(this, c);
    }

    /** Unlink the interior node x (entry i) and return its element; its element and links are cleared. */
    method DeleteNode(x: nat, ghost i: nat) returns (e: T)
      requires Valid() && i < |ids| && x == ids[i]
      modifies this
      ensures Valid()
      ensures e == old(Contents)[i]
      ensures ids == old(ids)[..i] + old(ids)[i + 1..]
      ensures Contents == old(Contents)[..i] + old(Contents)[i + 1..]
      ensures nextId == old(nextId) && x in nodes && nodes[x] == Deprecated()
    {
      RemoveKeeps(nodes, ids, Contents, size, nextId, i);
      ghost var m := nodes;
      var pred := nodes[x].prev.value;
      var succ := nodes[x].next.value;
      nodes := nodes[pred := nodes[pred].(next := Some(succ))];
      nodes := nodes[succ := nodes[succ].(prev := Some(pred))];
      size := size - 1;
      e := nodes[x].element.value;
      nodes := nodes[x := Deprecated()];
      assert nodes == SpliceOut(m, pred, x, succ);
      ids, Contents := ids[..i] + ids[i + 1..], Contents[..i] + Contents[i + 1..];
    }

    // -------------------------------------------------------------------------
    // Positional updates
    // -------------------------------------------------------------------------

    /** Insert e at the front and return its position. */
    method AddFirst(e: T) returns (p: Position<T>)
      requires Valid()
      modifies this
      ensures Valid()
      ensures p == Position(this, old(nextId)) && ids == [p.node] + old(ids)
      ensures Contents == [e] + old(Contents)
    {
      assert LinkAt(nodes, ids, 0);
      p := InsertBetween(e, Header, nodes[Header].next.value, 0);
    }

    /** Insert e at the back and return its position. */
    method AddLast(e: T) returns (p: Position<T>)
      requires Valid()
      modifies this
      ensures Valid()
      ensures p == Position(this, old(nextId)) && ids == old(ids) + [p.node]
      ensures Contents == old(Contents) + [e]
    {
      assert LinkAt(nodes, ids, |ids|);
      p := InsertBetween(e, nodes[Trailer].prev.value, Trailer, |ids|);
      assert old(ids)[..|old(ids)|] == old(ids) && old(Contents)[..|old(Contents)|] == old(Contents);
    }

    /** Insert e just before p and return its position; the error of an invalid p changes nothing. */
    method AddBefore(p: Position<T>, e: T) returns (r: Result<Position<T>>)
      requires Valid()
      modifies this
      ensures Valid()
      ensures old(Validate(p)).Err? ==> r == Err(old(Validate(p)).error) && unchanged(this)
      ensures old(Validate(p)).Ok? ==>
                var i := Find(old(ids), p.node);
                r == Ok(Position(this, old(nextId))) &&
                ids == old(ids)[..i] + [old(nextId)] + old(ids)[i..] &&
                Contents == old(Contents)[..i] + [e] + old(Contents)[i..]
    {
      var v := Validate(p);
      if v.Err? {
        return Err(v.error);
      }
      var original := v.value;
      var i := Find(ids, original);
      LinksOf(original);
      var q := InsertBetween(e, nodes[original].prev.value, original, i);
      return Ok(q);
    }

    /** Insert e just after p and return its position; the error of an invalid p changes nothing. */
    method AddAfter(p: Position<T>, e: T) returns (r: Result<Position<T>>)
      requires Valid()
      modifies this
      ensures Valid()
      ensures old(Validate(p)).Err? ==> r == Err(old(Validate(p)).error) && unchanged(this)
      ensures old(Validate(p)).Ok? ==>
                var i := Find(old(ids), p.node) + 1;
                r == Ok(Position(this, old(nextId))) &&
                ids == old(ids)[..i] + [old(nextId)] + old(ids)[i..] &&
                Contents == old(Contents)[..i] + [e] + old(Contents)[i..]
    {
      var v := Validate(p);
      if v.Err? {
        return Err(v.error);
      }
      var original := v.value;
      var i := Find(ids, original);
      LinksOf(original);
      var q := InsertBetween(e, original, nodes[original].next.value, i + 1);
      return Ok(q);
    }

    /**
     * Remove the element at p and return it; p is invalid from then on. The
     * error of an invalid p changes nothing.
     */
    method Delete(p: Position<T>) returns (r: Result<T>)
      requires Valid()
      modifies this
      ensures Valid()
      ensures old(Validate(p)).Err? ==> r == Err(old(Validate(p)).error) && unchanged(this)
      ensures old(Validate(p)).Ok? ==>
                var i := Find(old(ids), p.node);
                r == Ok(old(Contents)[i]) &&
                ids == old(ids)[..i] + old(ids)[i + 1..] &&
                Contents == old(Contents)[..i] + old(Contents)[i + 1..] &&
                nextId == old(nextId) &&
                Validate(p) == Err(NoLongerValid)
    {
      var v := Validate(p);
      if v.Err? {
        return Err(v.error);
      }
      var original := v.value;
      var i := Find(ids, original);
      var e := DeleteNode(original, i);
      FindIndex(old(ids), i);
      forall j | 0 <= j < |ids| ensures ids[j] != original {
        if j < i {
          assert ids[j] == old(ids)[j];
        } else {
          assert ids[j] == old(ids)[j + 1];
        }
      }
      return Ok(e);
    }

    /**
     * Put e at p and return the element it replaces; only that element
     * changes and p stays valid. The error of an invalid p changes nothing.
     */
    method Replace(p: Position<T>, e: T) returns (r: Result<T>)
      requires Valid()
      modifies this
      ensures Valid()
      ensures old(Validate(p)).Err? ==> r == Err(old(Validate(p)).error) && unchanged(this)
      ensures old(Validate(p)).Ok? ==>
                var i := Find(old(ids), p.node);
                r == Ok(old(Contents)[i]) &&
                ids == old(ids) && nextId == old(nextId) &&
                Contents == old(Contents)[i := e] &&
                Validate(p).Ok?
    {
      var v := Validate(p);
      if v.Err? {
        return Err(v.error);
      }
      var original := v.value;
      ghost var i := Find(ids, original);
      LinksOf(original);
      var previous := nodes[original].element.value;
      ghost var m := nodes;
      nodes := nodes[original := nodes[original].(element := Some(e))];
      Contents := Contents[i := e];
      assert Linked(nodes, ids) by {
        forall j | 0 <= j <= |ids| ensures LinkAt(nodes, ids, j) {
          assert LinkAt(m, ids, j);
        }
      }
      forall j | 0 <= j < |ids| ensures ids[j] in nodes && nodes[ids[j]].element == Some(Contents[j]) {
        if j < i {
          assert DistinctAt(ids, j, i);
        } else if j > i {
          assert DistinctAt(ids, i, j);
        }
      }
      return Ok(previous);
    }
  }
}
