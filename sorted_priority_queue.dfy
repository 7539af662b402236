/**
 * The sorted priority queue over a positional list: a new item is placed by
 * walking backward from the last position while the new key is strictly
 * smaller, and goes right after the first item that is not greater (or at
 * the front). On a sorted list this is the same place the list-backed queue
 * chooses by scanning forward.
 */
module SortedPriorityQueues {
  import opened Wrappers
  import opened PositionalLists
  import opened SortedPriorityQueueList

  /**
   * The list after the backward walk: it goes right after the last item whose
   * key is not greater than its own, or at the front when there is none.
   */
  function InsertBackward<V>(s: seq<Item<V>>, it: Item<V>): (r: seq<Item<V>>)
    ensures |r| == |s| + 1
  {
    if s == [] then [it]
    else if it.key < s[|s| - 1].key then InsertBackward(s[..|s| - 1], it) + [s[|s| - 1]]
    else s + [it]
  }

  /** Where the walk stops: at k, with no greater key just in front of it and only greater keys from k on. */
  lemma {:induction false} InsertBackwardAt<V>(s: seq<Item<V>>, it: Item<V>, k: nat)
    requires k <= |s|
    requires k > 0 ==> s[k - 1].key <= it.key
    requires forall j | k <= j < |s| :: it.key < s[j].key
    ensures InsertBackward(s, it) == s[..k] + [it] + s[k..]
    decreases |s|
  {
    if k < |s| {
      var s' := s[..|s| - 1];
      InsertBackwardAt(s', it, k);
      assert s'[..k] == s[..k];
      assert s'[k..] + [s[|s| - 1]] == s[k..];
    } else if s != [] {
      assert s[..k] == s;
    }
  }

  /** Every item from index k on has a key greater than key; stated step by step, as the backward walk checks it. */
  ghost predicate GreaterFrom<V>(s: seq<Item<V>>, k: nat, key: int)
    decreases |s| - k
  {
    k < |s| ==> key < s[k].key && GreaterFrom(s, k + 1, key)
  }

  lemma {:induction false} GreaterFromAll<V>(s: seq<Item<V>>, k: nat, key: int)
    requires GreaterFrom(s, k, key)
    ensures forall j | k <= j < |s| :: key < s[j].key
    decreases |s| - k
  {
    if k < |s| {
      GreaterFromAll(s, k + 1, key);
    }
  }

  /** Where the walk of Add stops, the new item goes, and the list stays sorted. */
  lemma WalkStops<V>(s: seq<Item<V>>, it: Item<V>, k: nat)
    requires SortedByKey(s) && k <= |s|
    requires k > 0 ==> s[k - 1].key <= it.key
    requires forall j | k <= j < |s| :: it.key < s[j].key
    ensures InsertBackward(s, it) == s[..k] + [it] + s[k..]
    ensures SortedByKey(s[..k] + [it] + s[k..])
  {
    InsertBackwardAt(s, it, k);
    InsertionsAgree(s, it);
    InsertForwardSorted(s, it);
  }

  /**
   * On a sorted list the backward walk and the forward scan put the new item
   * at the same index; this is why the two queues hand out items in the same
   * order.
   */
  lemma InsertionsAgree<V>(s: seq<Item<V>>, it: Item<V>)
    requires SortedByKey(s)
    ensures InsertBackward(s, it) == InsertForward(s, it)
  {
    var k := InsertIndex(s, it);
    forall j | k <= j < |s| ensures it.key < s[j].key {
      assert KeysInOrder(s, k, j);
    }
    InsertBackwardAt(s, it, k);
    InsertForwardAt(s, it);
  }

  /** The list after adding the items in turn by the backward walk. */
  function AddAllBackward<V>(s: seq<Item<V>>, items: seq<Item<V>>): seq<Item<V>>
    decreases |items|
  {
    if items == [] then s else AddAllBackward(InsertBackward(s, items[0]), items[1..])
  }

  /** The list after adding the items in turn by the forward scan. */
  function AddAllForward<V>(s: seq<Item<V>>, items: seq<Item<V>>): seq<Item<V>>
    decreases |items|
  {
    if items == [] then s else AddAllForward(InsertForward(s, items[0]), items[1..])
  }

  /** For any sequence of adds from a sorted start, both queues hold the same list, which is sorted. */
  lemma {:induction false} AddsAgree<V>(s: seq<Item<V>>, items: seq<Item<V>>)
    requires SortedByKey(s)
    ensures AddAllBackward(s, items) == AddAllForward(s, items)
    ensures SortedByKey(AddAllForward(s, items))
    decreases |items|
  {
    if items != [] {
      InsertionsAgree(s, items[0]);
      InsertForwardSorted(s, items[0]);
      AddsAgree(InsertForward(s, items[0]), items[1..]);
    }
  }

  /**
   * Equal keys leave in the order they arrived: after adding a and then b
   * with a key no smaller, b sits behind a.
   */
  lemma TiesFirstInFirstOut<V>(s: seq<Item<V>>, a: Item<V>, b: Item<V>)
    requires SortedByKey(s) && a.key <= b.key
    ensures InsertBackward(s, a)[InsertIndex(s, a)] == a
    ensures InsertIndex(s, a) < InsertIndex(InsertBackward(s, a), b)
    ensures InsertBackward(InsertBackward(s, a), b)[InsertIndex(s, a)] == a
  {
    InsertionsAgree(s, a);
    InsertForwardSorted(s, a);
    InsertionsAgree(InsertForward(s, a), b);
    TiesForward(s, a, b);
  }

  lemma TiesForward<V>(s: seq<Item<V>>, a: Item<V>, b: Item<V>)
    requires SortedByKey(s) && a.key <= b.key
    ensures InsertForward(s, a)[InsertIndex(s, a)] == a
    ensures InsertIndex(s, a) < InsertIndex(InsertForward(s, a), b)
    ensures InsertForward(InsertForward(s, a), b)[InsertIndex(s, a)] == a
  {
    var i := InsertIndex(s, a);
    var s1 := InsertForward(s, a);
    InsertForwardStable(s, a);
    var k := InsertIndex(s1, b);
    if k <= i {
      assert false;
    }
    InsertForwardAt(s1, b);
    assert InsertForward(s1, b)[i] == s1[..k][i];
  }

  /** The source's demo: after adding keys 5, 9, 3, 7 the items run (3, B), (5, A), (7, D), (9, C). */
  lemma DemoOrder()
    ensures AddAllBackward([], [Item(5, "A"), Item(9, "C"), Item(3, "B"), Item(7, "D")])
            == [Item(3, "B"), Item(5, "A"), Item(7, "D"), Item(9, "C")]
  {
    var items := [Item(5, "A"), Item(9, "C"), Item(3, "B"), Item(7, "D")];
    var s1 := InsertBackward([], items[0]);
    assert s1 == [Item(5, "A")];
    var s2 := InsertBackward(s1, items[1]);
    assert s2 == [Item(5, "A"), Item(9, "C")];
    var s3 := InsertBackward(s2, items[2]);
    assert s2[..1] == [Item(5, "A")];
    assert [Item(5, "A")][..0] == [];
    assert InsertBackward([Item(5, "A")], items[2]) == [Item(3, "B"), Item(5, "A")];
    assert s3 == [Item(3, "B"), Item(5, "A"), Item(9, "C")];
    var s4 := InsertBackward(s3, items[3]);
    assert s3[..2] == [Item(3, "B"), Item(5, "A")];
    assert InsertBackward(s3[..2], items[3]) == [Item(3, "B"), Item(5, "A"), Item(7, "D")];
    assert s4 == [Item(3, "B"), Item(5, "A"), Item(7, "D"), Item(9, "C")];
    assert items[1..][1..][1..][1..] == [];
  }

  class SortedPriorityQueue<V> {
    /** The items in a positional list, smallest key first. */
    var data: PositionalList<Item<V>>

    ghost predicate Valid()
      reads this, data
    {
      data.Valid() && SortedByKey(data.Contents)
    }

    constructor()
      ensures Valid() && fresh(data) && data.Contents == []
    {
      data := new PositionalList();
    }

    function Len(): (r: nat)
      reads this, data
      requires Valid()
      ensures r == |data.Contents|
    {
      data.Len()
    }

    function IsEmpty(): (r: bool)
      reads this, data
      requires Valid()
      ensures r <==> data.Contents == []
    {
      Len() == 0
    }

    /**
     * Walk backward from the last position while the new key is strictly
     * smaller than the key there. The walk stops on the position just in
     * front of where the new item belongs, or on none when it belongs first.
     */
    method WalkBack(newest: Item<V>) returns (walk: Option<Position<Item<V>>>, ghost k: nat)
      requires data.Valid()
      ensures k <= |data.ids|
      ensures walk == if k == 0 then None else Some(Position(data, data.ids[k - 1]))
      ensures k > 0 ==> data.Contents[k - 1].key <= newest.key
      ensures forall j | k <= j < |data.Contents| :: newest.key < data.Contents[j].key
    {
      var list := data;
      ghost var ids, items := list.ids, list.Contents;
      walk := list.Last();
      k := |ids|;
      if 0 < k {
        list.PositionAt(k - 1);
      }
      while walk.Some? && newest.key < Element(walk.value).value.key
        invariant k <= |ids|
        invariant walk == if k == 0 then None else Some(Position(list, ids[k - 1]))
        invariant 0 < k ==> Element(walk.value) == Some(items[k - 1])
        invariant GreaterFrom(items, k, newest.key)
        decreases k
      {
        list.PositionAt(k - 1);
        walk := list.Before(walk.value).value;
        k := k - 1;
        if 0 < k {
          list.PositionAt(k - 1);
        }
      }
      GreaterFromAll(items, k, newest.key);
    }

    /**
     * Add a key-value pair: insert it right after where the backward walk
     * stopped, or at the front when it ran off the beginning.
     */
    method Add(key: int, value: V)
      requires Valid()
      modifies data
      ensures Valid()
      ensures data.Contents == InsertBackward(old(data.Contents), Item(key, value))
    {
      var newest := Item(key, value);
      var walk, k := WalkBack(newest);
      ghost var s := data.Contents;
      WalkStops(s, newest, k);
      if walk.None? {
        var _ := data.AddFirst(newest);
        assert data.Contents == s[..k] + [newest] + s[k..];
      } else {
        data.PositionAt(k - 1);
        FindIndex(data.ids, k - 1);
        var _ := data.AddAfter(walk.value, newest);
        assert data.Contents == s[..k] + [newest] + s[k..];
      }
    }

    /** The first item as a (key, value) pair, which has the smallest key; Empty when there is none. */
    function Min(): (r: Result<(int, V)>)
      reads this, data
      requires Valid()
      ensures data.Contents == [] ==> r == Err(Empty)
      ensures data.Contents != [] ==>
                r == Ok((data.Contents[0].key, data.Contents[0].value)) &&
                forall j | 0 <= j < |data.Contents| :: r.value.0 <= data.Contents[j].key
    {
      if IsEmpty() then Err(Empty)
      else
        var p := data.First().value;
        data.PositionAt(0);
        FindIndex(data.ids, 0);
        SortedFirstLeast(data.Contents);
        var item := Element(p).value;
        Ok((item.key, item.value))
    }

    /** Remove and return the first item as a (key, value) pair; Empty when there is none. */
    method RemoveMin() returns (r: Result<(int, V)>)
      requires Valid()
      modifies data
      ensures Valid()
      ensures r == old(Min())
      ensures old(data.Contents) == [] ==> data.Contents == []
      ensures old(data.Contents) != [] ==> data.Contents == old(data.Contents)[1..]
    {
      if IsEmpty() {
        return Err(Empty);
      }
      ghost var items := data.Contents;
      FindIndex(data.ids, 0);
      SortedTail(items);
      var removed := data.Delete(data.First().value);
      assert data.Contents == items[..0] + items[1..] == items[1..];
      var item := removed.value;
      return Ok((item.key, item.value));
    }
  }
}
