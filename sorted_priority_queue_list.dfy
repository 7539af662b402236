/**
 * The sorted priority queue over a plain list: items are kept in
 * nondecreasing key order, a new item goes in front of the first item with a
 * strictly greater key (or at the end), and the minimum is the first item.
 * The item order and the insertion rule are defined here once and shared
 * with the queue over a positional list.
 */
module SortedPriorityQueueList {
  import opened Wrappers

  /** A key-value pair; items compare by key alone. */
  datatype Item<V> = Item(key: int, value: V)

  /** When i comes before j in s, the key at i is no greater than the key at j. */
  ghost predicate KeysInOrder<V>(s: seq<Item<V>>, i: int, j: int) {
    0 <= i < j < |s| ==> s[i].key <= s[j].key
  }

  /** Keys never decrease along s. */
  ghost predicate SortedByKey<V>(s: seq<Item<V>>) {
    forall i, j :: KeysInOrder(s, i, j)
  }

  /** The first item of a sorted list has the least key. */
  lemma SortedFirstLeast<V>(s: seq<Item<V>>)
    requires SortedByKey(s) && s != []
    ensures forall j | 0 <= j < |s| :: s[0].key <= s[j].key
  {
    forall j | 0 <= j < |s| ensures s[0].key <= s[j].key {
      assert KeysInOrder(s, 0, j);
    }
  }

  /** Dropping the first item keeps a list sorted. */
  lemma SortedTail<V>(s: seq<Item<V>>)
    requires SortedByKey(s) && s != []
    ensures SortedByKey(s[1..])
  {
    forall i, j ensures KeysInOrder(s[1..], i, j) {
      assert KeysInOrder(s, i + 1, j + 1);
    }
  }

  /**
   * The list after the source's forward scan: it in front of the first item
   * whose key is strictly greater, or at the end when there is none.
   */
  function InsertForward<V>(s: seq<Item<V>>, it: Item<V>): (r: seq<Item<V>>)
    ensures |r| == |s| + 1
  {
    if s == [] then [it]
    else if it.key < s[0].key then [it] + s
    else [s[0]] + InsertForward(s[1..], it)
  }

  /** The index at which InsertForward puts the new item: the first strictly greater key, else the end. */
  function InsertIndex<V>(s: seq<Item<V>>, it: Item<V>): (i: nat)
    ensures i <= |s|
    ensures forall j | 0 <= j < i :: s[j].key <= it.key
    ensures i < |s| ==> it.key < s[i].key
  {
    if s == [] || it.key < s[0].key then 0
    else 1 + InsertIndex(s[1..], it)
  }

  /**
   * InsertForward splices the new item in at InsertIndex: every item keeps
   * its place relative to the others, the ones in front have keys no greater
   * than the new key and the ones behind have greater keys.
   */
  lemma {:induction false} InsertForwardAt<V>(s: seq<Item<V>>, it: Item<V>)
    ensures InsertForward(s, it) == s[..InsertIndex(s, it)] + [it] + s[InsertIndex(s, it)..]
  {
    if s != [] && !(it.key < s[0].key) {
      InsertForwardAt(s[1..], it);
      var i := InsertIndex(s[1..], it);
      assert s[..i + 1] == [s[0]] + s[1..][..i];
      assert s[i + 1..] == s[1..][i..];
    }
  }

  /** Any index splitting s into no-greater keys in front and greater keys behind is the insertion index. */
  lemma {:induction false} InsertIndexUnique<V>(s: seq<Item<V>>, it: Item<V>, i: nat)
    requires i <= |s|
    requires forall j | 0 <= j < i :: s[j].key <= it.key
    requires i < |s| ==> it.key < s[i].key
    ensures InsertIndex(s, it) == i
  {
    if s != [] && !(it.key < s[0].key) {
      assert i > 0;
      InsertIndexUnique(s[1..], it, i - 1);
    }
  }

  /** Inserting keeps the keys sorted. */
  lemma InsertForwardSorted<V>(s: seq<Item<V>>, it: Item<V>)
    requires SortedByKey(s)
    ensures SortedByKey(InsertForward(s, it))
  {
    InsertForwardAt(s, it);
    var i := InsertIndex(s, it);
    var r := InsertForward(s, it);
    forall a, b ensures KeysInOrder(r, a, b) {
      if !(0 <= a < b < |r|) {
      } else if a < i && b < i {
        assert r[a] == s[a] && r[b] == s[b] && KeysInOrder(s, a, b);
      } else if a < i && b == i {
        assert r[a] == s[a];
      } else if a < i {
        assert r[a] == s[a] && r[b] == s[b - 1] && KeysInOrder(s, a, b - 1);
      } else if a == i {
        assert r[b] == s[b - 1];
        assert i < |s|;
        assert KeysInOrder(s, i, b - 1);
      } else {
        assert r[a] == s[a - 1] && r[b] == s[b - 1] && KeysInOrder(s, a - 1, b - 1);
      }
    }
  }

  /**
   * Inserting adds exactly the new item: the items are the old ones plus it,
   * and removing the new item's slot gives back the old list in its order.
   */
  lemma InsertForwardContents<V>(s: seq<Item<V>>, it: Item<V>)
    ensures multiset(InsertForward(s, it)) == multiset(s) + multiset{it}
    ensures var i := InsertIndex(s, it);
            InsertForward(s, it)[i] == it && InsertForward(s, it)[..i] + InsertForward(s, it)[i + 1..] == s
  {
    InsertForwardAt(s, it);
    var i := InsertIndex(s, it);
    var r := InsertForward(s, it);
    assert s == s[..i] + s[i..];
    assert r[..i] == s[..i];
    assert r[i + 1..] == s[i..];
  }

  /**
   * Ties leave first in, first out: the new item lands behind every item
   * whose key equals its own, and in front of every item with a greater key.
   */
  lemma InsertForwardStable<V>(s: seq<Item<V>>, it: Item<V>)
    requires SortedByKey(s)
    ensures var i := InsertIndex(s, it);
            var r := InsertForward(s, it);
            r[i] == it &&
            (forall j | 0 <= j < i :: r[j].key <= it.key) &&
            (forall j | i < j < |r| :: it.key < r[j].key)
  {
    InsertForwardAt(s, it);
    var i := InsertIndex(s, it);
    var r := InsertForward(s, it);
    forall j | i < j < |r| ensures it.key < r[j].key {
      assert r[j] == s[j - 1];
      assert KeysInOrder(s, i, j - 1);
    }
  }

  /** The source's demo: adding keys 5, 9, 3, 7 orders them 3, 5, 7, 9. */
  lemma DemoOrder()
    ensures var s := InsertForward(InsertForward(InsertForward(InsertForward([], Item(5, "A")), Item(9, "C")), Item(3, "B")), Item(7, "D"));
            s == [Item(3, "B"), Item(5, "A"), Item(7, "D"), Item(9, "C")]
  {
  }

  class SortedPriorityQueue<V> {
    /** The items, smallest key first. */
    var data: seq<Item<V>>

    ghost predicate Valid()
      reads this
    {
      SortedByKey(data)
    }

    constructor()
      ensures Valid() && data == []
    {
      data := [];
    }

    function Len(): (r: nat)
      reads this
      ensures r == |data|
    {
      |data|
    }

    function IsEmpty(): (r: bool)
      reads this
      ensures r <==> data == []
    {
      Len() == 0
    }

    /**
     * Scan forward for the first item with a strictly greater key and insert
     * the new item in front of it; append it when there is none.
     */
    method Add(key: int, value: V)
      requires Valid()
      modifies this
      ensures data == InsertForward(old(data), Item(key, value))
      ensures Valid()
    {
      var newest := Item(key, value);
      InsertForwardSorted(data, newest);
      var i := 0;
      while i < |data|
        invariant i <= |data| && data == old(data)
        invariant forall j | 0 <= j < i :: data[j].key <= key
      {
        if newest.key < data[i].key {
          InsertIndexUnique(data, newest, i);
          InsertForwardAt(data, newest);
          data := data[..i] + [newest] + data[i..];
          return;
        }
        i := i + 1;
      }
      InsertIndexUnique(data, newest, i);
      InsertForwardAt(data, newest);
      assert data[..i] == data && data[i..] == [];
      data := data + [newest];
    }

    /** The first item as a (key, value) pair, which has the smallest key; Empty when there is none. */
    function Min(): (r: Result<(int, V)>)
      reads this
      requires Valid()
      ensures data == [] ==> r == Err(Empty)
      ensures data != [] ==> r == Ok((data[0].key, data[0].value)) &&
                             forall j | 0 <= j < |data| :: r.value.0 <= data[j].key
    {
      if IsEmpty() then Err(Empty)
      else
        SortedFirstLeast(data);
        Ok((data[0].key, data[0].value))
    }

    /** Remove and return the first item as a (key, value) pair; Empty when there is none. */
    method RemoveMin() returns (r: Result<(int, V)>)
      requires Valid()
      modifies this
      ensures Valid()
      ensures r == old(Min())
      ensures old(data) == [] ==> data == []
      ensures old(data) != [] ==> data == old(data)[1..]
    {
      if IsEmpty() {
        return Err(Empty);
      }
      var item := data[0];
      SortedTail(data);
      data := data[1..];
      return Ok((item.key, item.value));
    }
  }
}
