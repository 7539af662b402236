/**
 * The singly linked FIFO queue that breadth-first traversal and list_to_tree
 * use. Nodes live in an arena keyed by id; `next` links run from head to tail.
 */
module LinkedQueues {
  import opened Wrappers

  datatype QNode<T> = QNode(element: T, next: Option<nat>)

  /**
   * Entry i of the chain is an allocated node holding the i-th element, and
   * it links to the node of entry i + 1 when there is one.
   */
  ghost predicate EntryAt<T>(nodes: map<nat, QNode<T>>, ids: seq<nat>, items: seq<T>, nextId: nat, i: int) {
    0 <= i < |ids| && |ids| == |items| ==>
      ids[i] in nodes && ids[i] < nextId && nodes[ids[i]].element == items[i] &&
      (i + 1 < |ids| ==> nodes[ids[i]].next == Some(ids[i + 1]))
  }

  class LinkedQueue<T> {
    var nodes: map<nat, QNode<T>>
    var head: Option<nat>
    var tail: Option<nat>
    var size: nat
    var nextId: nat
    /** The ids of the chain from head to tail. */
    ghost var ids: seq<nat>
    /** The queued elements, front first. */
    ghost var Contents: seq<T>

    /**
     * The chain visits ids in order: each node holds its element and links to
     * the next one, the last links nowhere, head and tail name the ends (both
     * absent when the queue is empty), and size counts the chain.
     */
    ghost predicate Valid()
      reads this
    {
      |ids| == |Contents| == size &&
      Distinct(ids) &&
      (forall i :: EntryAt(nodes, ids, Contents, nextId, i)) &&
      (ids != [] ==> ids[|ids| - 1] in nodes && nodes[ids[|ids| - 1]].next == None) &&
      head == (if ids == [] then None else Some(ids[0])) &&
      tail == (if ids == [] then None else Some(ids[|ids| - 1]))
    }

    constructor()
      ensures Valid() && Contents == []
    {
      nodes := map[];
      head, tail := None, None;
      size, nextId := 0, 0;
      ids, Contents := [], [];
    }

    function Len(): (r: nat)
      reads this
      requires Valid()
      ensures r == |Contents|
    {
      size
    }

    function IsEmpty(): (r: bool)
      reads this
      requires Valid()
      ensures r <==> Contents == []
    {
      size == 0
    }

    /** The front element, or Empty. */
    function First(): (r: Result<T>)
      reads this
      requires Valid()
      ensures Contents == [] ==> r == Err(Empty)
      ensures Contents != [] ==> r == Ok(Contents[0])
    {
      if size == 0 then Err(Empty)
      else
        assert EntryAt(nodes, ids, Contents, nextId, 0);
        Ok(nodes[head.value].element)
    }

    /** Remove and return the front element; the tail is cleared when the queue empties. */
    method Dequeue() returns (r: Result<T>)
      requires Valid()
      modifies this
      ensures Valid()
      ensures old(Contents) == [] ==> r == Err(Empty) && Contents == old(Contents)
      ensures old(Contents) != [] ==> r == Ok(old(Contents)[0]) && Contents == old(Contents)[1..]
      ensures Contents == [] ==> head.None? && tail.None?
    {
      if size == 0 {
        return Err(Empty);
      }
      assert EntryAt(nodes, ids, Contents, nextId, 0);
      assert nodes[ids[0]].next == if 1 < |ids| then Some(ids[1]) else None;
      var answer := nodes[head.value].element;
      head := nodes[head.value].next;
      size := size - 1;
      if size == 0 {
        tail := None;
      }
      DistinctTail(ids);
      ids, Contents := ids[1..], Contents[1..];
      forall i ensures EntryAt(nodes, ids, Contents, nextId, i) {
        assert EntryAt(nodes, old(ids), old(Contents), nextId, i + 1);
      }
      return Ok(answer);
    }

    /** Append e at the tail. */
    method Enqueue(e: T)
      requires Valid()
      modifies this
      ensures Valid()
      ensures Contents == old(Contents) + [e]
    {
      var newest := nextId;
      forall i | 0 <= i < |ids| ensures ids[i] != newest {
        assert EntryAt(nodes, ids, Contents, nextId, i);
      }
      DistinctSnoc(ids, newest);
      nextId := nextId + 1;
      nodes := nodes[newest := QNode(e, None)];
      if size == 0 {
        head := Some(newest);
      } else {
        var last := tail.value;
        forall i | 0 <= i < |ids| - 1 ensures ids[i] != last {
          assert DistinctAt(ids, i, |ids| - 1);
        }
        nodes := nodes[last := nodes[last].(next := Some(newest))];
      }
      tail := Some(newest);
      size := size + 1;
      ids, Contents := ids + [newest], Contents + [e];
      forall i ensures EntryAt(nodes, ids, Contents, nextId, i) {
        assert EntryAt(old(nodes), old(ids), old(Contents), old(nextId), i);
      }
    }
  }
}
