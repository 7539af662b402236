/**
 * Optional values, results, and the error conditions the library raises.
 */
module Wrappers {

  datatype Option<+T> = None | Some(value: T)

  /** The exceptions raised by the data structures, one constructor per raise site kind. */
  datatype Error =
    | Empty             // an element was requested from an empty container
    | NotOwned          // "p does not belong to this container"
    | NoLongerValid     // "p is no longer valid": the node was deleted
    | NotAPosition      // "p must be proper Position type" (here: no position at all)
    | RootExists        // "Root exists"
    | LeftChildExists   // "Left child exists"
    | RightChildExists  // "Right child exists"
    | TwoChildren       // "Position has two children"
    | NotLeaf           // "position must be leaf"

  datatype Result<+T> = Ok(value: T) | Err(error: Error)

  /** The elements at indices i and j differ, when i comes before j in s. */
  ghost predicate DistinctAt<T>(s: seq<T>, i: int, j: int) {
    0 <= i < j < |s| ==> s[i] != s[j]
  }

  /** Distinct elements: no value occurs twice. */
  ghost predicate Distinct<T>(s: seq<T>) {
    forall i, j :: DistinctAt(s, i, j)
  }

  /** Dropping the first element keeps the rest distinct. */
  lemma DistinctTail<T>(s: seq<T>)
    requires Distinct(s) && s != []
    ensures Distinct(s[1..])
  {
    forall i, j ensures DistinctAt(s[1..], i, j) {
      assert DistinctAt(s, i + 1, j + 1);
    }
  }

  /** Appending a new value keeps a sequence distinct. */
  lemma DistinctSnoc<T>(s: seq<T>, x: T)
    requires Distinct(s) && x !in s
    ensures Distinct(s + [x])
  {
    forall i, j ensures DistinctAt(s + [x], i, j) {
      assert DistinctAt(s, i, j);
    }
  }
}
