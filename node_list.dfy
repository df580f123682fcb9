/** Nodes and list heads, and the two list helpers that measure and check a list.
    A circular doubly-linked list with a sentinel head is represented by the
    sequence of nodes met when walking `next` from the head back to the head. */
module NodeList {

  /** The C `long` of an LP64 platform (64-bit two's complement). */
  type Long = x: int | -0x8000_0000_0000_0000 <= x < 0x8000_0000_0000_0000

  /** `node_t`: a key and the links of one list. The sort relinks nodes but never
      changes a key, so the key is a constant and the node's identity is the object. */
  class Node {
    const value: Long

    constructor (value: Long)
      ensures this.value == value
    {
      this.value := value;
    }
  }

  /** A `struct list_head` used as a list's sentinel; `nodes` is the list from the
      first node (`head->next`) to the last (`head->prev`). */
  class ListHead {
    var nodes: seq<Node>

    /** `list_new` followed by `INIT_LIST_HEAD`: a fresh, empty list. */
    constructor ()
      ensures nodes == []
    {
      nodes := [];
    }
  }

  /** The keys of a list, in list order. */
  function Keys(s: seq<Node>): seq<Long>
  {
    seq(|s|, k requires 0 <= k < |s| => s[k].value)
  }

  /** No key is smaller than the key before it. */
  predicate NonDecreasing(keys: seq<int>)
  {
    forall k :: 0 < k < |keys| ==> keys[k - 1] <= keys[k]
  }

  /** What `list_is_ordered` checks of a list. */
  predicate Ordered(s: seq<Node>)
  {
    NonDecreasing(Keys(s))
  }

  /** Checking neighbours is enough: a non-decreasing sequence is sorted pairwise. */
  lemma {:induction false} NonDecreasingPairwise(keys: seq<int>)
    requires NonDecreasing(keys)
    ensures forall i, j :: 0 <= i <= j < |keys| ==> keys[i] <= keys[j]
  {
    if |keys| > 1 {
      var tail := keys[1..];
      assert NonDecreasing(tail) by {
        forall k | 0 < k < |tail| ensures tail[k - 1] <= tail[k] {
          assert tail[k - 1] == keys[k] && tail[k] == keys[k + 1];
        }
      }
      NonDecreasingPairwise(tail);
      forall i, j | 0 <= i <= j < |keys| ensures keys[i] <= keys[j] {
        if 0 < i {
          assert keys[i] == tail[i - 1] && keys[j] == tail[j - 1];
        } else if 0 < j {
          assert keys[1] == tail[0] && keys[j] == tail[j - 1];
        }
      }
    }
  }

  /** `list_length`: the number of nodes of a list; a null head has none. */
  method ListLength(head: ListHead?) returns (n: nat)
    ensures head == null ==> n == 0
    ensures head != null ==> n == |head.nodes|
  {
    if head == null {
      return 0;
    }
    n := 0;
    var rest := head.nodes;
    while rest != []
      invariant n + |rest| == |head.nodes|
    {
      n := n + 1;
      rest := rest[1..];
    }
  }

  /** `list_is_ordered`: true exactly when no node's key is smaller than its
      predecessor's. The running key is kept at full width (see README, Findings). */
  method ListIsOrdered(head: ListHead) returns (ordered: bool)
    ensures ordered <==> Ordered(head.nodes)
  {
    var first := true;
    var value: Long := 0;
    var seen := 0;
    var rest := head.nodes;
    while rest != []
      invariant seen + |rest| == |head.nodes|
      invariant rest == head.nodes[seen..]
      invariant first <==> seen == 0
      invariant !first ==> value == head.nodes[seen - 1].value
      invariant Ordered(head.nodes[..seen])
    {
      var entry := rest[0];
      rest := rest[1..];
      if first {
        value := entry.value;
        first := false;
      } else {
        if entry.value < value {
          assert Keys(head.nodes)[seen - 1] > Keys(head.nodes)[seen];
          return false;
        }
        value := entry.value;
      }
      seen := seen + 1;
      assert Keys(head.nodes[..seen]) == Keys(head.nodes[..seen - 1]) + [entry.value];
    }
    assert head.nodes[..seen] == head.nodes;
    return true;
  }
}
