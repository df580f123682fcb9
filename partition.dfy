/** One partitioning step of the sort: the first node of a slot becomes the pivot
    and every other node is moved, by insertion at the front, into `left` (key at
    most the pivot's) or `right` (key above it). */
module Partitioning {
  import opened NodeList

  /** The nodes of `s`, in order, whose key is at most `pivot`. */
  function AtMost(s: seq<Node>, pivot: int): (r: seq<Node>)
  {
    if s == [] then []
    else (if s[0].value <= pivot then [s[0]] else []) + AtMost(s[1..], pivot)
  }

  /** The nodes of `s`, in order, whose key is above `pivot`. */
  function Above(s: seq<Node>, pivot: int): (r: seq<Node>)
  {
    if s == [] then []
    else (if s[0].value > pivot then [s[0]] else []) + Above(s[1..], pivot)
  }

  /** The two filters split a list by key: every node lands in exactly one of
      them, those in `AtMost` have a key at most the pivot, those in `Above` one
      above it. */
  lemma {:induction false} AtMostAbovePartition(s: seq<Node>, pivot: int)
    ensures multiset(AtMost(s, pivot)) + multiset(Above(s, pivot)) == multiset(s)
    ensures forall x: Node :: x in AtMost(s, pivot) ==> x.value <= pivot
    ensures forall x: Node :: x in Above(s, pivot) ==> x.value > pivot
  {
    if s != [] {
      AtMostAbovePartition(s[1..], pivot);
      assert s == [s[0]] + s[1..];
    }
  }

  /** A list in reverse order. */
  function Reversed(s: seq<Node>): (r: seq<Node>)
    ensures |r| == |s|
  {
    if s == [] then [] else Reversed(s[1..]) + [s[0]]
  }

  /** Reversal keeps every node exactly once. */
  lemma {:induction false} ReversedPermutes(s: seq<Node>)
    ensures multiset(Reversed(s)) == multiset(s)
  {
    if s != [] {
      ReversedPermutes(s[1..]);
      assert s == [s[0]] + s[1..];
    }
  }

  /** Reversal keeps which nodes are in a list. */
  lemma ReversedMembers(s: seq<Node>)
    ensures forall x: Node :: x in Reversed(s) ==> x in s
    ensures forall x: Node :: x in s ==> x in Reversed(s)
  {
    ReversedPermutes(s);
    forall x: Node ensures x in Reversed(s) <==> x in s {
      assert x in Reversed(s) <==> x in multiset(Reversed(s));
    }
  }

  /** What the scan leaves in a list it starts from `acc`: each node of `s` whose
      key is at most `pivot`, taken front to back, inserted at the front. */
  function PrependAtMost(s: seq<Node>, pivot: int, acc: seq<Node>): (r: seq<Node>)
  {
    if s == [] then acc
    else PrependAtMost(s[1..], pivot, if s[0].value <= pivot then [s[0]] + acc else acc)
  }

  /** The same for the nodes whose key is above `pivot`. */
  function PrependAbove(s: seq<Node>, pivot: int, acc: seq<Node>): (r: seq<Node>)
  {
    if s == [] then acc
    else PrependAbove(s[1..], pivot, if s[0].value > pivot then [s[0]] + acc else acc)
  }

  /** Inserting at the front one by one reverses: the scan puts in front of
      `acc` the filtered nodes in reverse order. */
  lemma {:induction false} PrependAtMostReverses(s: seq<Node>, pivot: int, acc: seq<Node>)
    ensures PrependAtMost(s, pivot, acc) == Reversed(AtMost(s, pivot)) + acc
  {
    if s != [] {
      var x := s[0];
      if x.value <= pivot {
        PrependAtMostReverses(s[1..], pivot, [x] + acc);
        assert ([x] + AtMost(s[1..], pivot))[1..] == AtMost(s[1..], pivot);
      } else {
        PrependAtMostReverses(s[1..], pivot, acc);
        assert AtMost(s, pivot) == AtMost(s[1..], pivot);
      }
    }
  }

  /** The counterpart of PrependAtMostReverses for `right`. */
  lemma {:induction false} PrependAboveReverses(s: seq<Node>, pivot: int, acc: seq<Node>)
    ensures PrependAbove(s, pivot, acc) == Reversed(Above(s, pivot)) + acc
  {
    if s != [] {
      var x := s[0];
      if x.value > pivot {
        PrependAboveReverses(s[1..], pivot, [x] + acc);
        assert ([x] + Above(s[1..], pivot))[1..] == Above(s[1..], pivot);
      } else {
        PrependAboveReverses(s[1..], pivot, acc);
        assert Above(s, pivot) == Above(s[1..], pivot);
      }
    }
  }

  /** Lines 160-168 of quick_sort: detach the first node of `target` into
      `middle`, then scan the rest front to back, unlinking each node and
      inserting it at the front of `right` when its key exceeds the pivot's and
      of `left` otherwise. Returns the four lists afterwards. */
  method Partition(target: seq<Node>, left: seq<Node>, middle: seq<Node>, right: seq<Node>)
    returns (target': seq<Node>, left': seq<Node>, middle': seq<Node>, right': seq<Node>)
    requires target != []
    ensures target' == []
    ensures middle' == [target[0]] + middle
    ensures left' == Reversed(AtMost(target[1..], target[0].value)) + left
    ensures right' == Reversed(Above(target[1..], target[0].value)) + right
  {
    var pivot := target[0];
    target' := target[1..];
    middle' := [pivot] + middle;
    var value := pivot.value;
    left', right' := left, right;
    while target' != []
      invariant PrependAtMost(target', value, left') == PrependAtMost(target[1..], value, left)
      invariant PrependAbove(target', value, right') == PrependAbove(target[1..], value, right)
    {
      var entry := target'[0];
      target' := target'[1..];
      if entry.value > value {
        right' := [entry] + right';
      } else {
        left' := [entry] + left';
      }
    }
    PrependAtMostReverses(target[1..], value, left);
    PrependAboveReverses(target[1..], value, right);
  }

  /** What Partition leaves in `left` and `right`, started from empty lists,
      splits the rest of the list by key around the pivot and loses no node. */
  lemma PartitionSplits(target: seq<Node>)
    requires target != []
    ensures var pivot, left, right := target[0],
                                      Reversed(AtMost(target[1..], target[0].value)),
                                      Reversed(Above(target[1..], target[0].value));
            && multiset(left) + multiset{pivot} + multiset(right) == multiset(target)
            && (forall x: Node :: x in left ==> x.value <= pivot.value)
            && (forall x: Node :: x in right ==> x.value > pivot.value)
  {
    var pivot, rest := target[0], target[1..];
    AtMostAbovePartition(rest, pivot.value);
    ReversedPermutes(AtMost(rest, pivot.value));
    ReversedPermutes(Above(rest, pivot.value));
    ReversedMembers(AtMost(rest, pivot.value));
    ReversedMembers(Above(rest, pivot.value));
    assert target == [pivot] + rest;
  }
}
