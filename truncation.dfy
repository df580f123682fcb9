/** The key narrowing in quick_sort and list_is_ordered as the C code writes it:
    both keep a node's `long` key in an `int` variable (main.c:104 and 140), which
    gcc narrows modulo 2^32. The rest of the model compares full-width keys; the
    members here model the narrowed comparisons, show inputs where they go wrong,
    and show that they agree with the full-width ones when every key fits an `int`. */
module Truncation {
  import opened NodeList
  import opened Partitioning

  const IntMin: int := -0x8000_0000
  const IntRange: int := 0x1_0000_0000

  /** Conversion of a `long` to a 32-bit `int` as gcc does it: the value is
      reduced modulo 2^32 into the `int` range. */
  function ToInt32(v: int): (r: int)
    ensures IntMin <= r < IntMin + IntRange
    ensures (v - r) % IntRange == 0
    ensures IntMin <= v < IntMin + IntRange ==> r == v
  {
    (v - IntMin) % IntRange + IntMin
  }

  /** What the loop of `list_is_ordered` accepts as written: each key is compared
      with the narrowed key of the node before it. */
  predicate OrderedAsWritten(s: seq<Node>)
  {
    forall k :: 0 < k < |s| ==> !(s[k].value < ToInt32(s[k - 1].value))
  }

  /** `list_is_ordered` as written, with `int value` holding the previous key. */
  method ListIsOrderedAsWritten(head: ListHead) returns (ordered: bool)
    ensures ordered <==> OrderedAsWritten(head.nodes)
  {
    var first := true;
    var value: int := 0;
    var seen := 0;
    var rest := head.nodes;
    while rest != []
      invariant seen + |rest| == |head.nodes|
      invariant rest == head.nodes[seen..]
      invariant first <==> seen == 0
      invariant !first ==> value == ToInt32(head.nodes[seen - 1].value)
      invariant OrderedAsWritten(head.nodes[..seen])
    {
      var entry := rest[0];
      rest := rest[1..];
      if first {
        value := ToInt32(entry.value);
        first := false;
      } else {
        if entry.value < value {
          assert head.nodes[seen].value < ToInt32(head.nodes[seen - 1].value);
          return false;
        }
        value := ToInt32(entry.value);
      }
      seen := seen + 1;
      assert forall k :: 0 < k < seen ==> head.nodes[..seen][k] == head.nodes[k];
      assert forall k :: 0 < k < seen - 1 ==> head.nodes[..seen - 1][k] == head.nodes[k];
    }
    assert head.nodes[..seen] == head.nodes;
    return true;
  }

  /** The narrowed check passes a list that is out of order: keys 2^32 then 1
      (2^32 narrows to 0, and 1 is not below 0). */
  lemma OrderedAsWrittenAcceptsUnordered(p: Node, q: Node)
    requires p.value == 0x1_0000_0000 && q.value == 1
    ensures OrderedAsWritten([p, q]) && !Ordered([p, q])
  {
    assert ToInt32(p.value) == 0;
    assert Keys([p, q])[0] > Keys([p, q])[1];
  }

  /** It also fails a list that is in order: keys -2^31 - 1 then -2^31
      (-2^31 - 1 narrows to 2^31 - 1). */
  lemma OrderedAsWrittenRejectsOrdered(p: Node, q: Node)
    requires p.value == -0x8000_0001 && q.value == -0x8000_0000
    ensures !OrderedAsWritten([p, q]) && Ordered([p, q])
  {
    assert ToInt32(p.value) == 0x7FFF_FFFF;
    assert [p, q][1].value < ToInt32([p, q][0].value);
  }

  /** When every key fits an `int`, the narrowed check is the intended one. */
  lemma OrderedAsWrittenAgrees(s: seq<Node>)
    requires forall x: Node :: x in s ==> IntMin <= x.value < IntMin + IntRange
    ensures OrderedAsWritten(s) <==> Ordered(s)
  {
    assert forall k :: 0 <= k < |s| ==> s[k] in s;
    assert forall k :: 0 <= k < |s| ==> Keys(s)[k] == s[k].value;
  }

  /** The partition step as written splits around the narrowed pivot key: a node
      whose key is below the pivot's can land in `right`. With keys 2^32 (pivot)
      and 1, `left` is empty and `right` holds the smaller key; the three slots
      `left`, `[p]`, `right` then drain, top slot first, onto the front of an
      empty result, which ends up ordered 2^32, 1. The narrowed `list_is_ordered`
      accepts that result, so the driver's assertion would not catch it. */
  lemma TruncatedPivotMisplaces(p: Node, q: Node)
    requires p.value == 0x1_0000_0000 && q.value == 1
    ensures var target := [p, q];
            var narrowed := ToInt32(target[0].value);
            var left, right := Reversed(AtMost(target[1..], narrowed)), Reversed(Above(target[1..], narrowed));
            && left == []
            && right == [q]
            && q.value < p.value
            && left + ([p] + (right + [])) == [p, q]
            && !Ordered([p, q])
            && OrderedAsWritten([p, q])
  {
    var target := [p, q];
    assert ToInt32(p.value) == 0;
    assert target[1..] == [q];
    assert AtMost([q], 0) == [] + AtMost([q][1..], 0);
    assert Above([q], 0) == [q] + Above([q][1..], 0);
    assert Reversed([q]) == Reversed([q][1..]) + [q];
    OrderedAsWrittenAcceptsUnordered(p, q);
  }
}
