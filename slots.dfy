/** The ordered stack of slots that quick_sort uses instead of recursion:
    `begin[0..i]`, the lists still to sort, bottom to top. These predicates are
    the loop invariant of the sort and the lemmas show that each of the three
    kinds of iteration keeps it. */
module Slots {
  import opened NodeList

  /** Every key of `xs` is at most every key of `ys`. */
  predicate KeysLe(xs: seq<Node>, ys: seq<Node>)
  {
    forall x, y :: x in xs && y in ys ==> x.value <= y.value
  }

  /** A lower slot never holds a key above a key of a higher slot. */
  predicate StackOrdered(stack: seq<seq<Node>>)
  {
    forall j, k :: 0 <= j < k < |stack| ==> KeysLe(stack[j], stack[k])
  }

  /** Every key still in a slot is at most every key already in `result`. */
  predicate BelowResult(stack: seq<seq<Node>>, result: seq<Node>)
  {
    forall j :: 0 <= j < |stack| ==> KeysLe(stack[j], result)
  }

  /** The stack bound: slot j holds at most (maxLevel - j) / 2 nodes, so the
      split of any slot writes inside the `maxLevel` slots. */
  predicate WithinLevels(stack: seq<seq<Node>>, maxLevel: int)
  {
    forall j :: 0 <= j < |stack| ==> j + 2 * |stack[j]| <= maxLevel
  }

  /** The loop invariant of quick_sort about the slots `begin[0..i]` and the result. */
  predicate SlotsInvariant(stack: seq<seq<Node>>, result: seq<Node>, maxLevel: int)
  {
    StackOrdered(stack) && BelowResult(stack, result) && Ordered(result) && WithinLevels(stack, maxLevel)
  }

  /** All nodes still in the slots, bottom slot first. */
  function Flatten(stack: seq<seq<Node>>): (r: seq<Node>)
  {
    if stack == [] then [] else Flatten(stack[..|stack| - 1]) + stack[|stack| - 1]
  }

  /** Pivots still to be extracted: a slot of s > 0 nodes needs at most s - 1 more splits. */
  function Excess(stack: seq<seq<Node>>): (r: nat)
  {
    if stack == [] then 0
    else Excess(stack[..|stack| - 1]) + (if stack[|stack| - 1] == [] then 0 else |stack[|stack| - 1]| - 1)
  }

  /** The initial state: the whole input in slot 0 of 2n slots, nothing in the result. */
  lemma InitialSlots(input: seq<Node>)
    requires input != []
    ensures SlotsInvariant([input], [], 2 * |input|)
    ensures Flatten([input]) == input
    ensures Excess([input]) == |input| - 1
  {
    assert [input][..0] == [];
  }

  lemma KeysLeSubset(xs: seq<Node>, ys: seq<Node>, xs': seq<Node>, ys': seq<Node>)
    requires KeysLe(xs, ys)
    requires forall x: Node :: x in xs' ==> x in xs
    requires forall y: Node :: y in ys' ==> y in ys
    ensures KeysLe(xs', ys')
  {
  }

  /** Splitting the top slot into `left`, the pivot and `right` (lines 170-176)
      keeps the invariant, keeps the nodes, lowers the excess and stays within
      the levels: the highest slot written, |below| + 2, is at most maxLevel - 2. */
  lemma {:induction false} SplitStep(below: seq<seq<Node>>, target: seq<Node>, left: seq<Node>,
                                     pivot: Node, right: seq<Node>, result: seq<Node>, maxLevel: int)
    requires SlotsInvariant(below + [target], result, maxLevel)
    requires |target| >= 2
    requires multiset(left) + multiset{pivot} + multiset(right) == multiset(target)
    requires forall x: Node :: x in left ==> x.value <= pivot.value
    requires forall x: Node :: x in right ==> x.value > pivot.value
    ensures |below| + 4 <= maxLevel
    ensures SlotsInvariant(below + [left, [pivot], right], result, maxLevel)
    ensures multiset(Flatten(below + [left, [pivot], right])) == multiset(Flatten(below + [target]))
    ensures Excess(below + [left, [pivot], right]) < Excess(below + [target])
  {
    var old_ := below + [target];
    var new_ := below + [left, [pivot], right];
    var i := |below|;
    assert old_[i] == target;
    assert i + 2 * |target| <= maxLevel;
    assert |left| + |right| + 1 == |target| by {
      assert |multiset(left) + multiset{pivot} + multiset(right)| == |multiset(target)|;
    }
    // every moved node comes from the split slot
    forall x | x in left ensures x in target {
      assert x in multiset(target);
    }
    forall x | x in right ensures x in target {
      assert x in multiset(target);
    }
    assert pivot in multiset(target);
    // ordering across the slots
    forall j, k | 0 <= j < k < |new_| ensures KeysLe(new_[j], new_[k]) {
      if k < i {
        assert new_[j] == old_[j] && new_[k] == old_[k];
      } else if j < i {
        assert new_[j] == old_[j] && KeysLe(old_[j], old_[i]);
        KeysLeSubset(old_[j], target, old_[j], new_[k]);
      } else {
        assert new_[i] == left && new_[i + 1] == [pivot] && new_[i + 2] == right;
      }
    }
    forall j | 0 <= j < |new_| ensures KeysLe(new_[j], result) {
      if j < i {
        assert new_[j] == old_[j];
      } else {
        assert KeysLe(old_[i], result);
        KeysLeSubset(target, result, new_[j], result);
      }
    }
    forall j | 0 <= j < |new_| ensures j + 2 * |new_[j]| <= maxLevel {
      if j < i {
        assert new_[j] == old_[j];
      }
    }
    // the same nodes, and fewer pivots still to extract
    assert new_[..i + 2] == below + [left, [pivot]];
    assert (below + [left, [pivot]])[..i + 1] == below + [left];
    assert (below + [left])[..i] == below;
    assert old_[..i] == below;
    assert Flatten(new_) == Flatten(below + [left, [pivot]]) + right;
    assert Flatten(below + [left, [pivot]]) == Flatten(below + [left]) + [pivot];
    assert Flatten(below + [left]) == Flatten(below) + left;
    assert Flatten(old_) == Flatten(below) + target;
    assert Excess(new_) == Excess(below + [left, [pivot]]) + (if right == [] then 0 else |right| - 1);
    assert Excess(below + [left, [pivot]]) == Excess(below + [left]);
    assert Excess(below + [left]) == Excess(below) + (if left == [] then 0 else |left| - 1);
    assert Excess(old_) == Excess(below) + |target| - 1;
  }

  /** Moving a slot of at most one node onto the front of `result` and popping
      it (lines 178-182; an empty slot moves nothing) keeps the invariant and the
      nodes, and does not change the excess. */
  lemma {:induction false} DrainStep(below: seq<seq<Node>>, top: seq<Node>, result: seq<Node>, maxLevel: int)
    requires SlotsInvariant(below + [top], result, maxLevel)
    requires |top| <= 1
    ensures SlotsInvariant(below, top + result, maxLevel)
    ensures Flatten(below + [top]) == Flatten(below) + top
    ensures Excess(below + [top]) == Excess(below)
  {
    var old_ := below + [top];
    var i := |below|;
    assert old_[..i] == below;
    assert old_[i] == top;
    assert KeysLe(top, result);
    forall k | 0 < k < |top + result| ensures (top + result)[k - 1].value <= (top + result)[k].value {
      if k == 1 && top != [] {
        assert (top + result)[0] == top[0] && (top + result)[1] == result[0];
      } else if top != [] {
        assert (top + result)[k - 1] == result[k - 2] && (top + result)[k] == result[k - 1];
        assert Keys(result)[k - 2] <= Keys(result)[k - 1];
      } else {
        assert Keys(result)[k - 1] <= Keys(result)[k];
      }
    }
    forall j | 0 <= j < i ensures KeysLe(below[j], top + result) {
      assert below[j] == old_[j];
      assert KeysLe(old_[j], old_[i]);
    }
    forall j, k | 0 <= j < k < i ensures KeysLe(below[j], below[k]) {
      assert below[j] == old_[j] && below[k] == old_[k];
    }
    forall j | 0 <= j < i ensures j + 2 * |below[j]| <= maxLevel {
      assert below[j] == old_[j];
    }
  }

  /** The slot array `begin[0..maxLevel-1]` holds the stack in its lowest slots
      and nothing above it. */
  predicate SlotArray(slots: seq<seq<Node>>, stack: seq<seq<Node>>, maxLevel: int)
  {
    && |slots| == maxLevel
    && |stack| <= maxLevel
    && (forall k :: 0 <= k < |stack| ==> slots[k] == stack[k])
    && (forall k :: |stack| <= k < maxLevel ==> slots[k] == [])
  }

  /** After the three writes of a split, the slot array holds the stack with its
      top slot replaced by `left`, the pivot and `right`. */
  lemma SlotArrayAfterSplit(slots: seq<seq<Node>>, below: seq<seq<Node>>, target: seq<Node>,
                            left: seq<Node>, pivot: Node, right: seq<Node>, maxLevel: int)
    requires SlotArray(slots, below + [target], maxLevel)
    requires |below| + 2 < maxLevel
    ensures var i := |below|;
            SlotArray(slots[i := left][i + 1 := [pivot]][i + 2 := right], below + [left, [pivot], right], maxLevel)
  {
    var i := |below|;
    var slots' := slots[i := left][i + 1 := [pivot]][i + 2 := right];
    var stack' := below + [left, [pivot], right];
    forall k | 0 <= k < |stack'| ensures slots'[k] == stack'[k] {
      if k < i {
        assert slots[k] == (below + [target])[k];
      }
    }
  }

  /** Emptying the top slot pops it. */
  lemma SlotArrayAfterDrain(slots: seq<seq<Node>>, below: seq<seq<Node>>, top: seq<Node>, maxLevel: int)
    requires SlotArray(slots, below + [top], maxLevel)
    ensures SlotArray(slots[|below| := []], below, maxLevel)
  {
    forall k | 0 <= k < |below| ensures slots[|below| := []][k] == below[k] {
      assert slots[k] == (below + [top])[k];
    }
  }
}
