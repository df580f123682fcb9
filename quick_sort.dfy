/** `quick_sort`: an iterative quicksort of a list that keeps its pending lists
    in an ordered stack of slots `begin[0..i]` instead of recursing. The top slot
    is taken each time: a list of two or more nodes is split in place into
    `left`, the pivot and `right` (slots i, i + 1, i + 2); a single node is moved
    to the front of `result`; an empty slot is popped. */
module QuickSort {
  import opened NodeList
  import opened Partitioning
  import opened Slots

  /** The output is a rearrangement of exactly the input's nodes, in
      non-decreasing key order. */
  predicate SortedPermutation(input: seq<Node>, output: seq<Node>)
  {
    Ordered(output) && multiset(output) == multiset(input)
  }

  /** What holds at the head of every iteration of the sort loop: the slot array
      holds the stack, the stack and the result are ordered, no node is lost or
      added, and the splits done plus the pivots still to extract stay below n. */
  predicate SortState(slots: seq<seq<Node>>, stack: seq<seq<Node>>, result: seq<Node>,
                      input: seq<Node>, maxLevel: int, splits: nat, n: nat)
  {
    && SlotArray(slots, stack, maxLevel)
    && SlotsInvariant(stack, result, maxLevel)
    && multiset(Flatten(stack)) + multiset(result) == multiset(input)
    && splits + Excess(stack) < n
  }

  /** Partitioning the top slot of the stack around its first node and pushing
      `left`, the pivot and `right` keeps the invariant and the nodes, and leaves
      fewer pivots to extract. */
  lemma PartitionTopSlot(below: seq<seq<Node>>, target: seq<Node>, result: seq<Node>, maxLevel: int)
    requires SlotsInvariant(below + [target], result, maxLevel)
    requires |target| >= 2
    ensures var pivot := target[0];
            var left, right := Reversed(AtMost(target[1..], pivot.value)), Reversed(Above(target[1..], pivot.value));
            && |below| + 4 <= maxLevel
            && SlotsInvariant(below + [left, [pivot], right], result, maxLevel)
            && multiset(Flatten(below + [left, [pivot], right])) == multiset(Flatten(below + [target]))
            && Excess(below + [left, [pivot], right]) < Excess(below + [target])
  {
    var pivot := target[0];
    PartitionSplits(target);
    SplitStep(below, target, Reversed(AtMost(target[1..], pivot.value)), pivot,
              Reversed(Above(target[1..], pivot.value)), result, maxLevel);
  }

  /** An iteration that splits the top slot `i` (two or more nodes) keeps the
      loop invariant with one more split, and lowers the excess. The slots
      i + 1 and i + 2 it writes exist (i + 2 <= 2n - 2) and are empty beforehand. */
  lemma SplitIteration(slots: seq<seq<Node>>, stack: seq<seq<Node>>, i: nat, result: seq<Node>,
                       input: seq<Node>, maxLevel: int, splits: nat, n: nat)
    requires SortState(slots, stack, result, input, maxLevel, splits, n)
    requires |stack| == i + 1 && |slots[i]| >= 2
    ensures i + 4 <= |slots| && slots[i + 1] == [] && slots[i + 2] == []
    ensures var target := slots[i];
            var pivot := target[0];
            var left, right := Reversed(AtMost(target[1..], pivot.value)), Reversed(Above(target[1..], pivot.value));
            && SortState(slots[i := left][i + 1 := [pivot]][i + 2 := right], stack[..i] + [left, [pivot], right],
                         result, input, maxLevel, splits + 1, n)
            && Excess(stack[..i] + [left, [pivot], right]) < Excess(stack)
  {
    var below, target := stack[..i], stack[i];
    assert stack == below + [target];
    assert slots[i] == target;
    var pivot := target[0];
    var left, right := Reversed(AtMost(target[1..], pivot.value)), Reversed(Above(target[1..], pivot.value));
    var stack' := below + [left, [pivot], right];
    var slots' := slots[i := left][i + 1 := [pivot]][i + 2 := right];
    assert |below| + 4 <= maxLevel && SlotsInvariant(stack', result, maxLevel)
           && multiset(Flatten(stack')) == multiset(Flatten(stack)) && Excess(stack') < Excess(stack) by {
      PartitionTopSlot(below, target, result, maxLevel);
    }
    assert SlotArray(slots', stack', maxLevel) by {
      SlotArrayAfterSplit(slots, below, target, left, pivot, right, maxLevel);
    }
    assert multiset(Flatten(stack')) + multiset(result) == multiset(input);
    assert splits + 1 + Excess(stack') < n;
  }

  /** An iteration that moves the top slot `i` (at most one node) to the front of
      the result and pops it keeps the loop invariant and the excess. */
  lemma DrainIteration(slots: seq<seq<Node>>, stack: seq<seq<Node>>, i: nat, result: seq<Node>,
                       input: seq<Node>, maxLevel: int, splits: nat, n: nat)
    requires SortState(slots, stack, result, input, maxLevel, splits, n)
    requires |stack| == i + 1 && |slots[i]| <= 1
    ensures SortState(slots[i := []], stack[..i], slots[i] + result, input, maxLevel, splits, n)
    ensures Excess(stack[..i]) == Excess(stack)
  {
    var below, target := stack[..i], stack[i];
    assert stack == below + [target];
    assert slots[i] == target;
    DrainStep(below, target, result, maxLevel);
    SlotArrayAfterDrain(slots, below, target, maxLevel);
  }

  /** Lines 156-176 of quick_sort for a slot of two or more nodes, with the
      scratch lists and the two slots above empty, as they are at every
      iteration: Partition empties slot `i` into `left`, `middle` and `right`,
      which are then spliced (`list_splice_init`) into slots i, i + 1 and i + 2
      and left empty. No other slot changes. */
  method SplitTopSlot(begin: array<seq<Node>>, i: nat, left: seq<Node>, middle: seq<Node>, right: seq<Node>)
    returns (left': seq<Node>, middle': seq<Node>, right': seq<Node>)
    requires i + 2 < begin.Length
    requires |begin[i]| >= 2 && begin[i + 1] == [] && begin[i + 2] == []
    requires left == [] && middle == [] && right == []
    modifies begin
    ensures left' == [] && middle' == [] && right' == []
    ensures var slots := old(begin[..]);
            var target := slots[i];
            begin[..] == slots[i := Reversed(AtMost(target[1..], target[0].value))]
                              [i + 1 := [target[0]]]
                              [i + 2 := Reversed(Above(target[1..], target[0].value))]
  {
    ghost var slots, target := begin[..], begin[i];
    ghost var l, r := Reversed(AtMost(target[1..], target[0].value)), Reversed(Above(target[1..], target[0].value));
    var drained;
    drained, left', middle', right' := Partition(begin[i], left, middle, right);
    assert drained == [] && left' + drained == l && middle' + begin[i + 1] == [target[0]] && right' + begin[i + 2] == r;
    // the partition loop has emptied slot i: splicing `left` into it leaves just `left`
    begin[i], left' := left' + drained, [];
    assert begin[..] == slots[i := l];
    begin[i + 1], middle' := middle' + begin[i + 1], [];
    assert begin[..] == slots[i := l][i + 1 := [target[0]]];
    begin[i + 2], right' := right' + begin[i + 2], [];
  }

  /** The loop of quick_sort (lines 155-184): starting with the whole list in
      slot 0 of the `2n` slots, it runs until the stack is empty and returns
      `result`, the input's nodes sorted by key, leaving every slot empty. The
      scratch lists `left`, `middle` and `right` are empty again at the end. */
  method SortSlots(begin: array<seq<Node>>, n: nat, ghost input: seq<Node>)
    returns (result: seq<Node>, ghost splits: nat)
    requires |input| == n > 0 && begin.Length == 2 * n
    requires SlotArray(begin[..], [input], 2 * n)
    modifies begin
    ensures SortedPermutation(input, result) && splits < n
    ensures SlotArray(begin[..], [], 2 * n)
  {
    var maxLevel := 2 * n;
    result, splits := [], 0;
    var left: seq<Node>, middle: seq<Node>, right: seq<Node> := [], [], [];
    var i := 0;
    ghost var stack: seq<seq<Node>> := [input];
    InitialSlots(input);
    while i >= 0
      invariant -1 <= i && |stack| == i + 1
      invariant left == [] && middle == [] && right == []
      invariant SortState(begin[..], stack, result, input, maxLevel, splits, n)
      decreases Excess(stack), i + 1
    {
      ghost var slots := begin[..];
      if begin[i] != [] && |begin[i]| != 1 {
        SplitIteration(slots, stack, i, result, input, maxLevel, splits, n);
        ghost var target := slots[i];
        left, middle, right := SplitTopSlot(begin, i, left, middle, right);
        stack := stack[..i] + [Reversed(AtMost(target[1..], target[0].value)), [target[0]],
                               Reversed(Above(target[1..], target[0].value))];
        i := i + 2;
        splits := splits + 1;
      } else if |begin[i]| == 1 {
        DrainIteration(slots, stack, i, result, input, maxLevel, splits, n);
        // line 179: list_splice_init(target_list, result) puts the node in front
        result, begin[i] := begin[i] + result, [];
        assert begin[..] == slots[i := []];
        stack := stack[..i];
        i := i - 1;
      } else {
        DrainIteration(slots, stack, i, result, input, maxLevel, splits, n);
        assert slots[i] + result == result && slots[i := []] == slots;
        stack := stack[..i];
        i := i - 1;
      }
    }
    assert Flatten(stack) == [];
  }

  /** `quick_sort(&list)`. A null or empty list is left alone and returned.
      Otherwise the nodes of `*list` are moved into slot 0, `*list` is left
      empty, and the returned fresh head holds the same nodes sorted by key.
      `splits` counts the partitioning steps: fewer than the number of nodes. */
  method QuickSortList(list: ListHead?) returns (sorted: ListHead?, ghost splits: nat)
    modifies list
    ensures list == null ==> sorted == null
    ensures list != null && old(list.nodes) == [] ==> sorted == list && list.nodes == []
    ensures list != null && old(list.nodes) != [] ==>
              sorted != null && fresh(sorted) && list.nodes == [] &&
              SortedPermutation(old(list.nodes), sorted.nodes) &&
              |sorted.nodes| == |old(list.nodes)| && splits < |old(list.nodes)|
  {
    splits := 0;
    if list == null || list.nodes == [] {
      return list, splits;
    }
    ghost var input: seq<Node> := list.nodes;
    var n := ListLength(list);
    var begin := new seq<Node>[2 * n](_ => []);
    // list_splice_init(*list, &begin[0])
    begin[0], list.nodes := list.nodes + begin[0], [];
    assert SlotArray(begin[..], [input], 2 * n);
    var result;
    result, splits := SortSlots(begin, n, input);
    // lines 186-189: left, middle and right are freed empty; *list = result
    sorted := new ListHead();
    sorted.nodes := result;
    assert |multiset(result)| == |multiset(input)|;
  }
}
