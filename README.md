# quick_sort: an iterative quicksort of a kernel-style linked list

This project models `quick_sort` of `main.c` and proves it correct. `quick_sort` sorts a circular doubly-linked list of `node_t` (a `long` key and a `struct list_head`) by key. It does not recurse. It keeps the lists still to be sorted in an ordered stack of slots, `begin[0 .. 2n-1]`, with the top at index `i`. Each iteration looks at the top slot:

- **two or more nodes:** the first node becomes the pivot. Every other node is unlinked and inserted at the front of `right` (key above the pivot's) or `left` (key at most the pivot's). `left`, the pivot and `right` are then spliced into slots `i`, `i + 1` and `i + 2`, and `i` grows by 2.
- **one node:** the node is spliced onto the front of `result` and the slot is popped.
- **empty:** the slot is popped.

When the stack is empty, `*list` becomes `result`. The two list helpers `list_length` and `list_is_ordered` are modelled too: the first gives `n`, and `begin` has `2n` slots; the second is the check the test driver runs on the sorted list.

Representation:

- A list is the sequence of its nodes, from `head->next` round to `head->prev`.
- A `Node` is an object with a constant `Long` key. Node identity is the object, so "the same nodes" is a statement about objects, not just keys.
- The kernel list primitives become operations on sequences:
  - `list_add` prepends;
  - `list_splice_init(src, dst)` sets `dst` to `src + dst` and empties `src`;
  - `list_empty` and `list_is_singular` test for length 0 and length 1.
- `begin` is an `array<seq<Node>>` of length `2n`.

Modules:

- `NodeList` (`node_list.dfy`): nodes, list heads, `list_length`, `list_is_ordered`.
- `Partitioning` (`partition.dfy`): the partition scan of one slot.
- `Slots` (`slots.dfy`): the slot stack, its invariant and the lemmas that each kind of iteration keeps it.
- `QuickSort` (`quick_sort.dfy`): the sort itself, as methods over the slot array.
- `SortProperties` (`sort_properties.dfy`): what the postcondition determines, and the driver's check.
- `Truncation` (`truncation.dfy`): the `int` narrowing of keys as the C code writes it (see Findings).

The proved result: for a non-empty list,
- `QuickSortList` returns a fresh list head holding exactly the input's nodes in non-decreasing key order;
- the input head is left empty;
- every slot of `begin` is empty at the end;
- fewer than `n` partitioning steps are done.

A null or empty list is returned unchanged.

## Model

| member | source | states |
|---|---|---|
| NodeList.ListHead.constructor | main.c:62-69 | `list_new`: a fresh head of an empty list |
| NodeList.ListLength | main.c:50-60 | a null head has length 0; otherwise the count is the number of nodes in the list |
| NodeList.ListIsOrdered | main.c:101-117 | the result is true exactly when no key is smaller than the key before it (both directions) |
| NodeList.NonDecreasingPairwise | main.c:101-117 | checking neighbours as `list_is_ordered` does orders every pair: `keys[i] <= keys[j]` for all `i <= j` |
| Partitioning.AtMostAbovePartition | main.c:165-167 | splitting by `value > pivot` loses and duplicates no node; every node of the at-most part has key at most the pivot, every node of the above part a key above it; equal keys go left |
| Partitioning.ReversedPermutes | main.c:166-167 | inserting at the front reorders the nodes but keeps each one exactly once |
| Partitioning.ReversedMembers | main.c:166-167 | reversal keeps exactly the same member nodes, in both directions |
| Partitioning.PrependAtMostReverses | main.c:165-167 | the scan's repeated `list_add` into `left` leaves the at-most nodes in reverse scan order in front of what `left` held |
| Partitioning.PrependAboveReverses | main.c:165-167 | the same for `right` and the nodes with key above the pivot |
| Partitioning.Partition | main.c:160-168 | the scan empties the slot; `middle` gains exactly the first node; `left` and `right` gain the reversed at-most and above nodes in front of their old contents |
| Partitioning.PartitionSplits | main.c:160-168 | `left`, the pivot and `right` together hold exactly the slot's nodes; `left` keys are at most the pivot's, `right` keys above it |
| Slots.InitialSlots | main.c:139-147 | the whole list in slot 0 of `2n` slots, with an empty result, satisfies the loop invariant, and `n - 1` pivots remain to extract |
| Slots.SplitStep | main.c:170-176 | replacing the top slot by `left`, `[pivot]`, `right` keeps the slots ordered, below the result and within the `2n` levels; keeps the nodes; lowers the pivots still to extract; the highest slot written, `i + 2`, is at most `2n - 2` |
| Slots.DrainStep | main.c:178-182 | moving a slot of at most one node onto the front of `result` and popping it keeps the invariant (so `result` stays non-decreasing) and the nodes |
| Slots.SlotArrayAfterSplit | main.c:170-172 | after the three splices the array holds the new stack in its lowest slots and nothing above |
| Slots.SlotArrayAfterDrain | main.c:178-182 | emptying the top slot pops it: every slot above the new top is empty |
| QuickSort.PartitionTopSlot | main.c:156-176 | partitioning the top slot and pushing the three parts keeps the slot invariant and the nodes, and lowers the excess |
| QuickSort.SplitIteration | main.c:156-176 | in a split iteration, slots `i + 1` and `i + 2` exist (`i + 2 <= 2n - 2`) and are empty, and afterwards the full loop invariant holds with one more split |
| QuickSort.DrainIteration | main.c:178-182 | in a one-node or empty iteration, the full loop invariant holds after the pop |
| QuickSort.SplitTopSlot | main.c:160-172 | partition then splice: slot `i` holds `left`, slot `i + 1` the pivot, slot `i + 2` `right`, no other slot changes, and the scratch lists are empty again |
| QuickSort.SortSlots | main.c:155-184 | the loop ends; `result` is the input's nodes in non-decreasing key order; every slot is empty; fewer than `n` splits |
| QuickSort.QuickSortList | main.c:134-190 | a null or empty list is returned as is; otherwise `*list` is emptied and the returned fresh head holds a sorted permutation of its nodes, of the same length |
| SortProperties.KeysPermutation | main.c:10-13 | the same nodes in any order carry the same multiset of keys |
| SortProperties.SortedKeysUnique | main.c:101-117 | two non-decreasing key sequences with the same keys are equal |
| SortProperties.SortedPermutationKeysDetermined | main.c:134-190 | the key sequence of a sorted result depends only on the input: any two sorted permutations have the same keys in the same order |
| SortProperties.SortingOrderedKeepsKeys | main.c:134-190 | sorting an already ordered list keeps its key sequence |
| SortProperties.SortExample | main.c:134-190 | keys 5 3 8 3 1 come back as 1 3 3 5 8 |
| SortProperties.SortThenCheck | main.c:42-43 | the driver's `assert(list_is_ordered(list))` after `quick_sort(&list)` always holds |
| Truncation.ToInt32 | main.c:163 | gcc's `long` to `int` conversion: a result in the `int` range, congruent to the key modulo 2^32, and equal to it when the key fits |
| Truncation.ListIsOrderedAsWritten | main.c:101-117 | `list_is_ordered` with the running key held in an `int`: true exactly when no key is below the narrowed previous key |
| Truncation.OrderedAsWrittenAcceptsUnordered | main.c:104-113 | keys 2^32 then 1 pass the narrowed check but are out of order |
| Truncation.OrderedAsWrittenRejectsOrdered | main.c:104-113 | keys -2^31 - 1 then -2^31 fail the narrowed check but are in order |
| Truncation.OrderedAsWrittenAgrees | main.c:104-113 | when every key fits an `int`, the narrowed check and the intended check agree |
| Truncation.TruncatedPivotMisplaces | main.c:140-167 | with the pivot key narrowed, keys 2^32 (pivot) and 1 put the smaller key in `right` and nothing in `left`; draining the slots `left`, `[pivot]`, `right` top first onto an empty result gives keys 2^32 then 1, which is out of order yet passes the narrowed `list_is_ordered` |

## Left out

- `main`, `shuffle` and `list_dump` (main.c:25-47, 85-98, 120-131) are left out. They are the test driver, its `rand()` input and debug printing. The only part kept is the driver's final check, as `SortProperties.SortThenCheck`.
- `list_free` and the `list_new` calls for `result`, `left`, `middle` and `right` (main.c:71-83, 149-152, 186-188) are memory plumbing. In the model the three scratch lists are local sequences, proved empty when freed, and `result` becomes the fresh head returned.
- Memory safety is not modelled: neither the leak of the emptied original head (main.c:147, 189) nor the stack use of the variable-length array `begin` (main.c:143).
- The pointer internals of `list.h` are not modelled. `list.h` is not part of this model; its primitives are modelled by their Linux-kernel list semantics on sequences.
- The scratch lists are not heap objects. `left`, `middle`, `right` and `result` are local sequences, and `*list = result` is modelled by returning the new head. Nothing else points at these lists, so no aliasing is lost.
- The loop body is split across methods: `SortSlots` holds the loop and `SplitTopSlot` holds one split. Its state changes are the same as the source's.
- NodeList.ListLength: counts with an unbounded `nat`; the 32-bit `int` overflow of `n` for lists of 2^31 or more nodes is not modelled.
- QuickSort.QuickSortList: sizes `begin` as `2 * n` over unbounded integers. The overflow of `2 * n` in `int` for n ≥ 2^30 is not modelled.
- Keys are compared at full `long` width throughout the sort and in `NodeList.ListIsOrdered`. This is the corrected behaviour described under Findings. The narrowed comparisons as written are modelled separately in `Truncation`.

## Findings

| source | as written | input that shows it | evidently intended | confidence | as-written member | corrected member |
|---|---|---|---|---|---|---|
| main.c:140-167 | the pivot key is stored in `int value`, so `entry->value > value` compares each `long` key with the pivot key narrowed modulo 2^32 | a two-node list with keys 2^32 (first) and 1: the pivot narrows to 0, the key 1 goes to `right`, and the result is ordered 2^32, 1 | compare with the full `long` pivot key, so the result is sorted | high (not executed) | Truncation.TruncatedPivotMisplaces | Partitioning.Partition |
| main.c:104-113 | `list_is_ordered` keeps the previous key in `int value`, so it compares each key with the previous key narrowed modulo 2^32 | keys 2^32 then 1 are accepted as ordered; keys -2^31 - 1 then -2^31 are rejected | true exactly when no key is smaller than the previous full `long` key | high (not executed) | Truncation.ListIsOrderedAsWritten | NodeList.ListIsOrdered |

The test driver only uses keys 0 to 99999. These fit an `int`, so on that input the narrowed and full-width comparisons agree (`Truncation.OrderedAsWrittenAgrees`, `Truncation.ToInt32`).
