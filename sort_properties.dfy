/** What the postcondition of quick_sort pins down: the keys of a sorted
    rearrangement of a list are determined by the list alone. */
module SortProperties {
  import opened NodeList
  import opened QuickSort

  /** The keys of a list with one node taken out are its keys with that node's
      key taken out. */
  lemma KeysRemove(s: seq<Node>, j: nat)
    requires j < |s|
    ensures Keys(s[..j] + s[j + 1..]) == Keys(s)[..j] + Keys(s)[j + 1..]
  {
  }

  /** Taking out the element at `j` takes one copy of it out of the multiset. */
  lemma MultisetRemove<T>(s: seq<T>, j: nat)
    requires j < |s|
    ensures multiset(s[..j] + s[j + 1..]) == multiset(s) - multiset{s[j]}
    ensures multiset(s) == multiset(s[..j] + s[j + 1..]) + multiset{s[j]}
  {
    assert s == s[..j] + [s[j]] + s[j + 1..];
  }

  /** Taking out the first element takes one copy of it out of the multiset. */
  lemma MultisetTail<T>(s: seq<T>)
    requires s != []
    ensures multiset(s[1..]) == multiset(s) - multiset{s[0]}
    ensures multiset(s) == multiset(s[1..]) + multiset{s[0]}
  {
    assert s == [s[0]] + s[1..];
  }

  /** The keys of a list without its first node. */
  lemma KeysTail(s: seq<Node>)
    requires s != []
    ensures Keys(s[1..]) == Keys(s)[1..]
  {
  }

  /** Sequences agreeing on their first element and on the rest are equal. */
  lemma HeadTailEqual(a: seq<int>, b: seq<int>)
    requires a != [] && b != [] && a[0] == b[0] && a[1..] == b[1..]
    ensures a == b
  {
    assert a == [a[0]] + a[1..];
    assert b == [b[0]] + b[1..];
  }

  /** Rearranging nodes rearranges their keys: the same nodes carry the same
      multiset of keys. */
  lemma {:induction false} KeysPermutation(a: seq<Node>, b: seq<Node>)
    requires multiset(a) == multiset(b)
    ensures multiset(Keys(a)) == multiset(Keys(b))
    decreases |a|
  {
    if a == [] {
      assert |multiset(b)| == 0;
    } else {
      var x := a[0];
      assert x in multiset(b);
      var j :| 0 <= j < |b| && b[j] == x;
      var rest := b[..j] + b[j + 1..];
      MultisetTail(a);
      MultisetRemove(b, j);
      KeysPermutation(a[1..], rest);
      // the keys of the shorter lists are the keys of the longer ones with x's key taken out
      KeysTail(a);
      KeysRemove(b, j);
      MultisetTail(Keys(a));
      MultisetRemove(Keys(b), j);
    }
  }

  /** The first key of a non-decreasing sequence is its smallest. */
  lemma FirstIsLeast(keys: seq<int>, k: nat)
    requires NonDecreasing(keys) && k < |keys|
    ensures keys[0] <= keys[k]
  {
    NonDecreasingPairwise(keys);
  }

  /** What follows the first key of a non-decreasing sequence is non-decreasing. */
  lemma NonDecreasingTail(keys: seq<int>)
    requires NonDecreasing(keys) && keys != []
    ensures NonDecreasing(keys[1..])
  {
    forall m | 0 < m < |keys| - 1 ensures keys[1..][m - 1] <= keys[1..][m] {
      assert keys[1..][m - 1] == keys[m] && keys[1..][m] == keys[m + 1];
    }
  }

  /** Two non-decreasing key sequences holding the same keys start with the same
      key: the smallest of them. */
  lemma SortedHeadsEqual(a: seq<int>, b: seq<int>)
    requires NonDecreasing(a) && NonDecreasing(b)
    requires multiset(a) == multiset(b) && a != []
    ensures b != [] && a[0] == b[0]
  {
    assert a[0] in multiset(b);
    var j :| 0 <= j < |b| && b[j] == a[0];
    assert b[0] in multiset(a);
    var k :| 0 <= k < |a| && a[k] == b[0];
    FirstIsLeast(a, k);
    FirstIsLeast(b, j);
  }

  /** Taking the same first element off two sequences with the same elements
      leaves sequences with the same elements. */
  lemma TailsSameMultiset<T>(a: seq<T>, b: seq<T>)
    requires a != [] && b != [] && a[0] == b[0] && multiset(a) == multiset(b)
    ensures multiset(a[1..]) == multiset(b[1..])
  {
    MultisetTail(a);
    MultisetTail(b);
  }

  /** Two non-decreasing key sequences holding the same keys are equal. */
  lemma {:induction false} SortedKeysUnique(a: seq<int>, b: seq<int>)
    requires NonDecreasing(a) && NonDecreasing(b)
    requires multiset(a) == multiset(b)
    ensures a == b
    decreases |a|
  {
    if a == [] {
      assert |multiset(b)| == 0;
    } else {
      SortedHeadsEqual(a, b);
      TailsSameMultiset(a, b);
      NonDecreasingTail(a);
      NonDecreasingTail(b);
      SortedKeysUnique(a[1..], b[1..]);
      HeadTailEqual(a, b);
    }
  }

  /** Any two sorted rearrangements of the same list carry the same keys in the
      same order: the keys quick_sort returns depend only on its input. */
  lemma SortedPermutationKeysDetermined(input: seq<Node>, out1: seq<Node>, out2: seq<Node>)
    requires SortedPermutation(input, out1) && SortedPermutation(input, out2)
    ensures Keys(out1) == Keys(out2)
  {
    KeysPermutation(out1, out2);
    SortedKeysUnique(Keys(out1), Keys(out2));
  }

  /** Sorting a list that is already ordered leaves its keys as they were. */
  lemma SortingOrderedKeepsKeys(input: seq<Node>, output: seq<Node>)
    requires Ordered(input) && SortedPermutation(input, output)
    ensures Keys(output) == Keys(input)
  {
    KeysPermutation(output, input);
    SortedKeysUnique(Keys(output), Keys(input));
  }

  /** A concrete instance: the keys 5 3 8 3 1 come back as 1 3 3 5 8. */
  lemma SortExample(input: seq<Node>, output: seq<Node>)
    requires Keys(input) == [5, 3, 8, 3, 1]
    requires SortedPermutation(input, output)
    ensures Keys(output) == [1, 3, 3, 5, 8]
  {
    KeysPermutation(output, input);
    ExampleKeysPermute();
    SortedKeysUnique(Keys(output), [1, 3, 3, 5, 8]);
  }

  /** The example's keys and its sorted keys hold the same values, counted. */
  lemma ExampleKeysPermute()
    ensures multiset([5, 3, 8, 3, 1]) == multiset([1, 3, 3, 5, 8])
  {
    var a, b := multiset([5, 3, 8, 3, 1]), multiset([1, 3, 3, 5, 8]);
    assert a[1] == 1 && a[3] == 2 && a[5] == 1 && a[8] == 1;
    assert b[1] == 1 && b[3] == 2 && b[5] == 1 && b[8] == 1;
    forall x ensures a[x] == b[x] {
    }
  }

  /** The check at the end of the test driver: sorting a list and then running
      `list_is_ordered` on the result always yields true. */
  method SortThenCheck(list: ListHead) returns (ordered: bool)
    modifies list
    ensures ordered
  {
    var sorted: ListHead?;
    ghost var splits: nat;
    sorted, splits := QuickSortList(list);
    ordered := ListIsOrdered(sorted);
  }
}
