/**
  What a caller of the heap relies on: filling it with `Add` and emptying it
  with `RemoveFirst` hands the elements back in non-decreasing key order,
  a lowered key brings its element to the front, and `Contains` can be asked
  about an element that was never added. The last three methods are small
  examples of those promises.
 */
module Extraction {
  import opened IndexedHeap

  /** Every id in `s` has a key, and the keys never decrease along `s`. */
  ghost predicate SortedBy(s: seq<int>, key: seq<int>)
  {
    && (forall i :: 0 <= i < |s| ==> 0 <= s[i] < |key|)
    && (forall i, j :: 0 <= i < j < |s| ==> key[s[i]] <= key[s[j]])
  }

  /** `k` is no larger than the key of any element of `m`. */
  ghost predicate LowerBound(k: int, key: seq<int>, m: multiset<int>)
  {
    forall x :: x in m ==> 0 <= x < |key| && k <= key[x]
  }

  /** `order` lists distinct elements of the arena. */
  ghost predicate DistinctIds(order: seq<int>, n: nat)
  {
    && (forall i :: 0 <= i < |order| ==> 0 <= order[i] < n)
    && (forall i, j :: 0 <= i < j < |order| ==> order[i] != order[j])
  }

  /** Construct a heap of capacity `maxHeapSize` and `Add` the elements of
      `order`, in that order. */
  method Build(key: seq<int>, order: seq<int>, maxHeapSize: nat) returns (h: Heap)
    requires DistinctIds(order, |key|) && |order| <= maxHeapSize
    ensures Valid(h, key)
    ensures Count(h) == |order| && |h.items| == maxHeapSize
    ensures Live(h) == multiset(order)
  {
    h := New(maxHeapSize, seq(|key|, _ => 0));
    var n := 0;
    while n < |order|
      invariant 0 <= n <= |order|
      invariant Valid(h, key) && |h.items| == maxHeapSize
      invariant h.count == n && Live(h) == multiset(order[..n])
    {
      assert order[..n + 1] == order[..n] + [order[n]];
      assert order[n] !in order[..n] by {
        forall i | 0 <= i < n
          ensures order[..n][i] != order[n]
        {
        }
      }
      h := Add(h, key, order[n]);
      n := n + 1;
    }
    assert order[..n] == order;
  }

  /** Call `RemoveFirst` until `Count()` is 0, collecting what it returns. */
  method Drain(h0: Heap, key: seq<int>) returns (out: seq<int>, h: Heap)
    requires Valid(h0, key)
    ensures Valid(h, key) && Count(h) == 0
    ensures multiset(out) == Live(h0)
    ensures SortedBy(out, key)
  {
    h := h0;
    out := [];
    while Count(h) > 0
      invariant Valid(h, key)
      invariant multiset(out) + Live(h) == Live(h0)
      invariant SortedBy(out, key)
      invariant forall i :: 0 <= i < |out| ==> LowerBound(key[out[i]], key, Live(h))
      decreases h.count
    {
      var first;
      ghost var before := h;
      first, h := RemoveFirst(h, key);
      DrainStep(out, first, key, Live(before), Live(h));
      out := out + [first];
    }
  }

  /** Appending the removed minimum keeps the collected prefix sorted and
      below everything still in the heap. */
  lemma DrainStep(out: seq<int>, first: int, key: seq<int>, before: multiset<int>, after: multiset<int>)
    requires SortedBy(out, key)
    requires forall i :: 0 <= i < |out| ==> LowerBound(key[out[i]], key, before)
    requires 0 <= first < |key| && first in before && LowerBound(key[first], key, before)
    requires after == before - multiset{first}
    ensures SortedBy(out + [first], key)
    ensures forall i :: 0 <= i < |out + [first]| ==> LowerBound(key[(out + [first])[i]], key, after)
  {
    var out' := out + [first];
    forall i | 0 <= i < |out'|
      ensures LowerBound(key[out'[i]], key, after)
    {
      forall x | x in after
        ensures 0 <= x < |key| && key[out'[i]] <= key[x]
      {
        assert x in before;
      }
    }
  }

  /** Add distinct elements in any order, then remove them all: each comes
      back exactly once, in non-decreasing key order, and the heap is empty. */
  method HeapSort(key: seq<int>, order: seq<int>, maxHeapSize: nat) returns (out: seq<int>)
    requires DistinctIds(order, |key|) && |order| <= maxHeapSize
    ensures multiset(out) == multiset(order)
    ensures SortedBy(out, key)
  {
    var h := Build(key, order, maxHeapSize);
    var rest;
    out, rest := Drain(h, key);
  }

  /** No two elements share a key. */
  ghost predicate DistinctKeys(key: seq<int>)
  {
    forall x, y :: 0 <= x < |key| && 0 <= y < |key| && key[x] == key[y] ==> x == y
  }

  /** Dropping the first element keeps a sequence sorted. */
  lemma SortedTail(s: seq<int>, key: seq<int>)
    requires SortedBy(s, key) && |s| > 0
    ensures SortedBy(s[1..], key)
  {
    forall i, j | 0 <= i < j < |s[1..]|
      ensures key[s[1..][i]] <= key[s[1..][j]]
    {
      assert s[1..][i] == s[i + 1] && s[1..][j] == s[j + 1];
    }
  }

  /** Sortedness follows from sortedness of neighbours. */
  lemma {:induction false} SortedByAdjacent(s: seq<int>, key: seq<int>)
    requires forall i :: 0 <= i < |s| ==> 0 <= s[i] < |key|
    requires forall i :: 0 <= i < |s| - 1 ==> key[s[i]] <= key[s[i + 1]]
    ensures SortedBy(s, key)
    decreases |s|
  {
    if |s| > 1 {
      SortedByAdjacent(s[1..], key);
      forall j | 0 < j < |s|
        ensures key[s[0]] <= key[s[j]]
      {
        assert s[1..][j - 1] == s[j];
        assert s[1..][0] == s[1];
      }
      forall i, j | 0 <= i < j < |s|
        ensures key[s[i]] <= key[s[j]]
      {
        if i > 0 {
          assert s[1..][i - 1] == s[i] && s[1..][j - 1] == s[j];
        }
      }
    }
  }

  /** Two orderings of the same elements by distinct keys are the same. */
  lemma {:induction false} SortedPermutationUnique(a: seq<int>, b: seq<int>, key: seq<int>)
    requires SortedBy(a, key) && SortedBy(b, key)
    requires multiset(a) == multiset(b)
    requires DistinctKeys(key)
    ensures a == b
    decreases |a|
  {
    assert |a| == |multiset(a)| == |multiset(b)| == |b|;
    if |a| > 0 {
      SortedPermutationHead(a, b, key);
      MultisetTail(a);
      MultisetTail(b);
      SortedTail(a, key);
      SortedTail(b, key);
      SortedPermutationUnique(a[1..], b[1..], key);
      assert a == [a[0]] + a[1..];
      assert b == [b[0]] + b[1..];
    }
  }

  /** Two non-empty orderings of the same elements by distinct keys start
      with the same element. */
  lemma SortedPermutationHead(a: seq<int>, b: seq<int>, key: seq<int>)
    requires SortedBy(a, key) && SortedBy(b, key)
    requires multiset(a) == multiset(b) && |a| > 0 && |b| > 0
    requires DistinctKeys(key)
    ensures a[0] == b[0]
  {
    assert a[0] in multiset(b);
    var j :| 0 <= j < |b| && b[j] == a[0];
    assert b[0] in multiset(a);
    var i :| 0 <= i < |a| && a[i] == b[0];
    assert key[a[0]] <= key[a[i]];
    assert key[b[0]] <= key[b[j]];
  }

  /** Dropping the head of a sequence removes one copy of it from its multiset. */
  lemma MultisetTail(s: seq<int>)
    requires |s| > 0
    ensures multiset(s[1..]) == multiset(s) - multiset{s[0]}
  {
    assert s == [s[0]] + s[1..];
    assert multiset(s) == multiset{s[0]} + multiset(s[1..]);
  }

  /** The priorities `[5, 3, 8, 1, 4]` are pairwise distinct. */
  lemma ScenarioKeysDistinct(key: seq<int>)
    requires key == [5, 3, 8, 1, 4]
    ensures DistinctKeys(key)
  {
    forall x, y | 0 <= x < 5 && 0 <= y < 5 && key[x] == key[y]
      ensures x == y
    {
      assert x == 0 || x == 1 || x == 2 || x == 3 || x == 4;
      assert y == 0 || y == 1 || y == 2 || y == 3 || y == 4;
    }
  }

  /** The order in which the ids should come out lists the inserted ids. */
  lemma ScenarioExpectedPermutation(order: seq<int>, expected: seq<int>)
    requires order == [0, 1, 2, 3, 4] && expected == [3, 1, 4, 0, 2]
    ensures multiset(expected) == multiset(order)
  {
    calc {
      multiset(expected);
      multiset{3, 1, 4, 0, 2};
      multiset{0, 1, 2, 3, 4};
      multiset(order);
    }
  }

  /** The order in which the ids should come out is sorted by priority. */
  lemma ScenarioExpectedSorted(key: seq<int>, expected: seq<int>)
    requires key == [5, 3, 8, 1, 4] && expected == [3, 1, 4, 0, 2]
    ensures SortedBy(expected, key)
  {
    assert forall i :: 0 <= i < 4 ==> key[expected[i]] <= key[expected[i + 1]];
    SortedByAdjacent(expected, key);
  }

  /** Priorities [5, 3, 8, 1, 4] come out as 1, 3, 4, 5, 8, that is, as the
      ids 3, 1, 4, 0, 2. */
  method ExtractionScenario() returns (out: seq<int>)
    ensures out == [3, 1, 4, 0, 2]
  {
    var key := [5, 3, 8, 1, 4];
    var order := [0, 1, 2, 3, 4];
    var expected := [3, 1, 4, 0, 2];
    assert DistinctIds(order, |key|);
    ScenarioKeysDistinct(key);
    ScenarioExpectedPermutation(order, expected);
    ScenarioExpectedSorted(key, expected);
    out := HeapSort(key, order, 5);
    SortedPermutationUnique(expected, out, key);
  }

  /** Priorities [10, 20, 30]; the third is lowered to 5 and updated in place;
      the next `RemoveFirst` returns it. */
  method DecreaseKeyScenario() returns (first: int)
    ensures first == 2
  {
    var key := [10, 20, 30];
    var h := Build(key, [0, 1, 2], 3);
    var lowered := key[2 := 5];
    h := UpdateItem(h, lowered, 2, key);
    var rest;
    first, rest := RemoveFirst(h, lowered);
    assert first in multiset{0, 1, 2};
  }

  /** The open-set pattern `if (!Contains(n)) Add(n) else UpdateItem(n)`:
      after element 0 is added to a heap of two, `Contains` may still be
      asked about element 1, which was never added, and answers false; a
      second `Add` then takes it in. */
  method OpenSetScenario() returns (added: bool, notYet: bool, h: Heap)
    ensures added && !notYet
    ensures |h.items| == 2 && Count(h) == 2 && Live(h) == multiset{0, 1}
  {
    var key := [2, 1];
    h := New(2, [0, 0]);
    h := Add(h, key, 0);
    added := Contains(h, 0);
    notYet := Contains(h, 1);
    assert h.items[..1] == [0];
    if !notYet {
      h := Add(h, key, 1);
    }
  }
}
