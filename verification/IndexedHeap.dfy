/**
  A fixed-capacity, array-backed indexed binary min-heap whose elements
  remember their own slot (`HeapIndex`), as used by an A* open set.

  Elements live in an arena and are named by their id `0 .. N-1`.
  - `key[id]` is the element's priority; comparing two keys stands for
    `IHeapItem<T>.CompareTo`. The caller owns `key` and may lower an entry
    between calls (decrease-key), then call `UpdateItem`.
  - `heapIndex[id]` is the element's `HeapIndex` property. The heap is its only
    writer while the element is resident, so it is carried in the heap state.
  - `items` is the storage array (one id per slot, `Vacant` for a slot never
    written) and `count` is `currentItemCount`.
  Each operation takes the state and returns the new one; this is the
  mutation the C# code performs in place.
 */
module IndexedHeap {

  /** Content of a slot that was never written: the `null` of a fresh `T[]`. */
  const Vacant: int := -1

  datatype Heap = Heap(items: seq<int>, count: nat, heapIndex: seq<int>)

  /** Parent slot. `Heap.cs` computes `(int)((i - 1) * 0.5f)`, which
      truncates toward zero, so the root is its own parent. */
  function Parent(i: nat): (p: nat)
    ensures i == 0 ==> p == 0
    ensures i > 0 ==> p < i && (i == 2 * p + 1 || i == 2 * p + 2)
  {
    if i == 0 then 0 else (i - 1) / 2
  }

  /** Three-way comparison of two priorities, the `CompareTo` of an element. */
  function Compare(x: int, y: int): (r: int)
    ensures r < 0 <==> x < y
    ensures r > 0 <==> y < x
    ensures r == 0 <==> x == y
  {
    if x < y then -1 else if y < x then 1 else 0
  }

  /** The live elements: the ids in slots `[0, count)`. */
  ghost function Live(h: Heap): multiset<int>
    requires h.count <= |h.items|
  {
    multiset(h.items[..h.count])
  }

  /** Every slot below `n` holds an element whose `HeapIndex` is that slot. */
  ghost predicate IndexConsistent(h: Heap, n: nat)
  {
    && n <= |h.items|
    && forall i :: 0 <= i < n ==> 0 <= h.items[i] < |h.heapIndex| && h.heapIndex[h.items[i]] == i
  }

  /** Every slot below `n` holds an element that has a key. */
  ghost predicate Keyed(h: Heap, key: seq<int>, n: nat)
  {
    && n <= |h.items|
    && forall i :: 0 <= i < n ==> 0 <= h.items[i] < |key|
  }

  /** Heap order over the slots below `n`: no child is smaller than its parent. */
  ghost predicate HeapOrdered(h: Heap, key: seq<int>, n: nat)
  {
    && Keyed(h, key, n)
    && forall i :: 0 < i < n ==> key[h.items[Parent(i)]] <= key[h.items[i]]
  }

  /** Heap order except on the edge from slot `k` up to its parent, where an
      element is rising; the parent of `k` is still no larger than the
      children of `k`. This is what sift-up keeps. */
  ghost predicate OrderedExceptAbove(h: Heap, key: seq<int>, n: nat, k: nat)
  {
    && Keyed(h, key, n)
    && (forall i :: 0 < i < n && i != k ==> key[h.items[Parent(i)]] <= key[h.items[i]])
    && (forall i :: 0 < i < n && Parent(i) == k && 0 < k < n ==> key[h.items[Parent(k)]] <= key[h.items[i]])
  }

  /** Heap order except on the edges from slot `k` down to its children, where
      an element is sinking; the parent of `k` is still no larger than the
      children of `k`. This is what sift-down keeps. */
  ghost predicate OrderedExceptBelow(h: Heap, key: seq<int>, n: nat, k: nat)
  {
    && Keyed(h, key, n)
    && (forall i :: 0 < i < n && Parent(i) != k ==> key[h.items[Parent(i)]] <= key[h.items[i]])
    && (forall i :: 0 < i < n && Parent(i) == k && 0 < k < n ==> key[h.items[Parent(k)]] <= key[h.items[i]])
  }

  /** The invariant every public operation keeps. */
  ghost predicate Valid(h: Heap, key: seq<int>)
  {
    && |h.heapIndex| == |key|
    && IndexConsistent(h, h.count)
    && HeapOrdered(h, key, h.count)
  }

  /** `id` is resident below `n`: its `HeapIndex` names a slot that holds it. */
  ghost predicate ResidentBelow(h: Heap, id: int, n: nat)
  {
    && 0 <= id < |h.heapIndex|
    && 0 <= h.heapIndex[id] < n <= |h.items|
    && h.items[h.heapIndex[id]] == id
  }

  /** `Heap(maxHeapSize)`: empty storage of the given capacity. The elements'
      `HeapIndex` values are whatever the caller gave them. */
  function New(maxHeapSize: nat, heapIndex: seq<int>): (h: Heap)
    ensures |h.items| == maxHeapSize && h.heapIndex == heapIndex
    ensures Count(h) == 0 && Live(h) == multiset{}
    ensures forall key: seq<int> {:trigger Valid(h, key)} :: |key| == |heapIndex| ==> Valid(h, key)
  {
    Heap(seq(maxHeapSize, _ => Vacant), 0, heapIndex)
  }

  /** `Count()`: the number of live elements. */
  function Count(h: Heap): (r: nat)
    ensures h.count <= |h.items| ==> r == |Live(h)|
  {
    h.count
  }

  /** `Contains(item)`: does the slot named by the item's own `HeapIndex` hold
      it? The C# code indexes the array unchecked, so the index must be in
      bounds. For an element whose index points at or beyond `count` (one
      already removed, say) the answer is not specified here. */
  function Contains(h: Heap, id: int): (r: bool)
    requires 0 <= id < |h.heapIndex| && 0 <= h.heapIndex[id] < |h.items|
    ensures IndexConsistent(h, h.count) && id in Live(h) ==> r
    ensures IndexConsistent(h, h.count) && h.heapIndex[id] < h.count ==> (r <==> id in Live(h))
  {
    LiveIsResidentWhenConsistent(h, id);
    h.items[h.heapIndex[id]] == id
  }

  /** `Swap(a, b)`: exchange the two elements' slots and their `HeapIndex`
      values; no other slot and no other index changes. */
  function Swap(h: Heap, a: int, b: int): (h': Heap)
    requires 0 <= a < |h.heapIndex| && 0 <= b < |h.heapIndex|
    requires 0 <= h.heapIndex[a] < |h.items| && 0 <= h.heapIndex[b] < |h.items|
    ensures h'.count == h.count && |h'.items| == |h.items| && |h'.heapIndex| == |h.heapIndex|
    ensures h'.items[h.heapIndex[b]] == a
    ensures h.heapIndex[a] != h.heapIndex[b] ==> h'.items[h.heapIndex[a]] == b
    ensures forall i :: 0 <= i < |h.items| && i != h.heapIndex[a] && i != h.heapIndex[b] ==> h'.items[i] == h.items[i]
    ensures h'.heapIndex[a] == h.heapIndex[b] && h'.heapIndex[b] == h.heapIndex[a]
    ensures forall j :: 0 <= j < |h.heapIndex| && j != a && j != b ==> h'.heapIndex[j] == h.heapIndex[j]
  {
    var items := h.items[h.heapIndex[a] := b][h.heapIndex[b] := a];
    var itemAIndex := h.heapIndex[a];
    var heapIndex := h.heapIndex[a := h.heapIndex[b]][b := itemAIndex];
    Heap(items, h.count, heapIndex)
  }

  /** Swapping two resident elements keeps index consistency and the live
      multiset, and touches no slot at or above `n`. */
  lemma SwapKeepsIndexConsistent(h: Heap, n: nat, a: int, b: int)
    requires IndexConsistent(h, n)
    requires ResidentBelow(h, a, n) && ResidentBelow(h, b, n)
    ensures IndexConsistent(Swap(h, a, b), n)
    ensures multiset(Swap(h, a, b).items[..n]) == multiset(h.items[..n])
    ensures Swap(h, a, b).items[n..] == h.items[n..]
  {
    SwapKeepsIndex(h, n, a, b);
    SwapKeepsRegion(h, n, a, b);
  }

  /** Swapping two resident elements keeps index consistency. */
  lemma SwapKeepsIndex(h: Heap, n: nat, a: int, b: int)
    requires IndexConsistent(h, n)
    requires ResidentBelow(h, a, n) && ResidentBelow(h, b, n)
    ensures IndexConsistent(Swap(h, a, b), n)
  {
  }

  /** Swapping two resident elements permutes the region and leaves the
      slots above it alone. */
  lemma SwapKeepsRegion(h: Heap, n: nat, a: int, b: int)
    requires ResidentBelow(h, a, n) && ResidentBelow(h, b, n)
    ensures multiset(Swap(h, a, b).items[..n]) == multiset(h.items[..n])
    ensures Swap(h, a, b).items[n..] == h.items[n..]
  {
    var h' := Swap(h, a, b);
    var i, j := h.heapIndex[a], h.heapIndex[b];
    if i != j {
      var s := h.items[..n];
      assert h'.items[..n] == s[i := b][j := a];
      assert s[i := b][j := a] == s[i := s[j]][j := s[i]];
      SwapPositionsKeepsMultiset(s, i, j);
    } else {
      assert h'.items == h.items;
    }
    assert h'.items[n..] == h.items[n..];
  }

  /** Exchanging two positions of a sequence is a permutation. */
  lemma SwapPositionsKeepsMultiset(s: seq<int>, i: nat, j: nat)
    requires i < |s| && j < |s|
    ensures multiset(s[i := s[j]][j := s[i]]) == multiset(s)
  {
  }

  /** Membership in the live multiset and residency agree under index consistency. */
  lemma LiveIsResidentWhenConsistent(h: Heap, id: int)
    ensures IndexConsistent(h, h.count) && id in Live(h) ==> ResidentBelow(h, id, h.count)
  {
    if IndexConsistent(h, h.count) && id in Live(h) {
      LiveIsResident(h, id);
    }
  }

  /** Every element outside `m` has the same `HeapIndex` in `h1` as in `h0`. */
  ghost predicate IndexKeptOutside(h0: Heap, h1: Heap, m: multiset<int>)
  {
    && |h1.heapIndex| == |h0.heapIndex|
    && forall j :: 0 <= j < |h0.heapIndex| && j !in m ==> h1.heapIndex[j] == h0.heapIndex[j]
  }

  /** Swapping two resident elements writes no `HeapIndex` outside the
      live region's multiset `m`. */
  lemma SwapKeepsIndexOutside(h0: Heap, h: Heap, n: nat, m: multiset<int>, a: int, b: int)
    requires ResidentBelow(h, a, n) && ResidentBelow(h, b, n)
    requires multiset(h.items[..n]) == m && IndexKeptOutside(h0, h, m)
    ensures IndexKeptOutside(h0, Swap(h, a, b), m)
  {
    assert h.items[..n][h.heapIndex[a]] == a && h.items[..n][h.heapIndex[b]] == b;
  }

  /** Swapping two resident elements twice restores the state. */
  lemma SwapInvolutive(h: Heap, a: int, b: int)
    requires 0 <= a < |h.heapIndex| && 0 <= b < |h.heapIndex|
    requires 0 <= h.heapIndex[a] < |h.items| && 0 <= h.heapIndex[b] < |h.items|
    requires h.items[h.heapIndex[a]] == a && h.items[h.heapIndex[b]] == b
    ensures Swap(Swap(h, a, b), a, b) == h
  {
    var h2 := Swap(Swap(h, a, b), a, b);
    assert h2.items == h.items;
    assert h2.heapIndex == h.heapIndex;
  }

  /** Under index consistency, a live element is resident at its `HeapIndex`. */
  lemma LiveIsResident(h: Heap, id: int)
    requires IndexConsistent(h, h.count)
    requires id in Live(h)
    ensures ResidentBelow(h, id, h.count)
  {
    var i :| 0 <= i < h.count && h.items[..h.count][i] == id;
    assert h.items[i] == id;
  }

  /** In a heap-ordered prefix the root key is no larger than any key below `n`. */
  lemma {:induction false} RootIsMinimal(h: Heap, key: seq<int>, n: nat, i: nat)
    requires HeapOrdered(h, key, n)
    requires i < n
    ensures key[h.items[0]] <= key[h.items[i]]
    decreases i
  {
    if i > 0 {
      RootIsMinimal(h, key, n, Parent(i));
    }
  }

  /** The root of a valid, non-empty heap has a minimal key among the live elements. */
  lemma RootIsLowerBound(h: Heap, key: seq<int>)
    requires Valid(h, key) && h.count > 0
    ensures forall x :: x in Live(h) ==> 0 <= x < |key| && key[h.items[0]] <= key[x]
  {
    forall x | x in Live(h)
      ensures 0 <= x < |key| && key[h.items[0]] <= key[x]
    {
      var i :| 0 <= i < h.count && h.items[..h.count][i] == x;
      assert h.items[i] == x;
      RootIsMinimal(h, key, h.count, i);
    }
  }

  /** Slot `a` is slot `k` or one of its ancestors. */
  ghost predicate AncestorOf(a: nat, k: nat)
    decreases k
  {
    a == k || (k > 0 && AncestorOf(a, Parent(k)))
  }

  /** An ancestor is never below its descendant. */
  lemma AncestorIsAbove(a: nat, k: nat)
    requires AncestorOf(a, k)
    ensures a <= k
    decreases k
  {
    if a != k {
      AncestorIsAbove(a, Parent(k));
    }
  }

  /** The ancestors of `n` form a chain: of two of them, the upper one is an
      ancestor of the lower one. */
  lemma {:induction false} AncestorChain(s: nat, k: nat, n: nat)
    requires AncestorOf(s, n) && AncestorOf(k, n) && s <= k
    ensures AncestorOf(s, k)
    decreases n
  {
    if k != n {
      if s == n {
        AncestorIsAbove(k, n);
      } else {
        AncestorChain(s, k, Parent(n));
      }
    }
  }

  /** Being an ancestor is transitive. */
  lemma AncestorTrans(a: nat, b: nat, c: nat)
    requires AncestorOf(a, b) && AncestorOf(b, c)
    ensures AncestorOf(a, c)
    decreases c
  {
    if b != c {
      AncestorTrans(a, b, Parent(c));
    }
  }

  /** `h` is `h0` after element `id` rose from slot `k0` to slot `k`: only
      slots on the path from `k0` up to `k` changed, each path slot below `k`
      now holds the element that was its parent, and every element moved down
      that way was strictly larger than `id`. */
  ghost predicate RisenAlong(h0: Heap, h: Heap, key: seq<int>, id: int, k0: nat, k: nat)
  {
    && |h.items| == |h0.items| && k <= k0 < |h0.items| && 0 <= id < |key|
    && AncestorOf(k, k0)
    && (forall s {:trigger h.items[s]} :: 0 <= s < |h0.items| && !(AncestorOf(s, k0) && k <= s) ==> h.items[s] == h0.items[s])
    && (forall s {:trigger h.items[s], Parent(s)} :: 0 <= s < |h0.items| && AncestorOf(s, k0) && k < s ==>
          && h.items[s] == h0.items[Parent(s)]
          && 0 <= h0.items[Parent(s)] < |key| && key[id] < key[h0.items[Parent(s)]])
  }

  /** `h` is `h0` after element `id` sank from slot `k0` to slot `k`: only
      slots on the path from `k0` down to `k` changed, each path slot below
      `k0` is the child sift-down picks under its parent, and its element,
      strictly smaller than `id`, moved up into that parent. */
  ghost predicate SankAlong(h0: Heap, h: Heap, key: seq<int>, id: int, k0: nat, k: nat)
  {
    && |h.items| == |h0.items| && h.count == h0.count && 0 <= id < |key|
    && Keyed(h0, key, h0.count)
    && AncestorOf(k0, k) && (k == k0 || k < h0.count)
    && (forall s {:trigger h.items[s]} :: 0 <= s < |h0.items| && !(AncestorOf(s, k) && k0 <= s) ==> h.items[s] == h0.items[s])
    && (forall s {:trigger h.items[Parent(s)]} :: 0 < s < h0.count && AncestorOf(s, k) && k0 < s ==>
          && h.items[Parent(s)] == h0.items[s]
          && s == SmallerChild(h0, key, Parent(s))
          && key[h0.items[s]] < key[id])
  }

  /** Before the first swap the path is the start slot alone. */
  lemma RisenAlongStart(h: Heap, key: seq<int>, id: int, k0: nat)
    requires k0 < |h.items| && 0 <= id < |key|
    ensures RisenAlong(h, h, key, id, k0, k0)
  {
    forall s | 0 <= s < |h.items| && AncestorOf(s, k0)
      ensures s <= k0
    {
      AncestorIsAbove(s, k0);
    }
  }

  /** Before the first swap the path is the start slot alone. */
  lemma SankAlongStart(h: Heap, key: seq<int>, id: int, k0: nat)
    requires Keyed(h, key, h.count) && 0 <= id < |key|
    ensures SankAlong(h, h, key, id, k0, k0)
  {
    forall s | 0 <= s < |h.items| && AncestorOf(s, k0)
      ensures s <= k0
    {
      AncestorIsAbove(s, k0);
    }
  }

  /** One sift-up swap extends the path by the parent slot. */
  lemma RisenAlongStep(h0: Heap, h: Heap, key: seq<int>, id: int, k0: nat, k: nat)
    requires RisenAlong(h0, h, key, id, k0, k) && k > 0
    requires 0 <= id < |h.heapIndex| && h.heapIndex[id] == k && h.items[k] == id
    requires 0 <= h.items[Parent(k)] < |h.heapIndex| && h.heapIndex[h.items[Parent(k)]] == Parent(k)
    requires 0 <= h.items[Parent(k)] < |key| && key[id] < key[h.items[Parent(k)]]
    ensures RisenAlong(h0, Swap(h, id, h.items[Parent(k)]), key, id, k0, Parent(k))
  {
    var p := Parent(k);
    var q := h.items[p];
    var h' := Swap(h, id, q);
    assert AncestorOf(p, k);
    AncestorTrans(p, k, k0);
    AncestorIsAbove(k, k0);
    assert q == h0.items[p];
    assert h'.items[k] == q && h'.items[p] == id;
    forall s | 0 <= s < |h0.items| && AncestorOf(s, k0) && p < s
      ensures h'.items[s] == h0.items[Parent(s)]
      ensures 0 <= h0.items[Parent(s)] < |key| && key[id] < key[h0.items[Parent(s)]]
    {
      if s < k {
        AncestorChain(s, k, k0);
        assert AncestorOf(s, p);
        AncestorIsAbove(s, p);
      } else if s > k {
        assert h'.items[s] == h.items[s];
      }
    }
  }

  /** One sift-down swap extends the path by the child it picks. */
  lemma SankAlongStep(h0: Heap, h: Heap, key: seq<int>, id: int, k0: nat, k: nat, c: nat)
    requires SankAlong(h0, h, key, id, k0, k) && Keyed(h, key, h.count)
    requires 0 <= id < |h.heapIndex| && k < h.count && h.heapIndex[id] == k && h.items[k] == id
    requires 2 * k + 1 < h.count && c == SmallerChild(h, key, k)
    requires 0 <= h.items[c] < |h.heapIndex| && h.heapIndex[h.items[c]] == c
    requires key[h.items[c]] < key[id]
    ensures SmallerChild(h, key, k) == SmallerChild(h0, key, k)
    ensures SankAlong(h0, Swap(h, id, h.items[c]), key, id, k0, c)
  {
    ChildrenOffPath(h0, h, key, id, k0, k);
    var h' := Swap(h, id, h.items[c]);
    assert h'.items[k] == h.items[c] && h'.items[c] == id;
    assert AncestorOf(k, c);
    AncestorIsAbove(k0, k);
    AncestorTrans(k0, k, c);
    forall s | 0 <= s < |h0.items| && !(AncestorOf(s, c) && k0 <= s)
      ensures h'.items[s] == h0.items[s]
    {
      if AncestorOf(s, k) {
        AncestorTrans(s, k, c);
      }
      assert s != k && s != c;
    }
    forall s | 0 < s < h0.count && AncestorOf(s, c) && k0 < s
      ensures h'.items[Parent(s)] == h0.items[s]
      ensures s == SmallerChild(h0, key, Parent(s))
      ensures key[h0.items[s]] < key[id]
    {
      if s != c {
        assert AncestorOf(s, k);
        AncestorIsAbove(s, k);
        assert Parent(s) != k && Parent(s) != c;
      }
    }
  }

  /** The children of the sinking element's slot are not on its path yet. */
  lemma ChildrenOffPath(h0: Heap, h: Heap, key: seq<int>, id: int, k0: nat, k: nat)
    requires SankAlong(h0, h, key, id, k0, k) && 2 * k + 1 < h.count
    ensures h.items[2 * k + 1] == h0.items[2 * k + 1]
    ensures 2 * k + 2 < h.count ==> h.items[2 * k + 2] == h0.items[2 * k + 2]
  {
    NotAncestorOfChild(2 * k + 1, k);
    NotAncestorOfChild(2 * k + 2, k);
  }

  /** A slot below `k` is not an ancestor of `k`. */
  lemma NotAncestorOfChild(c: nat, k: nat)
    requires k < c
    ensures !AncestorOf(c, k)
  {
    if AncestorOf(c, k) {
      AncestorIsAbove(c, k);
    }
  }

  /** One step of sift-up: swapping a rising element with a strictly larger
      parent moves the broken edge one level up. */
  lemma SortUpStep(h: Heap, key: seq<int>, n: nat, id: int)
    requires |h.heapIndex| == |key| && IndexConsistent(h, n)
    requires ResidentBelow(h, id, n) && h.heapIndex[id] > 0
    requires OrderedExceptAbove(h, key, n, h.heapIndex[id])
    requires key[id] < key[h.items[Parent(h.heapIndex[id])]]
    ensures var h' := Swap(h, id, h.items[Parent(h.heapIndex[id])]);
      && IndexConsistent(h', n)
      && h'.heapIndex[id] == Parent(h.heapIndex[id])
      && ResidentBelow(h', id, n)
      && OrderedExceptAbove(h', key, n, h'.heapIndex[id])
      && multiset(h'.items[..n]) == multiset(h.items[..n])
      && h'.items[n..] == h.items[n..]
  {
    var k := h.heapIndex[id];
    var p := Parent(k);
    var q := h.items[p];
    assert h.heapIndex[q] == p;
    SwapKeepsIndexConsistent(h, n, id, q);
    var h' := Swap(h, id, q);
    assert h'.items[p] == id && h'.items[k] == q;
    forall i | 0 < i < n && i != p
      ensures key[h'.items[Parent(i)]] <= key[h'.items[i]]
    {
      if i == k {
      } else if Parent(i) == k {
        assert h'.items[i] == h.items[i];
      } else if Parent(i) == p {
        assert h'.items[i] == h.items[i];
      } else {
        assert h'.items[i] == h.items[i];
      }
    }
    forall i | 0 < i < n && Parent(i) == p && 0 < p < n
      ensures key[h'.items[Parent(p)]] <= key[h'.items[i]]
    {
      assert Parent(p) < p;
      assert h'.items[Parent(p)] == h.items[Parent(p)];
      if i != k {
        assert h'.items[i] == h.items[i];
      }
    }
  }

  /** One step of sift-down: swapping a sinking element with its smaller,
      strictly smaller child moves the broken edges one level down. */
  lemma SortDownStep(h: Heap, key: seq<int>, id: int, c: nat)
    requires |h.heapIndex| == |key| && IndexConsistent(h, h.count)
    requires ResidentBelow(h, id, h.count)
    requires OrderedExceptBelow(h, key, h.count, h.heapIndex[id])
    requires 0 < c < h.count && Parent(c) == h.heapIndex[id]
    requires forall s :: 0 < s < h.count && Parent(s) == h.heapIndex[id] ==> key[h.items[c]] <= key[h.items[s]]
    requires key[h.items[c]] < key[id]
    ensures var h' := Swap(h, id, h.items[c]);
      && IndexConsistent(h', h.count)
      && h'.heapIndex[id] == c
      && ResidentBelow(h', id, h.count)
      && OrderedExceptBelow(h', key, h.count, c)
      && multiset(h'.items[..h.count]) == multiset(h.items[..h.count])
      && h'.items[h.count..] == h.items[h.count..]
  {
    var n := h.count;
    var k := h.heapIndex[id];
    var m := h.items[c];
    assert h.heapIndex[m] == c;
    SwapKeepsIndexConsistent(h, n, id, m);
    var h' := Swap(h, id, m);
    assert h'.items[k] == m && h'.items[c] == id;
    forall i | 0 < i < n && Parent(i) != c
      ensures key[h'.items[Parent(i)]] <= key[h'.items[i]]
    {
      if i == c {
      } else if Parent(i) == k {
        assert h'.items[i] == h.items[i];
      } else if i == k {
        assert h'.items[Parent(k)] == h.items[Parent(k)];
      } else {
        assert h'.items[i] == h.items[i];
        assert h'.items[Parent(i)] == h.items[Parent(i)];
      }
    }
    forall i | 0 < i < n && Parent(i) == c && 0 < c < n
      ensures key[h'.items[Parent(c)]] <= key[h'.items[i]]
    {
      assert h'.items[i] == h.items[i];
    }
  }

  /** The child of slot `k` that sift-down compares against: the left one,
      unless a right one exists below `count` with a strictly smaller key.
      Its key is the least among the children of `k`. */
  function SmallerChild(h: Heap, key: seq<int>, k: nat): (c: nat)
    requires Keyed(h, key, h.count) && 2 * k + 1 < h.count
    ensures Parent(c) == k && 0 < c < h.count
    ensures c == 2 * k + 1 || (c == 2 * k + 2 && key[h.items[2 * k + 2]] < key[h.items[2 * k + 1]])
    ensures forall s :: 0 < s < h.count && Parent(s) == k ==> key[h.items[c]] <= key[h.items[s]]
  {
    var childIndexLeft := k * 2 + 1;
    var childIndexRight := k * 2 + 2;
    if childIndexRight < h.count && Compare(key[h.items[childIndexLeft]], key[h.items[childIndexRight]]) > 0 then
      childIndexRight
    else
      childIndexLeft
  }

  /** Sift-down may stop once the sinking element is no larger than each of
      its children below `count` (vacuously so at a leaf). */
  lemma SortDownStops(h: Heap, key: seq<int>, id: int)
    requires 0 <= id < |key| && 0 <= id < |h.heapIndex| && 0 <= h.heapIndex[id]
    requires OrderedExceptBelow(h, key, h.count, h.heapIndex[id])
    requires h.heapIndex[id] < h.count ==> h.items[h.heapIndex[id]] == id
    requires forall c :: 0 < c < h.count && Parent(c) == h.heapIndex[id] ==> key[id] <= key[h.items[c]]
    ensures HeapOrdered(h, key, h.count)
  {
    var k := h.heapIndex[id];
    forall i | 0 < i < h.count
      ensures key[h.items[Parent(i)]] <= key[h.items[i]]
    {
      if Parent(i) == k {
        assert h.items[k] == id;
      }
    }
  }

  /** What the sift-up loop keeps about the state `h` it has reached from
      `h0`. */
  ghost predicate SortUpInv(h0: Heap, h: Heap, key: seq<int>, id: int, n: nat)
  {
    && |h0.heapIndex| == |key| && ResidentBelow(h0, id, n) && Keyed(h0, key, n)
    && h.count == h0.count && |h.items| == |h0.items| && |h.heapIndex| == |h0.heapIndex|
    && IndexConsistent(h, n)
    && ResidentBelow(h, id, n) && h.heapIndex[id] <= h0.heapIndex[id]
    && OrderedExceptAbove(h, key, n, h.heapIndex[id])
    && multiset(h.items[..n]) == multiset(h0.items[..n])
    && h.items[n..] == h0.items[n..]
    && (key[h0.items[Parent(h0.heapIndex[id])]] <= key[id] ==> h == h0)
    && IndexKeptOutside(h0, h, multiset(h0.items[..n]))
    && RisenAlong(h0, h, key, id, h0.heapIndex[id], h.heapIndex[id])
  }

  /** One pass of the sift-up loop that swaps keeps `SortUpInv`. */
  lemma SortUpInvStep(h0: Heap, h: Heap, key: seq<int>, id: int, n: nat)
    requires SortUpInv(h0, h, key, id, n)
    requires key[id] < key[h.items[Parent(h.heapIndex[id])]]
    ensures h.heapIndex[id] > 0
    ensures SortUpInv(h0, Swap(h, id, h.items[Parent(h.heapIndex[id])]), key, id, n)
    ensures Swap(h, id, h.items[Parent(h.heapIndex[id])]).heapIndex[id] == Parent(h.heapIndex[id])
  {
    var parentItem := h.items[Parent(h.heapIndex[id])];
    SwapKeepsIndexOutside(h0, h, n, multiset(h0.items[..n]), id, parentItem);
    RisenAlongStep(h0, h, key, id, h0.heapIndex[id], h.heapIndex[id]);
    SortUpStep(h, key, n, id);
  }

  /** Sift-up may stop once the element is at the root or no smaller than
      its parent; `SortUpInv` then gives everything `SortUp` promises. */
  lemma SortUpInvStops(h0: Heap, h: Heap, key: seq<int>, id: int, n: nat)
    requires SortUpInv(h0, h, key, id, n)
    requires key[h.items[Parent(h.heapIndex[id])]] <= key[id]
    ensures IndexConsistent(h, n) && HeapOrdered(h, key, n)
    ensures h.heapIndex[id] == 0 || key[h0.items[Parent(h.heapIndex[id])]] <= key[id]
  {
    var k := h.heapIndex[id];
    if k > 0 {
      assert Parent(k) < k;
      assert h.items[Parent(k)] == h0.items[Parent(k)];
    }
  }

  /** `SortUp(item)`: move the element toward the root while it is strictly
      smaller than its parent. It reads no slot at or above the element's
      slot, so it does not look at `count`; `n` bounds the region it keeps
      ordered. */
  method SortUp(h: Heap, key: seq<int>, id: int, ghost n: nat) returns (h': Heap)
    requires |h.heapIndex| == |key| && IndexConsistent(h, n)
    requires ResidentBelow(h, id, n)
    requires OrderedExceptAbove(h, key, n, h.heapIndex[id])
    ensures h'.count == h.count && |h'.items| == |h.items| && |h'.heapIndex| == |h.heapIndex|
    ensures IndexConsistent(h', n) && HeapOrdered(h', key, n)
    ensures multiset(h'.items[..n]) == multiset(h.items[..n])
    ensures h'.items[n..] == h.items[n..]
    ensures ResidentBelow(h', id, n) && h'.heapIndex[id] <= h.heapIndex[id]
    ensures key[h.items[Parent(h.heapIndex[id])]] <= key[id] ==> h' == h
    ensures forall j :: 0 <= j < |h.heapIndex| && j !in multiset(h.items[..n]) ==> h'.heapIndex[j] == h.heapIndex[j]
    ensures RisenAlong(h, h', key, id, h.heapIndex[id], h'.heapIndex[id])
    ensures h'.heapIndex[id] == 0 || key[h.items[Parent(h'.heapIndex[id])]] <= key[id]
  {
    h' := h;
    RisenAlongStart(h, key, id, h.heapIndex[id]);
    var parentIndex := Parent(h'.heapIndex[id]);
    while true
      invariant SortUpInv(h, h', key, id, n)
      invariant parentIndex == Parent(h'.heapIndex[id])
      decreases h'.heapIndex[id]
    {
      var parentItem := h'.items[parentIndex];
      if Compare(key[id], key[parentItem]) < 0 {
        SortUpInvStep(h, h', key, id, n);
        h' := Swap(h', id, parentItem);
      } else {
        SortUpInvStops(h, h', key, id, n);
        break;
      }
      parentIndex := Parent(h'.heapIndex[id]);
    }
  }

  /** What the sift-down loop keeps about the state `h` it has reached from
      `h0`. */
  ghost predicate SortDownInv(h0: Heap, h: Heap, key: seq<int>, id: int)
  {
    && |h0.heapIndex| == |key| && 0 <= id < |key| && 0 <= h0.heapIndex[id] && Keyed(h0, key, h0.count)
    && h.count == h0.count && |h.items| == |h0.items| && |h.heapIndex| == |h0.heapIndex|
    && IndexConsistent(h, h.count)
    && h0.heapIndex[id] <= h.heapIndex[id]
    && (h.heapIndex[id] < h.count ==> h.items[h.heapIndex[id]] == id)
    && OrderedExceptBelow(h, key, h.count, h.heapIndex[id])
    && multiset(h.items[..h.count]) == multiset(h0.items[..h0.count])
    && h.items[h.count..] == h0.items[h0.count..]
    && ((forall c :: 0 < c < h0.count && Parent(c) == h0.heapIndex[id] ==> key[id] <= key[h0.items[c]]) ==> h == h0)
    && IndexKeptOutside(h0, h, multiset(h0.items[..h0.count]))
    && SankAlong(h0, h, key, id, h0.heapIndex[id], h.heapIndex[id])
  }

  /** One pass of the sift-down loop that swaps keeps `SortDownInv`. */
  lemma SortDownInvStep(h0: Heap, h: Heap, key: seq<int>, id: int, c: nat)
    requires SortDownInv(h0, h, key, id)
    requires 2 * h.heapIndex[id] + 1 < h.count && c == SmallerChild(h, key, h.heapIndex[id])
    requires key[h.items[c]] < key[id]
    ensures SortDownInv(h0, Swap(h, id, h.items[c]), key, id)
    ensures Swap(h, id, h.items[c]).heapIndex[id] == c
  {
    var k := h.heapIndex[id];
    SwapKeepsIndexOutside(h0, h, h.count, multiset(h0.items[..h0.count]), id, h.items[c]);
    SankAlongStep(h0, h, key, id, h0.heapIndex[id], k, c);
    SortDownStep(h, key, id, c);
  }

  /** Sift-down may stop once the element has no child below `count` or is
      no larger than the child it would be compared with; `SortDownInv` then
      gives everything `SortDown` promises. */
  lemma SortDownInvStops(h0: Heap, h: Heap, key: seq<int>, id: int)
    requires SortDownInv(h0, h, key, id)
    requires 2 * h.heapIndex[id] + 1 < h.count ==> key[id] <= key[h.items[SmallerChild(h, key, h.heapIndex[id])]]
    ensures IndexConsistent(h, h.count) && HeapOrdered(h, key, h.count)
    ensures forall c :: 0 < c < h0.count && Parent(c) == h.heapIndex[id] ==> key[id] <= key[h0.items[c]]
  {
    var k := h.heapIndex[id];
    if 2 * k + 1 < h.count {
      ChildrenOffPath(h0, h, key, id, h0.heapIndex[id], k);
    }
    SortDownStops(h, key, id);
  }

  /** `SortDown(item)`: move the element toward the leaves while it is
      strictly larger than its smaller child; on equal children the left one
      is chosen. It stops at once when the element has no left child below
      `count`, in particular when its slot is at or above `count`. */
  method SortDown(h: Heap, key: seq<int>, id: int) returns (h': Heap)
    requires |h.heapIndex| == |key| && IndexConsistent(h, h.count)
    requires 0 <= id < |key| && 0 <= h.heapIndex[id]
    requires h.heapIndex[id] < h.count ==> h.items[h.heapIndex[id]] == id
    requires OrderedExceptBelow(h, key, h.count, h.heapIndex[id])
    ensures h'.count == h.count && |h'.items| == |h.items| && |h'.heapIndex| == |h.heapIndex|
    ensures IndexConsistent(h', h.count) && HeapOrdered(h', key, h.count)
    ensures multiset(h'.items[..h.count]) == multiset(h.items[..h.count])
    ensures h'.items[h.count..] == h.items[h.count..]
    ensures h.heapIndex[id] <= h'.heapIndex[id]
    ensures (forall c :: 0 < c < h.count && Parent(c) == h.heapIndex[id] ==> key[id] <= key[h.items[c]]) ==> h' == h
    ensures forall j :: 0 <= j < |h.heapIndex| && j !in multiset(h.items[..h.count]) ==> h'.heapIndex[j] == h.heapIndex[j]
    ensures SankAlong(h, h', key, id, h.heapIndex[id], h'.heapIndex[id])
    ensures forall c :: 0 < c < h.count && Parent(c) == h'.heapIndex[id] ==> key[id] <= key[h.items[c]]
  {
    h' := h;
    SankAlongStart(h, key, id, h.heapIndex[id]);
    while true
      invariant SortDownInv(h, h', key, id)
      decreases h.count - h'.heapIndex[id]
    {
      var k := h'.heapIndex[id];
      var childIndexLeft := k * 2 + 1;
      if childIndexLeft < h'.count {
        var swapIndex := SmallerChild(h', key, k);
        var candidate := h'.items[swapIndex];
        if Compare(key[id], key[candidate]) > 0 {
          SortDownInvStep(h, h', key, id, swapIndex);
          h' := Swap(h', id, candidate);
        } else {
          SortDownInvStops(h, h', key, id);
          return;
        }
      } else {
        SortDownInvStops(h, h', key, id);
        return;
      }
    }
  }

  /** The first half of `Add`: write the item into slot `count` and set its
      `HeapIndex` to that slot; the count is not yet raised. */
  method Place(h: Heap, key: seq<int>, item: int) returns (placed: Heap)
    requires Valid(h, key) && h.count < |h.items|
    requires 0 <= item < |key| && item !in Live(h)
    ensures placed.count == h.count && |placed.items| == |h.items|
    ensures IndexConsistent(placed, h.count + 1) && ResidentBelow(placed, item, h.count + 1)
    ensures placed.heapIndex[item] == h.count && IndexKeptOutside(h, placed, multiset{item})
    ensures multiset(placed.items[..h.count + 1]) == Live(h) + multiset{item}
    ensures placed.items[h.count + 1..] == h.items[h.count + 1..]
    ensures OrderedExceptAbove(placed, key, h.count + 1, h.count)
  {
    placed := Heap(h.items[h.count := item], h.count, h.heapIndex[item := h.count]);
    PlaceKeeps(h, item, placed);
    PlaceOrdered(h, key, item, placed);
  }

  /** Index consistency and the multiset of the region after placing. */
  lemma PlaceKeeps(h: Heap, item: int, placed: Heap)
    requires IndexConsistent(h, h.count) && h.count < |h.items|
    requires 0 <= item < |h.heapIndex| && item !in Live(h)
    requires placed == Heap(h.items[h.count := item], h.count, h.heapIndex[item := h.count])
    ensures IndexConsistent(placed, h.count + 1)
    ensures multiset(placed.items[..h.count + 1]) == Live(h) + multiset{item}
    ensures placed.items[h.count + 1..] == h.items[h.count + 1..]
  {
    assert placed.items[..h.count + 1] == h.items[..h.count] + [item];
    forall i | 0 <= i < h.count
      ensures h.items[i] != item
    {
      assert h.items[i] == h.items[..h.count][i];
    }
  }

  /** A freshly placed item breaks heap order at most on its edge upward. */
  lemma PlaceOrdered(h: Heap, key: seq<int>, item: int, placed: Heap)
    requires Valid(h, key) && h.count < |h.items| && 0 <= item < |key|
    requires placed == Heap(h.items[h.count := item], h.count, h.heapIndex[item := h.count])
    ensures OrderedExceptAbove(placed, key, h.count + 1, h.count)
  {
    forall i | 0 <= i < h.count
      ensures placed.items[i] == h.items[i]
    {
    }
  }

  /** `Add(item)`: place the item in slot `count`, sift it up, then count it. */
  method Add(h: Heap, key: seq<int>, item: int) returns (h': Heap)
    requires Valid(h, key) && h.count < |h.items|
    requires 0 <= item < |key| && item !in Live(h)
    ensures Valid(h', key)
    ensures Count(h') == Count(h) + 1 && |h'.items| == |h.items|
    ensures Live(h') == Live(h) + multiset{item}
    ensures 0 <= h'.heapIndex[item] < |h'.items| && Contains(h', item)
    ensures h'.items[h'.count..] == h.items[h'.count..]
    ensures forall j :: 0 <= j < |h.heapIndex| && j !in Live(h') ==> h'.heapIndex[j] == h.heapIndex[j]
  {
    var n := h.count + 1;
    var placed := Place(h, key, item);
    var sorted := SortUp(placed, key, item, n);
    h' := sorted.(count := n);
    AddFinish(h, key, item, n, placed, sorted, h');
  }

  /** The second half of `Add`: once the placed item has been sifted up,
      counting it gives a valid heap with that item added. */
  lemma AddFinish(h: Heap, key: seq<int>, item: int, n: nat, placed: Heap, sorted: Heap, h': Heap)
    requires n == h.count + 1
    requires |h.heapIndex| == |key| && h.count < |h.items| && 0 <= item < |key|
    requires |placed.items| == |h.items| && IndexKeptOutside(h, placed, multiset{item})
    requires multiset(placed.items[..n]) == Live(h) + multiset{item}
    requires placed.items[n..] == h.items[n..]
    requires |sorted.items| == |placed.items| && |sorted.heapIndex| == |placed.heapIndex|
    requires IndexConsistent(sorted, n) && HeapOrdered(sorted, key, n)
    requires multiset(sorted.items[..n]) == multiset(placed.items[..n])
    requires sorted.items[n..] == placed.items[n..]
    requires ResidentBelow(sorted, item, n)
    requires forall j :: 0 <= j < |placed.heapIndex| && j !in multiset(placed.items[..n]) ==> sorted.heapIndex[j] == placed.heapIndex[j]
    requires h' == sorted.(count := n)
    ensures Valid(h', key)
    ensures Count(h') == Count(h) + 1 && |h'.items| == |h.items|
    ensures Live(h') == Live(h) + multiset{item}
    ensures 0 <= h'.heapIndex[item] < |h'.items| && Contains(h', item)
    ensures h'.items[h'.count..] == h.items[h'.count..]
    ensures forall j :: 0 <= j < |h.heapIndex| && j !in Live(h') ==> h'.heapIndex[j] == h.heapIndex[j]
  {
    assert Live(h') == multiset(sorted.items[..n]);
    assert item in Live(h');
  }

  /** The first half of `RemoveFirst`: count one element fewer, move the
      last live element into slot 0 and set its `HeapIndex` to 0. */
  function DetachRoot(h: Heap): (moved: Heap)
    requires IndexConsistent(h, h.count) && h.count > 0
    ensures moved.count == h.count - 1 && |moved.items| == |h.items| && moved.heapIndex == h.heapIndex[h.items[h.count - 1] := 0]
    ensures IndexConsistent(moved, moved.count)
    ensures moved.heapIndex[h.items[moved.count]] == 0
    ensures moved.count > 0 ==> moved.items[0] == h.items[moved.count]
    ensures multiset(moved.items[..moved.count]) == Live(h) - multiset{h.items[0]}
    ensures moved.items[moved.count..] == h.items[moved.count..]
  {
    var count := h.count - 1;
    var last := h.items[count];
    var moved := Heap(h.items[0 := last], count, h.heapIndex[last := 0]);
    DetachRootKeeps(h, moved);
    moved
  }

  /** Index consistency and the live multiset after detaching the root. */
  lemma DetachRootKeeps(h: Heap, moved: Heap)
    requires IndexConsistent(h, h.count) && h.count > 0
    requires moved == Heap(h.items[0 := h.items[h.count - 1]], h.count - 1, h.heapIndex[h.items[h.count - 1] := 0])
    ensures IndexConsistent(moved, moved.count)
    ensures multiset(moved.items[..moved.count]) == Live(h) - multiset{h.items[0]}
    ensures moved.items[moved.count..] == h.items[moved.count..]
  {
    var first := h.items[0];
    var count := h.count - 1;
    var last := h.items[count];
    if count > 0 {
      assert h.items[..h.count] == [first] + h.items[1..count] + [last];
      assert moved.items[..count] == [last] + h.items[1..count];
    } else {
      assert h.items[..h.count] == [first];
    }
    forall i | 0 < i < count
      ensures moved.heapIndex[moved.items[i]] == i
    {
      assert h.heapIndex[h.items[i]] == i;
    }
    assert moved.items[count..] == h.items[count..];
  }

  /** Taking the root out leaves heap order broken at most below the root. */
  lemma DetachRootOrdered(h: Heap, key: seq<int>)
    requires Valid(h, key) && h.count > 0
    ensures OrderedExceptBelow(DetachRoot(h), key, h.count - 1, 0)
  {
    var moved := DetachRoot(h);
    forall i | 0 < i < moved.count
      ensures 0 <= moved.items[i] < |key|
    {
      assert moved.items[i] == h.items[i];
    }
    assert moved.count > 0 ==> 0 <= moved.items[0] < |key|;
    forall i | 0 < i < moved.count && Parent(i) != 0
      ensures key[moved.items[Parent(i)]] <= key[moved.items[i]]
    {
      assert moved.items[i] == h.items[i] && moved.items[Parent(i)] == h.items[Parent(i)];
    }
  }

  /** `RemoveFirst()`: take the root, move the last live element into slot 0
      and sift it down. The sift runs even when the heap becomes empty, and
      then stops at once. */
  method RemoveFirst(h: Heap, key: seq<int>) returns (first: int, h': Heap)
    requires Valid(h, key) && h.count > 0
    ensures first == h.items[0] && first in Live(h)
    ensures forall x :: x in Live(h) ==> 0 <= x < |key| && key[first] <= key[x]
    ensures Valid(h', key)
    ensures Count(h') == Count(h) - 1 && |h'.items| == |h.items|
    ensures Live(h') == Live(h) - multiset{first}
    ensures h'.items[h'.count..] == h.items[h'.count..]
    ensures forall j :: 0 <= j < |h.heapIndex| && j !in Live(h') ==> h'.heapIndex[j] == h.heapIndex[j]
  {
    first := h.items[0];
    RootIsLowerBound(h, key);
    assert h.items[..h.count][0] == first;
    var moved := DetachRoot(h);
    DetachRootOrdered(h, key);
    h' := SortDown(moved, key, h.items[moved.count]);
    RemoveFirstFinish(h, key, moved, h');
  }

  /** What `RemoveFirst` promises follows from what `DetachRoot` and
      `SortDown` promise. */
  lemma RemoveFirstFinish(h: Heap, key: seq<int>, moved: Heap, h': Heap)
    requires Valid(h, key) && h.count > 0 && moved == DetachRoot(h)
    requires h'.count == moved.count && |h'.items| == |moved.items| && |h'.heapIndex| == |moved.heapIndex|
    requires IndexConsistent(h', moved.count) && HeapOrdered(h', key, moved.count)
    requires multiset(h'.items[..moved.count]) == multiset(moved.items[..moved.count])
    requires h'.items[moved.count..] == moved.items[moved.count..]
    requires forall j :: 0 <= j < |moved.heapIndex| && j !in multiset(moved.items[..moved.count]) ==> h'.heapIndex[j] == moved.heapIndex[j]
    ensures Valid(h', key)
    ensures Count(h') == Count(h) - 1 && |h'.items| == |h.items|
    ensures Live(h') == Live(h) - multiset{h.items[0]}
    ensures h'.items[h'.count..] == h.items[h'.count..]
    ensures forall j :: 0 <= j < |h.heapIndex| && j !in Live(h') ==> h'.heapIndex[j] == h.heapIndex[j]
  {
    assert Live(h') == multiset(moved.items[..moved.count]);
    if moved.count > 0 {
      assert moved.items[..moved.count][0] == h.items[moved.count];
    } else {
      assert h.heapIndex[h.items[0]] == 0;
    }
  }

  /** A key that only decreased breaks at most the edge above the element. */
  lemma DecreaseKeyBreaksOnlyAbove(h: Heap, keyBefore: seq<int>, key: seq<int>, item: int)
    requires Valid(h, keyBefore) && |key| == |keyBefore|
    requires ResidentBelow(h, item, h.count)
    requires key[item] <= keyBefore[item]
    requires forall j :: 0 <= j < |key| && j != item ==> key[j] == keyBefore[j]
    ensures OrderedExceptAbove(h, key, h.count, h.heapIndex[item])
  {
    var k := h.heapIndex[item];
    forall i | 0 < i < h.count && i != k
      ensures key[h.items[Parent(i)]] <= key[h.items[i]]
    {
      assert h.items[i] != item by {
        assert h.heapIndex[h.items[i]] == i;
      }
    }
    forall i | 0 < i < h.count && Parent(i) == k && 0 < k < h.count
      ensures key[h.items[Parent(k)]] <= key[h.items[i]]
    {
      assert h.items[i] != item by {
        assert h.heapIndex[h.items[i]] == i;
      }
      assert h.items[Parent(k)] != item by {
        assert h.heapIndex[h.items[Parent(k)]] == Parent(k);
      }
      assert keyBefore[h.items[Parent(k)]] <= keyBefore[h.items[k]];
      assert keyBefore[h.items[k]] <= keyBefore[h.items[i]];
    }
  }

  /** `UpdateItem(item)`: the caller lowered the item's key (from `keyBefore`
      to `key`) while it was resident; sifting up alone restores the heap. */
  method UpdateItem(h: Heap, key: seq<int>, item: int, ghost keyBefore: seq<int>) returns (h': Heap)
    requires Valid(h, keyBefore) && |key| == |keyBefore|
    requires 0 <= item < |key| && item in Live(h)
    requires key[item] <= keyBefore[item]
    requires forall j :: 0 <= j < |key| && j != item ==> key[j] == keyBefore[j]
    ensures Valid(h', key)
    ensures Count(h') == Count(h) && Live(h') == Live(h) && |h'.items| == |h.items|
    ensures h'.items[h.count..] == h.items[h.count..]
    ensures 0 <= h'.heapIndex[item] < |h'.items| && Contains(h', item)
    ensures forall j :: 0 <= j < |h.heapIndex| && j !in Live(h') ==> h'.heapIndex[j] == h.heapIndex[j]
  {
    LiveIsResident(h, item);
    DecreaseKeyBreaksOnlyAbove(h, keyBefore, key, item);
    h' := SortUp(h, key, item, h.count);
  }
}
