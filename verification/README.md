# Indexed binary min-heap

This project models `Heap<T>` from `Assets/Tools/Heap.cs` in Dafny. `Heap<T>` is the fixed-capacity, array-backed binary min-heap that backs the A* open set of the AStar3D project. Elements implement `IHeapItem<T>`: each can be compared with another (`CompareTo`) and carries a mutable `HeapIndex` that the heap keeps equal to the element's slot. The model covers the constructor, `Add`, `RemoveFirst`, `UpdateItem`, `Count`, `Contains` and the internal `SortUp`, `SortDown` and `Swap`, and proves the heap's two invariants and what callers rely on.

Encoding:

- **Elements** form an arena and are named by ids `0 .. N-1`.
- **`key: seq<int>`** holds each element's priority. `Compare` on two keys stands for `CompareTo`. The caller owns `key` and may lower an entry between calls.
- **`Heap(items, count, heapIndex)`** is the heap state.
  - `items` is the storage array `T[]`, with one id per slot. `Vacant` (-1) stands for the `null` of a slot never written.
  - `count` is `currentItemCount`.
  - `heapIndex[id]` is element `id`'s `HeapIndex`. It lives in the heap state because the heap is its only writer while the element is resident.
- **Value semantics.** Each operation takes the state and returns the new state, which is the in-place mutation the C# code performs.
- **`Valid(h, key)`** is the invariant. It has three main parts, plus the side condition that `key` and `heapIndex` cover the same arena (`|heapIndex| == |key|`):
  - `count <= capacity`.
  - Index consistency: every live slot `i < count` holds an arena id, and `heapIndex[items[i]] == i`.
  - Heap order: every live slot holds an id that has a key (`Keyed`), and `key[items[Parent(i)]] <= key[items[i]]` for every `0 < i < count`.
- **Sift loops.** `SortUp` and `SortDown` are `while true` loops, as in the source. Their invariants say that heap order holds everywhere except around the moving slot (`OrderedExceptAbove`, `OrderedExceptBelow`). Their `decreases` clauses are the slot index for sift-up and `count` minus the slot index for sift-down.

Module `IndexedHeap` (file `IndexedHeap.dfy`) is `Heap.cs`. Module `Extraction` (file `Extraction.dfy`) holds what a caller gets from those operations: building with `Add`, draining with `RemoveFirst` in key order, and three small examples: priorities `[5, 3, 8, 1, 4]` come out as `1, 3, 4, 5, 8`; lowering the third of `[10, 20, 30]` to 5 brings it to the front; and `Contains` answers false for an element never added, so the open-set pattern `if (!Contains(n)) Add(n)` can be followed.

Two points of order in the code are kept as written:

- `Add` calls `SortUp` before it increments `currentItemCount`. `SortUp` never reads `count`, so the model keeps that order. A ghost bound `n = count + 1` names the region that `SortUp` leaves ordered.
- `RemoveFirst` calls `SortDown` even when the heap has just become empty. `SortDown` then stops at once, because its left child `1` is not below `0`. `SortDown`'s precondition allows the element's slot to be at or beyond `count` for this reason.

## Model

| member | source | states |
|---|---|---|
| IndexedHeap.Parent | Assets/Tools/Heap.cs:133 | the parent of slot 0 is slot 0 (the truncating cast of -0.5), and for `i > 0` the parent `p` is the unique slot below `i` with `i = 2p+1` or `i = 2p+2` |
| IndexedHeap.Compare | Assets/Tools/Heap.cs:6-13 | a three-way comparison: negative exactly when the first key is smaller, positive exactly when it is larger, zero exactly on equal keys |
| IndexedHeap.New | Assets/Tools/Heap.cs:26-29 | a new heap has storage of the requested capacity, count 0 and no live element, and is valid for every key assignment |
| IndexedHeap.Count | Assets/Tools/Heap.cs:70-73 | `Count()` is the number of live elements (the size of the live multiset) |
| IndexedHeap.Contains | Assets/Tools/Heap.cs:79-83 | on an index-consistent heap, a live element is reported present; whenever the element's index points below `count`, the answer is true exactly when the element is live |
| IndexedHeap.Swap | Assets/Tools/Heap.cs:155-163 | the two slots exchange their elements and the two elements exchange their `HeapIndex`; no other slot and no other element's index changes |
| IndexedHeap.SwapKeepsIndexConsistent | Assets/Tools/Heap.cs:155-163 | swapping two resident elements keeps index consistency and the live multiset, and touches no slot at or beyond the live region |
| IndexedHeap.SwapInvolutive | Assets/Tools/Heap.cs:155-163 | swapping the same two resident elements twice gives back the original state |
| IndexedHeap.LiveIsResident | Assets/Tools/Heap.cs:8-12 | under index consistency, a live element's `HeapIndex` names a live slot holding that element |
| IndexedHeap.RootIsMinimal | Assets/Tools/Heap.cs:50 | in a heap-ordered prefix, the key at slot 0 is no larger than the key at any live slot (induction along parent links) |
| IndexedHeap.RootIsLowerBound | Assets/Tools/Heap.cs:47-50 | the root of a valid non-empty heap has a key no larger than that of any live element |
| IndexedHeap.SortUpStep | Assets/Tools/Heap.cs:137-143 | swapping a rising element with a strictly larger parent keeps index consistency and the live multiset, puts the element at the parent's slot, and moves the single broken edge one level up |
| IndexedHeap.SmallerChild | Assets/Tools/Heap.cs:93-108 | the child compared against is a child below `count` with a minimal key; it is the right child only when that child exists and is strictly smaller, so ties go to the left child |
| IndexedHeap.SortDownStep | Assets/Tools/Heap.cs:111-114 | swapping a sinking element with a strictly smaller minimal child keeps index consistency and the live multiset, puts the element at the child's slot, and moves the broken edges one level down |
| IndexedHeap.SortDownStops | Assets/Tools/Heap.cs:97-123 | stopping is correct when the element has no child below `count` or is no larger than every child: the heap is then fully ordered |
| IndexedHeap.RisenAlongStep | Assets/Tools/Heap.cs:137-149 | one sift-up swap with a strictly larger parent extends the sift-up path by the parent's slot: the slot left behind now holds the old parent element and no slot off the path changes |
| IndexedHeap.SortUp | Assets/Tools/Heap.cs:130-151 | sift-up terminates. It restores heap order and keeps index consistency and the multiset of the region. It follows exactly the sift-up path (`RisenAlong`): only the start slot and its ancestors down to the final slot change, and each path slot below the final one now holds the element that was its parent, which was strictly larger than the rising element. It stops at the root (its own parent) or where the parent is not strictly larger, so a tie stops it. When the element is not strictly smaller than its parent, nothing changes. Only elements of the region have their `HeapIndex` rewritten |
| IndexedHeap.SortDown | Assets/Tools/Heap.cs:88-125 | sift-down terminates. It restores heap order over `[0, count)` and keeps index consistency and the live multiset. It follows exactly the sift-down path (`SankAlong`): only the start slot and the slots on the way to the final slot change, each step goes to `SmallerChild` of the slot above (the left child on a tie), and each element moved up was strictly smaller than the sinking element. It stops where no child below `count` is strictly smaller. When the element is no larger than each child below `count`, nothing changes. Only live elements have their `HeapIndex` rewritten |
| IndexedHeap.Add | Assets/Tools/Heap.cs:34-42 | `Add` on a valid heap below capacity, with an element not already live, gives a valid heap. `Count()` grows by one and the live multiset gains exactly that element. `Contains` then reports the element. Slots beyond the new count are untouched, and every element outside the heap keeps its `HeapIndex`, so `Contains` can still be asked about it |
| IndexedHeap.Place | Assets/Tools/Heap.cs:37-38 | writing the item into slot `count` with `HeapIndex` equal to that slot keeps index consistency over one more slot, adds exactly the item to the region's multiset, rewrites no other element's `HeapIndex`, and leaves heap order broken at most on the edge from the new slot to its parent |
| IndexedHeap.PlaceOrdered | Assets/Tools/Heap.cs:37-40 | a freshly placed item breaks heap order at most on the edge from its slot to its parent |
| IndexedHeap.DetachRoot | Assets/Tools/Heap.cs:49-54 | after the count drops by one and the last live element moves into slot 0 with `HeapIndex` 0, index consistency holds and the live multiset is the old one minus the root |
| IndexedHeap.DetachRootOrdered | Assets/Tools/Heap.cs:51-55 | after the root is detached, heap order can be broken only on the edges out of slot 0 |
| IndexedHeap.RemoveFirst | Assets/Tools/Heap.cs:47-57 | `RemoveFirst` returns the former slot 0, which is live and has a minimal key among the live elements. The result is valid, `Count()` drops by one, and the live multiset loses exactly the returned element. Every element outside the new heap, the returned one included, keeps its `HeapIndex` |
| IndexedHeap.DecreaseKeyBreaksOnlyAbove | Assets/Tools/Heap.cs:62-65 | lowering one resident element's key can break heap order only on the edge from that element to its parent |
| IndexedHeap.UpdateItem | Assets/Tools/Heap.cs:62-65 | after a resident element's key is only lowered, sifting up alone restores validity, keeps `Count()` and the live multiset unchanged, and `Contains` still reports the element. Every element outside the heap keeps its `HeapIndex` |
| Extraction.Build | Assets/Tools/Heap.cs:34-42 | adding distinct elements one by one to a new heap gives a valid heap whose live multiset is exactly those elements |
| Extraction.DrainStep | Assets/Tools/Heap.cs:47-57 | appending a removed minimum keeps the removed sequence sorted and keeps each removed key below every element still in the heap |
| Extraction.Drain | Assets/Tools/Heap.cs:47-57 | calling `RemoveFirst` until `Count()` is 0 returns every live element exactly once, in non-decreasing key order |
| Extraction.HeapSort | Assets/Tools/Heap.cs:34-57 | adding distinct elements in any order and then removing them all returns each element exactly once, in non-decreasing key order |
| Extraction.ExtractionScenario | Assets/Tools/Heap.cs:34-57 | priorities `[5, 3, 8, 1, 4]` added in order to a heap of capacity 5 come out as ids `3, 1, 4, 0, 2`, that is, priorities 1, 3, 4, 5, 8 |
| Extraction.DecreaseKeyScenario | Assets/Tools/Heap.cs:62-65 | after adding priorities `[10, 20, 30]`, lowering the third to 5 and calling `UpdateItem`, the next `RemoveFirst` returns the third element |
| Extraction.OpenSetScenario | Assets/Tools/Heap.cs:79-83 | after one element is added to a heap of two, `Contains` on the other element (never added) is callable and answers false, and a second `Add` then holds both |

## Left out

- The generic `IComparable<T>` / `CompareTo` machinery is not modelled. Priorities are `int` keys, so the comparison is always a consistent total preorder. A user comparator that is not consistent is not modelled.
- The float parent computation `(int)((i - 1) * 0.5f)` is modelled as integer `(i - 1) / 2`, with the root as its own parent. Float rounding at indices beyond 2^24 is not modelled.
- IndexedHeap.New: the capacity is a `nat`. `new T[maxHeapSize]` with a negative size throws `OverflowException` in C#; that error path is not modelled.
- IndexedHeap.SortDown: the child slots `HeapIndex * 2 + 1` and `* 2 + 2` are unbounded integers here. In C# they are 32-bit `int` and wrap once a slot reaches 2^30, after which a negative child index passes the `< currentItemCount` test and `items[swapIndex]` throws. Heaps with more than 2^30 slots are not modelled.
- `Add` at full capacity and `RemoveFirst` on an empty heap throw `IndexOutOfRangeException` in C#. Here they are preconditions (`count < capacity`, `count > 0`), not modelled errors.
- IndexedHeap.Add: requires that the item is not already live. The source does not check this, and adding an element twice breaks index consistency.
- IndexedHeap.UpdateItem: requires that the key was only lowered. The code sifts only upward, so after a key increase the heap order is not restored. This behaviour is kept, not fixed.
- IndexedHeap.Contains: for an element whose `HeapIndex` points at or beyond `count`, the result is left unspecified. Examples are an element already removed, which can still give a stale `true`, and one never added. The index must be within the array, because the C# code indexes without a check.
- C# `Equals` (reference or value equality) is not modelled. Identity is the element id.
- The elements' `HeapIndex` values before their first `Add` are whatever the caller supplies to `New`. The model does not assume the C# default of 0.
- The heap is a value, not a shared mutable object. Thread safety and aliasing of elements between several heaps are not modelled.
- Elements are assumed to be class (reference) instances. `where T : IHeapItem<T>` (Heap.cs:15) also admits a struct `T`; then the `HeapIndex` writes in `Swap` (Heap.cs:161-162) change only copies, and the heap does not keep index consistency. A struct `T` is not modelled.
- The unused `System.Collections` imports are not modelled.
