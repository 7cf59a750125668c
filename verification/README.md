# rustPriorityQueue in Dafny

A model of the crate's generic binary-heap priority queue (`src/lib.rs`).
The queue keeps `(item, priority)` entries in one growable vector. It reads that
vector as a complete binary tree: index `i` has parent `(i - 1) / 2` and
children `2i + 1` and `2i + 2`. A `PriorityMode` chosen at construction is
either `MinimizeHead` or `MaximizeHead`. It decides which of two priorities
"wins", and so whether the root holds the smallest or the largest priority.

- `priority_queue.dfy`, module `PriorityQueues`, holds the library:
  - the datatypes `PriorityMode`, `PriorityItem` and `Option`;
  - the index and comparison helpers (`Parent`, `Children`, `BestChild`,
    `ViolatesHeapProperty`) as pure functions of the queue's mode and data;
  - the heap invariant `IsHeap` and the relaxed forms that the two fix-up
    walks keep (`HeapExceptAt` for sift-up, `HeapExceptBelow` for sift-down,
    both with `GrandparentOk`);
  - the lemmas that each swap step keeps those forms;
  - the class `PriorityQueue<R>`. Its `data` field is the vector and its
    `mode` is a `const`, so no method can change the mode after construction.
    `Insert` and `Take` are methods with the source's `while` loops and
    their invariants.
- `priority_queue_tests.dfy`, module `PriorityQueueTests`, holds the crate's
  test module as verified client code. Each scenario is proved from the
  contracts of `Insert` and `Take` alone. Fixed sizes and random values
  become parameters.

Priorities are `int`, because the Rust bound `Ord` gives a total order. Items are an
opaque type parameter that is never compared. `Vec::push`, `Vec::pop` and
`Vec::swap` become appending to the `data` sequence, dropping its last
element, and `Swapped`.

`Take` keeps the source's loop guard `idx < heap_len`, where `heap_len` is the
length before the pop. The loop invariants show that `idx` always stays
below that stale bound, so the guard never ends the loop: only the two `break`s do.
Every index stays in bounds because `BestChild` judges whether a child exists
against the live length. Its contract says any index it returns is below
`|data|`. `StaleLengthAdmitsMissingChild` shows that the stale bound alone
would let through a child index equal to the live length.

## Model

| member | source | states |
|---|---|---|
| `PriorityQueues.Parent` | src/lib.rs:31-33 | For a non-root index, the parent is smaller, and the index is one of that parent's two children. Callers must pass a non-zero index. |
| `PriorityQueues.Children` | src/lib.rs:36-38 | Both children lie after the node and next to each other, both map back to the node under `Parent`, and no other index has that node as parent. |
| `PriorityQueues.ViolatesHeapProperty` | src/lib.rs:67-72 | True exactly when the child's priority strictly beats the parent's under the mode. It is strict: equal priorities never violate, and a violation is never mutual. |
| `PriorityQueues.BestChild` | src/lib.rs:41-64 | `None` exactly when `2i + 1 >= len` for the live length. Any index it returns is a child of `i` and below the live length. That child is not beaten by either child. It returns the second child only when the second strictly beats the first, so ties go to `2i + 1`. |
| `PriorityQueues.Swapped` | src/lib.rs:87 | `Vec::swap`: the two entries trade places, all others stay, and the multiset of entries is unchanged. |
| `PriorityQueues.HeapRootIsBest` | src/lib.rs:95-96 | In a heap, no entry beats the root. Proved by induction up the parent chain. |
| `PriorityQueues.HeapRootIsBestOfAll` | src/lib.rs:95-110 | The root of a non-empty heap is best among all entries, which is what `take` removes. |
| `PriorityQueues.SiftUpStart` | src/lib.rs:77-80 | After pushing onto a heap, the invariant holds everywhere except at the new last index, which is where sift-up starts. |
| `PriorityQueues.SiftUpStep` | src/lib.rs:82-88 | Swapping a violating child with its parent keeps the sift-up invariant, with the hole moved to the parent. |
| `PriorityQueues.SiftUpDone` | src/lib.rs:82-92 | When sift-up stops, at the root or with no violation left, the whole heap invariant holds. |
| `PriorityQueues.SiftDownStart` | src/lib.rs:106-114 | After swapping the root with the last entry and popping, the invariant holds everywhere except below index 0. |
| `PriorityQueues.SiftDownStep` | src/lib.rs:119-124 | Swapping the hole with its best child, when that child beats it, keeps the sift-down invariant, with the hole moved to the child. |
| `PriorityQueues.SiftDownDone` | src/lib.rs:116-132 | When sift-down stops, with no child or with the best child not beating the hole, the whole heap invariant holds. |
| `PriorityQueues.StaleLengthAdmitsMissingChild` | src/lib.rs:99-119 | With the pre-pop length one above the live length, a first child at the live length passes the stale test, but `BestChild` reports no child. |
| `PriorityQueues.BestIsNotBeaten` | src/lib.rs:95-96 | A priority that is best over a sequence is not beaten by any entry in that sequence's multiset. |
| `PriorityQueues.SuccessiveTakesOrdered` | src/lib.rs:211-217 | If one take from a heap leaves a non-empty rest, the next root is not better than the entry just taken. The drain order is non-decreasing for MinimizeHead and non-increasing for MaximizeHead. |
| `PriorityQueues.PriorityQueue.constructor` | src/lib.rs:23-28 | A new queue is empty, satisfies the invariant, and has the given mode. The size hint has no observable effect. |
| `PriorityQueues.PriorityQueue.Insert` | src/lib.rs:75-93 | The invariant is kept and the length grows by one. The entries are the old multiset plus `(item, priority)`. The sift-up loop ends because `idx` strictly decreases. |
| `PriorityQueues.PriorityQueue.Take` | src/lib.rs:96-136 | On an empty queue it returns `None` and leaves `data` as it was. Otherwise it returns the item at index 0, whose priority no stored entry beats. The length drops by one, the entries lose exactly that one, and the invariant is restored. |
| `PriorityQueueTests.TakeKnownBest` | src/lib.rs:156-158 | `take().unwrap()` on a queue whose entries are `best` plus others that `best` strictly beats. The call succeeds, returns `best`'s item and leaves the others. |
| `PriorityQueueTests.EmptyQueueGivesNone` | src/lib.rs:145-148 | A fresh queue of any mode and size hint yields `None`. |
| `PriorityQueueTests.SimpleQueueMaximize` | src/lib.rs:151-159 | Items 1, 2, 3 with priorities 10, 20, 30 in a maximizing queue come out as 3, 2, 1. |
| `PriorityQueueTests.SimpleQueueMinimize` | src/lib.rs:163-171 | The same three entries in a minimizing queue come out as 1, 2, 3. |
| `PriorityQueueTests.InsertAscending` | src/lib.rs:178-180 | After `insert(i, i)` for `i` in `0..size`, the queue holds exactly those entries and satisfies the invariant. |
| `PriorityQueueTests.TakeFromRange` | src/lib.rs:182-184 | On a queue holding exactly `(k, k)` for `lo <= k < hi`, one take returns `lo` when minimizing and `hi - 1` when maximizing. The rest of the range stays. |
| `PriorityQueueTests.LargeQueueMaximize` | src/lib.rs:174-185 | Draining `0..size` from a maximizing queue yields `size - 1, ..., 0`. |
| `PriorityQueueTests.LargeQueueMinimize` | src/lib.rs:188-199 | Draining `0..size` from a minimizing queue yields `0, ..., size - 1`. |
| `PriorityQueueTests.InsertEach` | src/lib.rs:206-209 | After inserting each value `v` as `(v, v)`, the queue holds exactly the entries `(v, v)` for the values, one per value and counted with multiplicity. Each item equals its priority, and the invariant holds. |
| `PriorityQueueTests.TakeOwnPriority` | src/lib.rs:211-216 | One `take().unwrap()` on a non-empty queue returns a stored priority that no stored entry beats. The rest loses exactly that entry. |
| `PriorityQueueTests.DrainOrderExtends` | src/lib.rs:213-217 | Appending a priority that does not beat the last one keeps a drain in mode order: non-decreasing when minimizing, non-increasing when maximizing. |
| `PriorityQueueTests.RandomDrain` | src/lib.rs:202-237 | For any values, exactly as many takes succeed as there were inserts, and they come out in mode order. The next take yields `None`. |

## Left out

- The capacity given to `Vec::with_capacity` is an allocation hint only. The constructor takes it and ignores it.
- Allocation failure on `push` is an environment fault and is not modelled.
- Integer width: indices are unbounded naturals. A `Vec` holds at most `isize::MAX` entries, so `2 * idx + 2` cannot overflow `usize` for any index below the length. That bound is not modelled.
- The generic `PriorityValue` bound (`Ord + PartialOrd + Eq`) is replaced by `int`, which has the total order that bound guarantees.
- Rust ownership and moves of the item type are not modelled. Items are an opaque type parameter, carried along and never inspected.
- Randomness in the random tests is not modelled. `RandomDrain` takes the values as a parameter.
- The test sizes (100000) are not modelled. The large-queue scenarios hold for every `size`.
- `RandomDrain`: it does not state that the drained values are a permutation of the inserted ones. The source's random tests check only the order and that every take succeeds.
- The vector is a sequence field that each operation reassigns. The model does not capture in-place update or spare capacity.
