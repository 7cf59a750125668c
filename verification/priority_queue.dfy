/**
 A binary-heap priority queue. Entries `(item, priority)` live in one flat
 sequence read as a complete binary tree: the parent of index `i` is
 `(i - 1) / 2` and its children are `2i + 1` and `2i + 2`. A mode fixed at
 construction decides whether the root holds the smallest or the largest
 priority.
 */
module PriorityQueues {

  datatype Option<T> = None | Some(value: T)

  /** Which end of the order the root of the heap holds. */
  datatype PriorityMode = MinimizeHead | MaximizeHead

  /** One stored entry; the item is carried along and never inspected. */
  datatype PriorityItem<R> = PriorityItem(item: R, priority: int)

  /** `a` wins strictly against `b`: it belongs nearer the root. */
  predicate Outranks(mode: PriorityMode, a: int, b: int)
  {
    match mode
    case MinimizeHead => a < b
    case MaximizeHead => a > b
  }

  /** `p` is not beaten by the priority of any entry of `s`. */
  predicate IsBest<R>(mode: PriorityMode, p: int, s: seq<PriorityItem<R>>)
  {
    forall k | 0 <= k < |s| :: !Outranks(mode, s[k].priority, p)
  }

  /** The parent of a non-root node; the root has none, so callers guard `idx != 0`. */
  function Parent(idx: nat): (r: nat)
    requires idx != 0
    ensures r < idx
    ensures idx == 2 * r + 1 || idx == 2 * r + 2
  {
    (idx - 1) / 2
  }

  /** The two candidate children of a node, whether or not they exist. */
  function Children(idx: nat): (r: (nat, nat))
    ensures idx < r.0 && r.1 == r.0 + 1
    ensures Parent(r.0) == idx && Parent(r.1) == idx
    ensures forall c: nat | c != 0 && Parent(c) == idx :: c == r.0 || c == r.1
  {
    (idx * 2 + 1, idx * 2 + 2)
  }

  /** True when the entry at `parent` must be swapped with the entry at `child`. */
  function ViolatesHeapProperty<R>(mode: PriorityMode, data: seq<PriorityItem<R>>, parent: nat, child: nat): (r: bool)
    requires parent < |data| && child < |data|
    ensures r <==> Outranks(mode, data[child].priority, data[parent].priority)
    ensures data[parent].priority == data[child].priority ==> !r
    ensures r ==> !Outranks(mode, data[parent].priority, data[child].priority)
  {
    match mode
    case MinimizeHead => data[parent].priority > data[child].priority
    case MaximizeHead => data[parent].priority < data[child].priority
  }

  /**
   The child of `idx` to swap with during sift-down, judged against the
   current length of `data`: none when no child exists, the first child when
   only it exists, otherwise the child that wins, the first one on a tie.
   */
  function BestChild<R>(mode: PriorityMode, data: seq<PriorityItem<R>>, idx: nat): (r: Option<nat>)
    ensures r.None? <==> |data| <= 2 * idx + 1
    ensures r.Some? ==> idx < r.value < |data| && Parent(r.value) == idx
    ensures r.Some? ==> forall c | 0 < c < |data| && Parent(c) == idx ::
                          !Outranks(mode, data[c].priority, data[r.value].priority)
    ensures r == Some(2 * idx + 2) ==>
              Outranks(mode, data[2 * idx + 2].priority, data[2 * idx + 1].priority)
  {
    var (child1, child2) := Children(idx);
    var len := |data|;
    if len <= child1 then
      None
    else if len <= child2 then
      Some(child1)
    else
      if ViolatesHeapProperty(mode, data, child1, child2) then Some(child2) else Some(child1)
  }

  /** `Vec::swap`: exchange two entries and leave the rest in place. */
  function Swapped<T>(s: seq<T>, i: nat, j: nat): (r: seq<T>)
    requires i < |s| && j < |s|
    ensures |r| == |s| && r[i] == s[j] && r[j] == s[i]
    ensures forall k | 0 <= k < |s| && k != i && k != j :: r[k] == s[k]
    ensures multiset(r) == multiset(s)
  {
    s[i := s[j]][j := s[i]]
  }

  /** The entry at non-root `i` does not beat its parent. */
  predicate ParentOk<R>(mode: PriorityMode, s: seq<PriorityItem<R>>, i: nat)
    requires 0 < i < |s|
  {
    !Outranks(mode, s[i].priority, s[Parent(i)].priority)
  }

  /** The heap invariant: every non-root entry is not beaten by its parent. */
  predicate IsHeap<R>(mode: PriorityMode, s: seq<PriorityItem<R>>)
  {
    forall i | 0 < i < |s| :: ParentOk(mode, s, i)
  }

  /** Sift-up state: the invariant holds except between `hole` and its parent. */
  predicate HeapExceptAt<R>(mode: PriorityMode, s: seq<PriorityItem<R>>, hole: nat)
  {
    forall i | 0 < i < |s| && i != hole :: ParentOk(mode, s, i)
  }

  /** Sift-down state: the invariant holds except between `hole` and its children. */
  predicate HeapExceptBelow<R>(mode: PriorityMode, s: seq<PriorityItem<R>>, hole: nat)
  {
    forall i | 0 < i < |s| && Parent(i) != hole :: ParentOk(mode, s, i)
  }

  /** The parent of `hole` (if any) is not beaten by the children of `hole`. */
  predicate GrandparentOk<R>(mode: PriorityMode, s: seq<PriorityItem<R>>, hole: nat)
  {
    0 < hole < |s| ==>
      forall c | 0 < c < |s| && Parent(c) == hole :: !Outranks(mode, s[c].priority, s[Parent(hole)].priority)
  }

  /** Every entry of a heap is not beaten by its root: the root is the best entry. */
  lemma {:induction false} HeapRootIsBest<R>(mode: PriorityMode, s: seq<PriorityItem<R>>, i: nat)
    requires IsHeap(mode, s) && i < |s|
    ensures !Outranks(mode, s[i].priority, s[0].priority)
  {
    if i != 0 {
      assert ParentOk(mode, s, i);
      HeapRootIsBest(mode, s, Parent(i));
    }
  }

  /** The root of a non-empty heap is best among all its entries. */
  lemma HeapRootIsBestOfAll<R>(mode: PriorityMode, s: seq<PriorityItem<R>>)
    requires IsHeap(mode, s) && |s| > 0
    ensures IsBest(mode, s[0].priority, s)
  {
    forall k | 0 <= k < |s| ensures !Outranks(mode, s[k].priority, s[0].priority) {
      HeapRootIsBest(mode, s, k);
    }
  }

  /** One sift-up swap keeps the sift-up state, one level higher. */
  lemma SiftUpStep<R>(mode: PriorityMode, s: seq<PriorityItem<R>>, idx: nat)
    requires 0 < idx < |s|
    requires HeapExceptAt(mode, s, idx) && GrandparentOk(mode, s, idx)
    requires Outranks(mode, s[idx].priority, s[Parent(idx)].priority)
    ensures HeapExceptAt(mode, Swapped(s, Parent(idx), idx), Parent(idx))
    ensures GrandparentOk(mode, Swapped(s, Parent(idx), idx), Parent(idx))
  {
    var p := Parent(idx);
    var t := Swapped(s, p, idx);
    forall i | 0 < i < |t| && i != p ensures ParentOk(mode, t, i) {
      if i == idx {
      } else if Parent(i) == idx {
      } else if Parent(i) == p {
        assert ParentOk(mode, s, i);
      } else if i == p {
      } else {
        assert ParentOk(mode, s, i);
      }
    }
    if 0 < p {
      forall c | 0 < c < |t| && Parent(c) == p
        ensures !Outranks(mode, t[c].priority, t[Parent(p)].priority)
      {
        assert ParentOk(mode, s, p);
        if c != idx {
          assert ParentOk(mode, s, c);
        }
      }
    }
  }

  /** One sift-down swap with the best child keeps the sift-down state, one level lower. */
  lemma SiftDownStep<R>(mode: PriorityMode, s: seq<PriorityItem<R>>, idx: nat, c: nat)
    requires idx < c < |s| && Parent(c) == idx
    requires HeapExceptBelow(mode, s, idx) && GrandparentOk(mode, s, idx)
    requires forall d | 0 < d < |s| && Parent(d) == idx :: !Outranks(mode, s[d].priority, s[c].priority)
    requires Outranks(mode, s[c].priority, s[idx].priority)
    ensures HeapExceptBelow(mode, Swapped(s, idx, c), c)
    ensures GrandparentOk(mode, Swapped(s, idx, c), c)
  {
  }

  /** Appending one entry to a heap leaves only the new leaf to sift up. */
  lemma SiftUpStart<R>(mode: PriorityMode, s: seq<PriorityItem<R>>, e: PriorityItem<R>)
    requires IsHeap(mode, s)
    ensures HeapExceptAt(mode, s + [e], |s|) && GrandparentOk(mode, s + [e], |s|)
  {
    var t := s + [e];
    forall i | 0 < i < |t| && i != |s| ensures ParentOk(mode, t, i) {
      assert ParentOk(mode, s, i);
    }
  }

  /** Sift-up stops at the root or where the entry no longer beats its parent: a heap. */
  lemma SiftUpDone<R>(mode: PriorityMode, s: seq<PriorityItem<R>>, idx: nat)
    requires idx < |s| && HeapExceptAt(mode, s, idx)
    requires idx == 0 || !Outranks(mode, s[idx].priority, s[Parent(idx)].priority)
    ensures IsHeap(mode, s)
  {
  }

  /** Moving the last entry to the root and dropping the old root leaves only the root to sift down. */
  lemma SiftDownStart<R>(mode: PriorityMode, s: seq<PriorityItem<R>>)
    requires IsHeap(mode, s) && |s| > 0
    ensures var t := Swapped(s, 0, |s| - 1)[..|s| - 1];
            HeapExceptBelow(mode, t, 0) && GrandparentOk(mode, t, 0)
  {
    var t := Swapped(s, 0, |s| - 1)[..|s| - 1];
    forall i | 0 < i < |t| && Parent(i) != 0 ensures ParentOk(mode, t, i) {
      assert ParentOk(mode, s, i);
    }
  }

  /** Sift-down stops where no child exists or the best child does not beat the hole: a heap. */
  lemma SiftDownDone<R>(mode: PriorityMode, s: seq<PriorityItem<R>>, idx: nat)
    requires HeapExceptBelow(mode, s, idx)
    requires BestChild(mode, s, idx).Some? ==>
               !Outranks(mode, s[BestChild(mode, s, idx).value].priority, s[idx].priority)
    ensures IsHeap(mode, s)
  {
  }

  /**
   In `Take` the loop guard compares with the length before the pop, which is
   one more than the live length. A child index that passes that stale test
   can be exactly the live length; `BestChild` rejects it because it reads
   the live length.
   */
  lemma StaleLengthAdmitsMissingChild<R>(mode: PriorityMode, data: seq<PriorityItem<R>>, heapLen: nat, idx: nat)
    requires heapLen == |data| + 1 && Children(idx).0 == |data|
    ensures Children(idx).0 < heapLen
    ensures BestChild(mode, data, idx) == None
  {
  }

  /** A best priority is not beaten by any entry held, counted as a multiset. */
  lemma BestIsNotBeaten<R>(mode: PriorityMode, p: int, s: seq<PriorityItem<R>>, e: PriorityItem<R>)
    requires IsBest(mode, p, s) && e in multiset(s)
    ensures !Outranks(mode, e.priority, p)
  {
  }

  /** Two successive takes return priorities in the order of the mode. */
  lemma SuccessiveTakesOrdered<R>(mode: PriorityMode, before: seq<PriorityItem<R>>, after: seq<PriorityItem<R>>)
    requires IsHeap(mode, before) && |before| > 0
    requires multiset(after) == multiset(before) - multiset{before[0]}
    requires |after| > 0
    ensures !Outranks(mode, after[0].priority, before[0].priority)
  {
    assert after[0] in multiset(after);
    HeapRootIsBestOfAll(mode, before);
    BestIsNotBeaten(mode, before[0].priority, before, after[0]);
  }

  class PriorityQueue<R> {
    var data: seq<PriorityItem<R>>
    const mode: PriorityMode

    /** The heap invariant every public call keeps. */
    ghost predicate Valid()
      reads this
    {
      IsHeap(mode, data)
    }

    /** A new, empty queue; the size hint only reserves space and changes nothing observable. */
    constructor (sizeHint: nat, mode: PriorityMode)
      ensures Valid()
      ensures this.mode == mode && data == []
    {
      this.data := [];
      this.mode := mode;
    }

    /** Append the entry, then sift it up while it beats its parent. */
    method Insert(item: R, priority: int)
      requires Valid()
      modifies this
      ensures Valid()
      ensures |data| == |old(data)| + 1
      ensures multiset(data) == multiset(old(data)) + multiset{PriorityItem(item, priority)}
    {
      SiftUpStart(mode, data, PriorityItem(item, priority));
      data := data + [PriorityItem(item, priority)];
      var idx: nat := |data| - 1;
      while idx != 0
        invariant idx < |data| == |old(data)| + 1
        invariant multiset(data) == multiset(old(data)) + multiset{PriorityItem(item, priority)}
        invariant HeapExceptAt(mode, data, idx)
        invariant GrandparentOk(mode, data, idx)
        decreases idx
      {
        var parent := Parent(idx);
        if ViolatesHeapProperty(mode, data, parent, idx) {
          SiftUpStep(mode, data, idx);
          data := Swapped(data, parent, idx);
          idx := parent;
        } else {
          break;
        }
      }
      SiftUpDone(mode, data, idx);
    }

    /**
     Remove and return the item at the root, the best entry; `None` on an
     empty queue. The loop guard compares with the length taken before the
     pop; staying in bounds rests on `BestChild` reading the live length.
     */
    method Take() returns (r: Option<R>)
      requires Valid()
      modifies this
      ensures Valid()
      ensures old(data) == [] ==> r == None && data == old(data)
      ensures old(data) != [] ==>
                && r == Some(old(data)[0].item)
                && IsBest(mode, old(data)[0].priority, old(data))
                && |data| == |old(data)| - 1
                && multiset(data) == multiset(old(data)) - multiset{old(data)[0]}
    {
      var heapLen := |data|;
      if heapLen == 0 {
        return None;
      }
      HeapRootIsBestOfAll(mode, data);
      SiftDownStart(mode, data);
      ghost var taken := data[0];
      data := Swapped(data, 0, heapLen - 1);
      var resultValue := data[heapLen - 1];
      assert data == data[..heapLen - 1] + [resultValue];
      data := data[..heapLen - 1];
      var idx := 0;
      // `idx` stays below `heapLen`, so this guard never ends the loop: only
      // the two `break`s do, and `BestChild` keeps every index below the live length.
      while idx < heapLen
        invariant idx == 0 || idx < |data|
        invariant idx < heapLen
        invariant |data| == heapLen - 1
        invariant multiset(data) == multiset(old(data)) - multiset{taken}
        invariant HeapExceptBelow(mode, data, idx)
        invariant GrandparentOk(mode, data, idx)
        decreases |data| - idx
      {
        match BestChild(mode, data, idx)
        case Some(child) =>
          if ViolatesHeapProperty(mode, data, idx, child) {
            SiftDownStep(mode, data, idx, child);
            data := Swapped(data, idx, child);
            idx := child;
          } else {
            break;
          }
        case None =>
          break;
      }
      SiftDownDone(mode, data, idx);
      r := Some(resultValue.item);
    }
  }
}
