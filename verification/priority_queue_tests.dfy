/**
 The scenarios of the crate's own test module, written as client code of the
 queue: each one is proved from the contracts of `Insert` and `Take` alone.
 Random priorities become a parameter.
 */
module PriorityQueueTests {
  import opened PriorityQueues

  /** Entries `(k, k)` for `lo <= k < hi`, in increasing order. */
  function Entries(lo: int, hi: int): (r: seq<PriorityItem<int>>)
    ensures |r| == if lo <= hi then hi - lo else 0
    ensures forall k | 0 <= k < |r| :: r[k] == PriorityItem(lo + k, lo + k)
    decreases hi - lo
  {
    if lo < hi then [PriorityItem(lo, lo)] + Entries(lo + 1, hi) else []
  }

  /** Entries split off at either end of the range. */
  lemma EntriesEnds(lo: int, hi: int)
    requires lo < hi
    ensures Entries(lo, hi) == [PriorityItem(lo, lo)] + Entries(lo + 1, hi)
    ensures Entries(lo, hi) == Entries(lo, hi - 1) + [PriorityItem(hi - 1, hi - 1)]
  {
  }

  /** Each value paired with itself as an entry, in order. */
  function Pairs(values: seq<int>): (r: seq<PriorityItem<int>>)
    ensures |r| == |values|
    ensures forall k | 0 <= k < |values| :: r[k] == PriorityItem(values[k], values[k])
  {
    if values == [] then [] else Pairs(values[..|values| - 1]) + [PriorityItem(values[|values| - 1], values[|values| - 1])]
  }

  /** Extending the values by one adds exactly that value's entry. */
  lemma PairsExtend(values: seq<int>, i: nat)
    requires i < |values|
    ensures multiset(Pairs(values[..i + 1])) == multiset(Pairs(values[..i])) + multiset{PriorityItem(values[i], values[i])}
  {
    assert values[..i + 1][..i] == values[..i];
  }

  /** Every entry built by `Pairs` has its item equal to its priority. */
  lemma PairsAreOwnPriority(values: seq<int>)
    ensures forall e | e in multiset(Pairs(values)) :: e.item == e.priority
  {
  }

  /** `0, 1, ..., n - 1`. */
  function CountUp(n: nat): (r: seq<int>)
    ensures |r| == n && forall k | 0 <= k < n :: r[k] == k
  {
    if n == 0 then [] else CountUp(n - 1) + [n - 1]
  }

  /** The first `n` of `size - 1, size - 2, ..., 0`. */
  function CountDown(size: int, n: nat): (r: seq<int>)
    ensures |r| == n && forall k | 0 <= k < n :: r[k] == size - k - 1
  {
    if n == 0 then [] else CountDown(size, n - 1) + [size - n]
  }

  /** No later priority beats an earlier one under `mode`. */
  predicate InDrainOrder(mode: PriorityMode, s: seq<int>)
  {
    forall j, k | 0 <= j < k < |s| :: !Outranks(mode, s[k], s[j])
  }

  /**
   `take().unwrap()` on a queue holding `best` and `others`, where `best`
   beats every one of `others`: the call succeeds, returns the item of
   `best` and leaves `others`.
   */
  method TakeKnownBest(queue: PriorityQueue<int>, best: PriorityItem<int>, others: seq<PriorityItem<int>>)
    returns (item: int)
    requires queue.Valid() && multiset(queue.data) == multiset([best] + others)
    requires forall k | 0 <= k < |others| :: Outranks(queue.mode, best.priority, others[k].priority)
    modifies queue
    ensures queue.Valid()
    ensures item == best.item
    ensures multiset(queue.data) == multiset(others)
  {
    ghost var before := queue.data;
    assert best in multiset(before);
    var r := queue.Take();
    assert before[0] in multiset([best] + others);
    BestIsNotBeaten(queue.mode, before[0].priority, before, best);
    item := r.value;
  }

  /**
   One take from a queue holding exactly the entries `(k, k)` for
   `lo <= k < hi`: it returns `lo` when minimizing and `hi - 1` when
   maximizing, and the rest of the range stays.
   */
  method TakeFromRange(queue: PriorityQueue<int>, lo: int, hi: int) returns (item: int)
    requires queue.Valid() && lo < hi && multiset(queue.data) == multiset(Entries(lo, hi))
    modifies queue
    ensures queue.Valid()
    ensures queue.mode == MinimizeHead ==> item == lo && multiset(queue.data) == multiset(Entries(lo + 1, hi))
    ensures queue.mode == MaximizeHead ==> item == hi - 1 && multiset(queue.data) == multiset(Entries(lo, hi - 1))
  {
    EntriesEnds(lo, hi);
    if queue.mode == MinimizeHead {
      item := TakeKnownBest(queue, PriorityItem(lo, lo), Entries(lo + 1, hi));
    } else {
      item := TakeKnownBest(queue, PriorityItem(hi - 1, hi - 1), Entries(lo, hi - 1));
    }
  }

  /** A drain stays in order when the next priority does not beat the last one. */
  lemma DrainOrderExtends(mode: PriorityMode, taken: seq<int>, p: int)
    requires InDrainOrder(mode, taken)
    requires |taken| > 0 ==> !Outranks(mode, p, taken[|taken| - 1])
    ensures InDrainOrder(mode, taken + [p])
  {
  }

  /** A fresh queue, of either mode and any size hint, has nothing to take. */
  method EmptyQueueGivesNone(sizeHint: nat, mode: PriorityMode) returns (r: Option<nat>)
    ensures r == None
  {
    var queue := new PriorityQueue<nat>(sizeHint, mode);
    r := queue.Take();
  }

  /** Priorities 10, 20, 30 inserted into a maximizing queue come out 30, 20, 10. */
  method SimpleQueueMaximize() returns (first: int, second: int, third: int)
    ensures first == 3 && second == 2 && third == 1
  {
    var queue := new PriorityQueue<int>(100, MaximizeHead);
    queue.Insert(1, 10);
    queue.Insert(2, 20);
    queue.Insert(3, 30);
    first := TakeKnownBest(queue, PriorityItem(3, 30), [PriorityItem(1, 10), PriorityItem(2, 20)]);
    second := TakeKnownBest(queue, PriorityItem(2, 20), [PriorityItem(1, 10)]);
    third := TakeKnownBest(queue, PriorityItem(1, 10), []);
  }

  /** Priorities 10, 20, 30 inserted into a minimizing queue come out 10, 20, 30. */
  method SimpleQueueMinimize() returns (first: int, second: int, third: int)
    ensures first == 1 && second == 2 && third == 3
  {
    var queue := new PriorityQueue<int>(100, MinimizeHead);
    queue.Insert(1, 10);
    queue.Insert(2, 20);
    queue.Insert(3, 30);
    first := TakeKnownBest(queue, PriorityItem(1, 10), [PriorityItem(2, 20), PriorityItem(3, 30)]);
    second := TakeKnownBest(queue, PriorityItem(2, 20), [PriorityItem(3, 30)]);
    third := TakeKnownBest(queue, PriorityItem(3, 30), []);
  }

  /** A queue of the given mode after `insert(i, i)` for `i` in `0 .. size - 1`. */
  method InsertAscending(size: nat, mode: PriorityMode) returns (queue: PriorityQueue<int>)
    ensures fresh(queue) && queue.Valid() && queue.mode == mode
    ensures multiset(queue.data) == multiset(Entries(0, size))
  {
    queue := new PriorityQueue<int>(100, mode);
    for i := 0 to size
      invariant queue.Valid() && queue.mode == mode
      invariant multiset(queue.data) == multiset(Entries(0, i))
    {
      EntriesEnds(0, i + 1);
      queue.Insert(i, i);
    }
  }

  /** Inserting `0 .. size - 1` into a minimizing queue and taking `size` times yields them in order. */
  method LargeQueueMinimize(size: nat) returns (taken: seq<int>)
    ensures taken == CountUp(size)
  {
    var queue := InsertAscending(size, MinimizeHead);
    taken := [];
    for i := 0 to size
      invariant queue.Valid()
      invariant multiset(queue.data) == multiset(Entries(i, size))
      invariant taken == CountUp(i)
    {
      var item := TakeFromRange(queue, i, size);
      taken := taken + [item];
    }
  }

  /** Inserting `0 .. size - 1` into a maximizing queue and taking `size` times yields them in reverse. */
  method LargeQueueMaximize(size: nat) returns (taken: seq<int>)
    ensures taken == CountDown(size, size)
  {
    var queue := InsertAscending(size, MaximizeHead);
    taken := [];
    for i := 0 to size
      invariant queue.Valid()
      invariant multiset(queue.data) == multiset(Entries(0, size - i))
      invariant taken == CountDown(size, i)
    {
      var hi := size - i;
      var item := TakeFromRange(queue, 0, hi);
      assert item == hi - 1 && multiset(queue.data) == multiset(Entries(0, hi - 1));
      taken := taken + [item];
    }
  }

  /** A queue of the given mode after `insert(v, v)` for each `v` of `values`. */
  method InsertEach(values: seq<int>, mode: PriorityMode) returns (queue: PriorityQueue<int>)
    ensures fresh(queue) && queue.Valid() && queue.mode == mode
    ensures |queue.data| == |values|
    ensures multiset(queue.data) == multiset(Pairs(values))
    ensures forall e | e in multiset(queue.data) :: e.item == e.priority
  {
    queue := new PriorityQueue<int>(100, mode);
    for i := 0 to |values|
      invariant queue.Valid() && queue.mode == mode && |queue.data| == i
      invariant multiset(queue.data) == multiset(Pairs(values[..i]))
    {
      PairsExtend(values, i);
      queue.Insert(values[i], values[i]);
    }
    assert values[..|values|] == values;
    PairsAreOwnPriority(values);
  }

  /**
   `take().unwrap()` on a non-empty queue whose items are their own
   priorities: the result is one of the stored priorities, none of the stored
   entries beats it, and what stays still pairs each item with itself.
   */
  method TakeOwnPriority(queue: PriorityQueue<int>) returns (p: int)
    requires queue.Valid() && |queue.data| > 0
    requires forall e | e in multiset(queue.data) :: e.item == e.priority
    modifies queue
    ensures queue.Valid() && |queue.data| == |old(queue.data)| - 1
    ensures PriorityItem(p, p) in multiset(old(queue.data))
    ensures forall e | e in multiset(old(queue.data)) :: !Outranks(queue.mode, e.priority, p)
    ensures multiset(queue.data) == multiset(old(queue.data)) - multiset{PriorityItem(p, p)}
    ensures forall e | e in multiset(queue.data) :: e.item == e.priority
  {
    ghost var before := queue.data;
    assert before[0] in multiset(before);
    var r := queue.Take();
    p := r.value;
    forall e | e in multiset(before) ensures !Outranks(queue.mode, e.priority, p) {
      BestIsNotBeaten(queue.mode, p, before, e);
    }
  }

  /**
   Any priorities, each inserted as its own item, drain in the order of the
   mode; exactly as many takes succeed as there were inserts, and the next one
   finds the queue empty.
   */
  method RandomDrain(mode: PriorityMode, values: seq<int>) returns (taken: seq<int>, rest: Option<int>)
    ensures |taken| == |values|
    ensures InDrainOrder(mode, taken)
    ensures rest == None
  {
    var queue := InsertEach(values, mode);
    taken := [];
    for i := 0 to |values|
      invariant queue.Valid() && |queue.data| == |values| - i
      invariant forall e | e in multiset(queue.data) :: e.item == e.priority
      invariant |taken| == i && InDrainOrder(mode, taken)
      invariant i > 0 ==> forall e | e in multiset(queue.data) :: !Outranks(mode, e.priority, taken[i - 1])
    {
      var p := TakeOwnPriority(queue);
      DrainOrderExtends(mode, taken, p);
      taken := taken + [p];
    }
    rest := queue.Take();
  }
}
