/**
 The lazily evaluated quicksort of the `lazy-sort` crate. A node holds an
 unsorted pool `greater` and, once it has been split, a child `less` holding
 the elements not greater than the pivot of that split; the pivot itself is
 kept as the last element of `greater` until the child runs dry. Elements come
 out in ascending order: the child is drained before its pivot, and the pivot
 before the rest of the pool.
 */
module LazySorts {
  import opened Options
  import opened Partitioning

  datatype LazySort = LazySort(greater: seq<int>, less: Option<LazySort>)

  /** The state with nothing left: empty pool, no child. */
  const Exhausted := LazySort([], None)

  /** Every element still held by the node, its pool and its child chain together. */
  function Elems(s: LazySort): multiset<int>
    decreases s
  {
    multiset(s.greater) + (match s.less case None => multiset{} case Some(c) => Elems(c))
  }

  /** The number of nodes below this one in the child chain. */
  function Depth(s: LazySort): nat
    decreases s
  {
    match s.less
    case None => 0
    case Some(c) => 1 + Depth(c)
  }

  function Last(g: seq<int>): int
    requires |g| > 0
  {
    g[|g| - 1]
  }

  /**
   The invariant the split maintains: a node with a child keeps the deferred
   pivot as the last element of its pool; the pivot is smaller than every
   other element of the pool and at least every element held by the child.
   */
  predicate Valid(s: LazySort)
    decreases s
  {
    match s.less
    case None => true
    case Some(c) =>
      && Valid(c)
      && |s.greater| >= 1
      && (forall i | 0 <= i < |s.greater| - 1 :: Last(s.greater) < s.greater[i])
      && (forall y | y in Elems(c) :: y <= Last(s.greater))
  }

  /** The crate's `lazy_sort`: every input element goes into the pool, no child yet. */
  function LazySortOf(v: seq<int>): (r: LazySort)
    ensures Valid(r)
    ensures Elems(r) == multiset(v)
    ensures r.less.None?
  {
    LazySort(v, None)
  }

  /**
   `size_hint`: the pool length plus whatever the child chain still holds,
   reported as equal lower and upper bounds.
   */
  function SizeHint(s: LazySort): (r: (nat, Option<nat>))
    ensures r.0 == |Elems(s)|
    ensures r.1 == Some(r.0)
    decreases s
  {
    match s.less
    case None => (|s.greater|, Some(|s.greater|))
    case Some(c) =>
      var (lower, upper) := SizeHint(c);
      (lower + |s.greater|, if upper.Some? then Some(upper.value + |s.greater|) else None)
  }

  /** `Vec::pop` on the pool of a node that has (or has just lost) its child. */
  function Pop(g: seq<int>): (r: (Option<int>, LazySort))
    ensures r.1.less.None?
    ensures r.0.None? <==> |g| == 0
    ensures r.0.Some? ==> multiset(g) == multiset(r.1.greater) + multiset{r.0.value}
    ensures r.0.Some? ==> r.0.value == Last(g) && r.1.greater == g[..|g| - 1]
  {
    if |g| == 0 then (None, Exhausted)
    else
      assert g == g[..|g| - 1] + [Last(g)];
      (Some(Last(g)), LazySort(g[..|g| - 1], None))
  }

  /**
   The rearrangement at the heart of `split_greater`: swap the middle element
   into the last slot as the pivot, partition the rest by `> pivot`, and swap
   the pivot back to the boundary. Returns the rearranged pool and the
   boundary, where the pivot now sits.
   */
  function Arrange(g: seq<int>): (r: (seq<int>, nat))
    requires |g| >= 2
    ensures |r.0| == |g| && multiset(r.0) == multiset(g)
    ensures r.1 < |g|
    ensures r.0[r.1] == g[|g| / 2]
    ensures r.1 == CountAbove(g, g[|g| / 2])
    ensures forall i | 0 <= i < r.1 :: r.0[i] > r.0[r.1]
    ensures forall i | r.1 < i < |g| :: r.0[i] <= r.0[r.1]
  {
    var last := |g| - 1;
    var a := Swap(g, last, |g| / 2);
    var pivot := a[last];
    var (rest, k) := Partition(a[..last], pivot);
    PartitionCountsAbove(a[..last], pivot);
    PivotRank(g, a, rest, k);
    PlacePivot(rest, k, pivot);
    (Swap(rest + [pivot], last, k), k)
  }

  /**
   Partitioning everything but the pivot that was swapped into the last slot
   keeps the pool's elements, and the boundary counts the elements of the
   whole pool that are greater than the pivot.
   */
  lemma PivotRank(g: seq<int>, a: seq<int>, rest: seq<int>, k: nat)
    requires |g| >= 2 && |a| == |g| && multiset(a) == multiset(g)
    requires multiset(rest) == multiset(a[..|g| - 1])
    requires k == CountAbove(a[..|g| - 1], a[|g| - 1])
    ensures multiset(rest) + multiset{a[|g| - 1]} == multiset(g)
    ensures k == CountAbove(g, a[|g| - 1])
  {
    var last, pivot := |g| - 1, a[|g| - 1];
    assert a == a[..last] + [pivot];
    CountAboveAppend(a[..last], [pivot], pivot);
    CountAbovePermutation(a, g, pivot);
  }

  /** Swapping the pivot from the end of the partitioned pool to the boundary `k`. */
  lemma PlacePivot(rest: seq<int>, k: nat, pivot: int)
    requires k <= |rest|
    requires forall i | 0 <= i < k :: rest[i] > pivot
    requires forall i | k <= i < |rest| :: rest[i] <= pivot
    ensures var r := Swap(rest + [pivot], |rest|, k);
      && r[k] == pivot
      && (forall i | 0 <= i < k :: r[i] > pivot)
      && (forall i | k < i < |r| :: r[i] <= pivot)
      && multiset(r) == multiset(rest) + multiset{pivot}
  {
    var r := Swap(rest + [pivot], |rest|, k);
    forall i | k < i < |r|
      ensures r[i] <= pivot
    {
      if i == |rest| {
        assert r[i] == rest[k];
      } else {
        assert r[i] == rest[i];
      }
    }
  }

  /**
   What one call of `next` promises when it starts from a valid state `s` and
   returns `r`: the new state is valid; nothing is yielded exactly when nothing
   is left, and then nothing changes; otherwise the yielded element is taken
   out of what is held, and it is at most every element that was held.
   */
  predicate YieldsMinimum(s: LazySort, r: (Option<int>, LazySort))
  {
    && Valid(r.1)
    && (r.0.None? <==> Elems(s) == multiset{})
    && (r.0.None? ==> r.1 == s)
    && (r.0.Some? ==> Elems(s) == Elems(r.1) + multiset{r.0.value})
    && (r.0.Some? ==> forall y | y in Elems(s) :: r.0.value <= y)
  }

  /**
   `split_greater`, called when the node has no child. An empty pool yields
   nothing; a one-element pool yields its element. Otherwise the pool is
   arranged around the middle element; the part not greater than the pivot
   (past the boundary) becomes a new child, whose first element is returned,
   and the pivot stays behind as the last element of the pool. When nothing
   lies past the boundary the pivot is the smallest element and is popped.
   */
  function Split(g: seq<int>): (r: (Option<int>, LazySort))
    ensures YieldsMinimum(LazySort(g, None), r)
    ensures |g| == 1 ==> r == (Some(g[0]), Exhausted)
    ensures r.1.less.Some? ==> 2 <= |g| && |r.1.greater| >= 1 && Last(r.1.greater) == g[|g| / 2]
    ensures r.1.less.Some? ==> |Elems(r.1.less.value)| + 1 < |g|
    ensures 1 <= |g| && r.1.less.None? ==> r.0 == Some(g[|g| / 2])
    decreases |g|, 0, 0
  {
    if |g| == 0 then (None, Exhausted)
    else if |g| == 1 then
      assert g == [g[0]];
      (Some(g[0]), Exhausted)
    else
      var (a, k) := Arrange(g);
      if k + 1 < |a| then
        var child := LazySort(a[k + 1..], None);
        var step := Next(child);
        SplitOffChild(g, a, k, step);
        (step.0, LazySort(a[..k + 1], Some(step.1)))
      else
        PivotIsMinimum(g, a, k);
        Pop(a)
  }

  /**
   `Iterator::next`. With a child, ask it first; when it is exhausted, drop it
   and pop the deferred pivot. Without a child, split the pool.
   */
  function Next(s: LazySort): (r: (Option<int>, LazySort))
    ensures Valid(s) ==> YieldsMinimum(s, r)
    ensures Valid(s) && s.less.Some? && Elems(s.less.value) != multiset{} ==>
              r.1.greater == s.greater && r.1.less.Some?
    ensures Valid(s) && s.less.Some? && Elems(s.less.value) == multiset{} ==>
              r == (Some(Last(s.greater)), LazySort(s.greater[..|s.greater| - 1], None))
    decreases |Elems(s)|, 1, Depth(s)
  {
    match s.less
    case None => Split(s.greater)
    case Some(c) =>
      var step := Next(c);
      var r := if step.0.Some? then (step.0, LazySort(s.greater, Some(step.1))) else Pop(s.greater);
      Delegate(s, step, r);
      r
  }

  /** An upper bound on every element of a sequence bounds every element of its multiset. */
  lemma BoundAbove(t: seq<int>, b: int)
    requires forall i | 0 <= i < |t| :: t[i] <= b
    ensures forall y | y in multiset(t) :: y <= b
  {
    forall y | y in multiset(t)
      ensures y <= b
    {
      assert y in t;
    }
  }

  /** A lower bound on every element of a sequence bounds every element of its multiset. */
  lemma BoundBelow(t: seq<int>, b: int)
    requires forall i | 0 <= i < |t| :: b <= t[i]
    ensures forall y | y in multiset(t) :: b <= y
  {
    forall y | y in multiset(t)
      ensures b <= y
    {
      assert y in t;
    }
  }

  /** What `Split` needs to know when the part past the boundary becomes a child. */
  lemma SplitOffChild(g: seq<int>, a: seq<int>, k: nat, step: (Option<int>, LazySort))
    requires |g| >= 2 && k + 1 < |a| == |g|
    requires multiset(a) == multiset(g)
    requires a[k] == g[|g| / 2]
    requires forall i | 0 <= i < k :: a[i] > a[k]
    requires forall i | k < i < |a| :: a[i] <= a[k]
    requires YieldsMinimum(LazySort(a[k + 1..], None), step)
    ensures step.0.Some?
    ensures YieldsMinimum(LazySort(g, None), (step.0, LazySort(a[..k + 1], Some(step.1))))
    ensures Last(a[..k + 1]) == g[|g| / 2]
    ensures |Elems(step.1)| + 1 < |g|
  {
    var pool, tail := a[..k + 1], a[k + 1..];
    var child := step.1;
    assert Elems(LazySort(tail, None)) == multiset(tail);
    assert tail[0] in multiset(tail);
    var x := step.0.value;
    PivotSeparates(a, k, tail, Elems(child), x);
    assert Valid(LazySort(pool, Some(child)));
    assert Elems(LazySort(pool, Some(child))) == multiset(pool) + Elems(child);
  }

  /**
   After the arrangement, the elements past the boundary (`tail`, which holds
   `held` and its least element `x`) are at most the pivot, and `x` is the
   least element of the whole pool.
   */
  lemma PivotSeparates(a: seq<int>, k: nat, tail: seq<int>, held: multiset<int>, x: int)
    requires k + 1 < |a| && tail == a[k + 1..]
    requires forall i | 0 <= i < k :: a[i] > a[k]
    requires forall i | k < i < |a| :: a[i] <= a[k]
    requires multiset(tail) == held + multiset{x}
    requires forall y | y in multiset(tail) :: x <= y
    ensures forall y | y in held :: y <= a[k]
    ensures multiset(a) == multiset(a[..k + 1]) + held + multiset{x}
    ensures forall y | y in multiset(a) :: x <= y
  {
    assert a == a[..k + 1] + tail;
    BoundAbove(tail, a[k]);
    BoundBelow(a[..k + 1], a[k]);
    assert x in multiset(tail);
    forall y | y in held
      ensures y <= a[k]
    {
      assert y in multiset(tail);
    }
  }

  /** When nothing lies past the boundary, the pivot is the smallest element of the pool and is popped. */
  lemma PivotIsMinimum(g: seq<int>, a: seq<int>, k: nat)
    requires |g| >= 2 && k + 1 == |a| == |g|
    requires multiset(a) == multiset(g)
    requires forall i | 0 <= i < k :: a[i] > a[k]
    ensures Pop(a).0 == Some(a[k])
    ensures YieldsMinimum(LazySort(g, None), Pop(a))
  {
    BoundBelow(a, a[k]);
    assert Elems(LazySort(g, None)) == multiset(a);
  }

  /**
   The step of `Next` for a node with a child: if the child yields, the pool
   is kept; if the child is exhausted, the deferred pivot is popped, and it is
   the smallest element left.
   */
  lemma Delegate(s: LazySort, step: (Option<int>, LazySort), r: (Option<int>, LazySort))
    requires s.less.Some?
    requires Valid(s.less.value) ==> YieldsMinimum(s.less.value, step)
    requires r == if step.0.Some? then (step.0, LazySort(s.greater, Some(step.1))) else Pop(s.greater)
    ensures Valid(s) ==> YieldsMinimum(s, r)
  {
    if Valid(s) {
      if step.0.Some? {
        ChildYielded(s, step);
      } else {
        ChildExhausted(s);
      }
    }
  }

  lemma ChildYielded(s: LazySort, step: (Option<int>, LazySort))
    requires Valid(s) && s.less.Some? && step.0.Some?
    requires YieldsMinimum(s.less.value, step)
    ensures YieldsMinimum(s, (step.0, LazySort(s.greater, Some(step.1))))
  {
    var c, x, c' := s.less.value, step.0.value, step.1;
    var g := s.greater;
    assert forall y | y in Elems(c') :: y in Elems(c);
    assert x in Elems(c);
    BoundBelow(g, Last(g));
    assert Elems(LazySort(g, Some(c'))) == multiset(g) + Elems(c');
  }

  lemma ChildExhausted(s: LazySort)
    requires Valid(s) && s.less.Some? && Elems(s.less.value) == multiset{}
    ensures YieldsMinimum(s, Pop(s.greater))
  {
    var g := s.greater;
    assert Elems(s) == multiset(g);
    BoundBelow(g, Last(g));
  }
}
