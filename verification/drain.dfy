/**
 Consuming the iterator: `k` calls of `next`, the elements they yield, and the
 whole drained output, related to an independent reference sort.
 */
module Draining {
  import opened Options
  import opened LazySorts

  predicate Sorted(v: seq<int>)
  {
    forall i, j | 0 <= i <= j < |v| :: v[i] <= v[j]
  }

  /** The state after `k` calls of `next`. */
  function Advance(s: LazySort, k: nat): (r: LazySort)
    ensures Valid(s) ==> Valid(r)
    ensures Valid(s) ==> |Elems(r)| == if k <= |Elems(s)| then |Elems(s)| - k else 0
    decreases k
  {
    if k == 0 then s else Advance(Next(s).1, k - 1)
  }

  /**
   What `k` calls of `next` from a valid state `s` yield: as many elements as
   were asked for or as were held, whichever is fewer; in ascending order;
   each at most every element still held afterwards; and together with what is
   still held afterwards, exactly what was held before.
   */
  predicate YieldsSmallest(s: LazySort, k: nat, out: seq<int>)
  {
    && |out| == (if k <= |Elems(s)| then k else |Elems(s)|)
    && multiset(out) + Elems(Advance(s, k)) == Elems(s)
    && Sorted(out)
    && (forall i, y | 0 <= i < |out| && y in Elems(Advance(s, k)) :: out[i] <= y)
  }

  /** The elements yielded by `k` calls of `next` (fewer once the iterator runs dry): `take(k)`. */
  function Take(s: LazySort, k: nat): (out: seq<int>)
    ensures Valid(s) ==> YieldsSmallest(s, k, out)
    decreases k
  {
    if k == 0 then []
    else
      var step := Next(s);
      if step.0.None? then []
      else
        var rest := Take(step.1, k - 1);
        assert Advance(s, k) == Advance(step.1, k - 1);
        TakeStep(s, k, step.0.value, step.1, rest);
        [step.0.value] + rest
  }

  /** `collect()`: calls `next` until it yields nothing, which a valid state does after as many calls as it holds elements. */
  function Collect(s: LazySort): (out: seq<int>)
    ensures Valid(s) ==> Sorted(out) && multiset(out) == Elems(s)
  {
    Take(s, |Elems(s)|)
  }

  /** The induction step behind `Take`'s contract: yield the minimum, then the rest. */
  lemma TakeStep(s: LazySort, k: nat, x: int, s': LazySort, rest: seq<int>)
    requires k >= 1 && Advance(s, k) == Advance(s', k - 1)
    requires Valid(s) ==> YieldsMinimum(s, (Some(x), s'))
    requires Valid(s') ==> YieldsSmallest(s', k - 1, rest)
    ensures Valid(s) ==> YieldsSmallest(s, k, [x] + rest)
  {
    if Valid(s) {
      MinimumFirst(x, Elems(s), Elems(s'), rest, Elems(Advance(s, k)));
    }
  }

  /**
   The same step on plain collections: `x` is the least of `held`, which is
   `x` plus `held'`; `rest` was yielded from `held'`, leaving `after`.
   */
  lemma MinimumFirst(x: int, held: multiset<int>, held': multiset<int>, rest: seq<int>, after: multiset<int>)
    requires held == held' + multiset{x}
    requires forall y | y in held :: x <= y
    requires multiset(rest) + after == held'
    requires Sorted(rest)
    requires forall i, y | 0 <= i < |rest| && y in after :: rest[i] <= y
    ensures multiset([x] + rest) + after == held
    ensures Sorted([x] + rest)
    ensures forall i, y | 0 <= i < |rest| + 1 && y in after :: ([x] + rest)[i] <= y
  {
    forall i | 0 <= i < |rest|
      ensures x <= rest[i]
    {
      assert rest[i] in multiset(rest);
      assert rest[i] in held;
    }
    SortedCons(x, rest);
    assert multiset([x] + rest) == multiset{x} + multiset(rest);
    forall i, y | 0 <= i < |rest| + 1 && y in after
      ensures ([x] + rest)[i] <= y
    {
      if i > 0 {
        assert ([x] + rest)[i] == rest[i - 1];
      } else {
        assert y in held;
      }
    }
  }

  lemma SortedCons(x: int, rest: seq<int>)
    requires Sorted(rest)
    requires forall i | 0 <= i < |rest| :: x <= rest[i]
    ensures Sorted([x] + rest)
  {
    var out := [x] + rest;
    forall i, j | 0 <= i <= j < |out|
      ensures out[i] <= out[j]
    {
      if i > 0 {
        assert out[i] == rest[i - 1] && out[j] == rest[j - 1];
      } else if j > 0 {
        assert out[j] == rest[j - 1];
      }
    }
  }

  /**
   `Collect` stops where `collect()` does: every one of the first `|Elems(s)|`
   calls of `next` yields an element, and the call after them yields nothing.
   */
  lemma {:induction false} CollectStopsAtExhaustion(s: LazySort, k: nat)
    requires Valid(s)
    ensures k < |Elems(s)| ==> Next(Advance(s, k)).0.Some?
    ensures k == |Elems(s)| ==> Next(Advance(s, k)).0.None?
  {
  }

  /** Once nothing is held, `next` yields nothing and changes nothing, however often it is called. */
  lemma {:induction false} ExhaustedStaysExhausted(s: LazySort, k: nat)
    requires Valid(s) && Elems(s) == multiset{}
    ensures Advance(s, k) == s
    ensures Next(Advance(s, k)) == (None, s)
    decreases k
  {
    if k > 0 {
      ExhaustedStaysExhausted(Next(s).1, k - 1);
    }
  }

  /** An empty input yields nothing at once and reports no remaining elements. */
  lemma EmptyInput()
    ensures Next(LazySortOf([])) == (None, LazySortOf([]))
    ensures SizeHint(LazySortOf([])) == (0, Some(0))
    ensures Collect(LazySortOf([])) == []
  {
  }

  /** Each call of `next` on a state still holding elements lowers the size hint by exactly one. */
  lemma SizeHintDropsByOne(s: LazySort)
    requires Valid(s) && Elems(s) != multiset{}
    ensures SizeHint(Next(s).1).0 + 1 == SizeHint(s).0
    ensures SizeHint(Next(s).1).1 == Some(SizeHint(s).0 - 1)
  {
    var r := Next(s);
    assert Elems(s) == Elems(r.1) + multiset{r.0.value};
  }

  /** After `i` calls of `next` on a sort of `v`, the size hint is `|v| - i` for both bounds. */
  lemma SizeHintCountsDown(v: seq<int>, i: nat)
    requires i <= |v|
    ensures SizeHint(Advance(LazySortOf(v), i)) == (|v| - i, Some(|v| - i))
  {
    var t := Advance(LazySortOf(v), i);
    var (lower, upper) := SizeHint(t);
    assert lower == |Elems(t)| == |v| - i;
  }

  /** Reference sort: `x` inserted into a sorted sequence. */
  function Insert(x: int, v: seq<int>): (r: seq<int>)
    requires Sorted(v)
    ensures Sorted(r)
    ensures multiset(r) == multiset(v) + multiset{x}
    ensures |r| == |v| + 1
  {
    if |v| == 0 || x <= v[0] then
      SortedCons(x, v);
      [x] + v
    else
      var r := [v[0]] + Insert(x, v[1..]);
      assert v == [v[0]] + v[1..];
      assert forall i | 0 <= i < |Insert(x, v[1..])| :: v[0] <= Insert(x, v[1..])[i] by {
        forall i | 0 <= i < |Insert(x, v[1..])|
          ensures v[0] <= Insert(x, v[1..])[i]
        {
          assert Insert(x, v[1..])[i] in multiset(v[1..]) + multiset{x};
        }
      }
      SortedCons(v[0], Insert(x, v[1..]));
      r
  }

  /** Reference sort: insertion sort, standing for the standard library's `sort`. */
  function InsertionSort(v: seq<int>): (r: seq<int>)
    ensures Sorted(r)
    ensures multiset(r) == multiset(v)
    ensures |r| == |v|
  {
    if |v| == 0 then []
    else
      assert v == [v[0]] + v[1..];
      Insert(v[0], InsertionSort(v[1..]))
  }

  /** Two sorted sequences holding the same elements are equal. */
  lemma {:induction false} SortedUnique(a: seq<int>, b: seq<int>)
    requires Sorted(a) && Sorted(b)
    requires multiset(a) == multiset(b)
    ensures a == b
    decreases |a|
  {
    assert |a| == |multiset(a)| == |multiset(b)| == |b|;
    if |a| > 0 {
      HeadAndTail(a);
      HeadAndTail(b);
      assert a[0] == b[0];
      SortedUnique(a[1..], b[1..]);
    }
  }

  /** A non-empty sorted sequence starts with its least element and continues with the rest. */
  lemma HeadAndTail(a: seq<int>)
    requires Sorted(a) && |a| > 0
    ensures a[0] in multiset(a)
    ensures forall y | y in multiset(a) :: a[0] <= y
    ensures Sorted(a[1..])
    ensures multiset(a[1..]) == multiset(a) - multiset{a[0]}
  {
    assert a == [a[0]] + a[1..];
    forall y | y in multiset(a)
      ensures a[0] <= y
    {
      var i :| 0 <= i < |a| && a[i] == y;
    }
  }

  /** Draining the lazy sort of `v` gives `v` sorted ascending, duplicates included. */
  lemma DrainSorts(v: seq<int>)
    ensures Collect(LazySortOf(v)) == InsertionSort(v)
  {
    SortedUnique(Collect(LazySortOf(v)), InsertionSort(v));
  }

  /** The first `k` elements yielded are the first `k` elements of `v` sorted: the reason to sort lazily. */
  lemma TakeIsSortedPrefix(v: seq<int>, k: nat)
    ensures Take(LazySortOf(v), k) == InsertionSort(v)[..if k <= |v| then k else |v|]
  {
    var s := LazySortOf(v);
    var out := Take(s, k);
    var t := Advance(s, k);
    var rest := Collect(t);
    PrefixOfSort(out, rest, v);
  }

  /**
   A sorted `out`, followed by a sorted `rest` whose elements are all at
   least those of `out`, together holding `v`, is how `v` sorted begins.
   */
  lemma PrefixOfSort(out: seq<int>, rest: seq<int>, v: seq<int>)
    requires Sorted(out) && Sorted(rest)
    requires multiset(out) + multiset(rest) == multiset(v)
    requires forall i, y | 0 <= i < |out| && y in multiset(rest) :: out[i] <= y
    ensures |out| <= |v| && out == InsertionSort(v)[..|out|]
  {
    assert |multiset(out) + multiset(rest)| == |v|;
    var whole := out + rest;
    forall i, j | 0 <= i <= j < |whole|
      ensures whole[i] <= whole[j]
    {
      if j >= |out| {
        assert whole[j] == rest[j - |out|];
        assert whole[j] in multiset(rest);
        if i < |out| {
          assert whole[i] == out[i];
        } else {
          assert whole[i] == rest[i - |out|];
        }
      }
    }
    assert multiset(whole) == multiset(v);
    SortedUnique(whole, InsertionSort(v));
    assert whole[..|out|] == out;
  }

  /** The crate's `test_sort` input drains to its ascending sort, duplicates included. */
  lemma SortsSample()
    ensures Collect(LazySortOf([2, 4, 2, 5, 8, 4, 3, 4, 6])) == [2, 2, 3, 4, 4, 4, 5, 6, 8]
  {
    SampleExpectation();
    DrainsTo([2, 4, 2, 5, 8, 4, 3, 4, 6], [2, 2, 3, 4, 4, 4, 5, 6, 8]);
  }

  /** The expected output of `test_sort` is sorted and rearranges its input. */
  lemma SampleExpectation()
    ensures Sorted([2, 2, 3, 4, 4, 4, 5, 6, 8])
    ensures multiset([2, 2, 3, 4, 4, 4, 5, 6, 8]) == multiset([2, 4, 2, 5, 8, 4, 3, 4, 6])
  {
    forall y
      ensures Occurrences([2, 2, 3, 4, 4, 4, 5, 6, 8], y) == Occurrences([2, 4, 2, 5, 8, 4, 3, 4, 6], y)
    {
      ExpectedTally(y);
      InputTally(y);
    }
    SameOccurrences([2, 2, 3, 4, 4, 4, 5, 6, 8], [2, 4, 2, 5, 8, 4, 3, 4, 6]);
    ExpectedIsSorted();
  }

  lemma ExpectedIsSorted()
    ensures Sorted([2, 2, 3, 4, 4, 4, 5, 6, 8])
  {
  }

  /** How often `y` occurs in `v`. */
  function Occurrences(v: seq<int>, y: int): nat
  {
    if |v| == 0 then 0 else (if v[0] == y then 1 else 0) + Occurrences(v[1..], y)
  }

  lemma {:induction false} OccurrencesCount(v: seq<int>, y: int)
    ensures Occurrences(v, y) == multiset(v)[y]
    decreases |v|
  {
    if |v| > 0 {
      assert v == [v[0]] + v[1..];
      OccurrencesCount(v[1..], y);
    }
  }

  /** Sequences in which every value occurs equally often hold the same multiset. */
  lemma SameOccurrences(a: seq<int>, b: seq<int>)
    requires forall y :: Occurrences(a, y) == Occurrences(b, y)
    ensures multiset(a) == multiset(b)
  {
    forall y
      ensures multiset(a)[y] == multiset(b)[y]
    {
      OccurrencesCount(a, y);
      OccurrencesCount(b, y);
    }
  }

  lemma OccurrencesCons(x: int, v: seq<int>, y: int)
    ensures Occurrences([x] + v, y) == (if x == y then 1 else 0) + Occurrences(v, y)
  {
    assert ([x] + v)[1..] == v;
  }

  /** The `test_sort` input holds two 2s, one 3, three 4s, one 5, one 6 and one 8. */
  function SampleTally(y: int): nat
  {
    (if y == 2 then 2 else 0) + (if y == 3 then 1 else 0) + (if y == 4 then 3 else 0)
    + (if y == 5 then 1 else 0) + (if y == 6 then 1 else 0) + (if y == 8 then 1 else 0)
  }

  lemma ExpectedTally(y: int)
    ensures Occurrences([2, 2, 3, 4, 4, 4, 5, 6, 8], y) == SampleTally(y)
  {
    OccurrencesCons(2, [2, 3, 4, 4, 4, 5, 6, 8], y);
    OccurrencesCons(2, [3, 4, 4, 4, 5, 6, 8], y);
    OccurrencesCons(3, [4, 4, 4, 5, 6, 8], y);
    OccurrencesCons(4, [4, 4, 5, 6, 8], y);
    OccurrencesCons(4, [4, 5, 6, 8], y);
    OccurrencesCons(4, [5, 6, 8], y);
    OccurrencesCons(5, [6, 8], y);
    OccurrencesCons(6, [8], y);
    OccurrencesCons(8, [], y);
  }

  lemma InputTally(y: int)
    ensures Occurrences([2, 4, 2, 5, 8, 4, 3, 4, 6], y) == SampleTally(y)
  {
    OccurrencesCons(2, [4, 2, 5, 8, 4, 3, 4, 6], y);
    OccurrencesCons(4, [2, 5, 8, 4, 3, 4, 6], y);
    OccurrencesCons(2, [5, 8, 4, 3, 4, 6], y);
    OccurrencesCons(5, [8, 4, 3, 4, 6], y);
    OccurrencesCons(8, [4, 3, 4, 6], y);
    OccurrencesCons(4, [3, 4, 6], y);
    OccurrencesCons(3, [4, 6], y);
    OccurrencesCons(4, [6], y);
    OccurrencesCons(6, [], y);
  }

  /** Any sorted rearrangement of `v` is what draining the lazy sort of `v` gives. */
  lemma DrainsTo(v: seq<int>, expected: seq<int>)
    requires Sorted(expected) && multiset(expected) == multiset(v)
    ensures Collect(LazySortOf(v)) == expected
  {
    SortedUnique(Collect(LazySortOf(v)), expected);
  }
}
