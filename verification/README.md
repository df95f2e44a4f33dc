# lazy-sort in Dafny

A model of the `LazySort` iterator of the `lazy-sort` crate: a quicksort that
does only as much partitioning as the next requested element needs.

A node (`LazySorts.LazySort`) holds an unsorted pool `greater` and an optional
owned child `less`. When a node without a child is asked for its next element,
it splits its pool (`split_greater`). It swaps the middle element into the last
slot as the pivot. It partitions the rest so that elements greater than the
pivot come first. It swaps the pivot back to the boundary. Everything past the
boundary (the elements not greater than the pivot) is split off into a new
child, and the child's first element is returned. The pivot stays behind as
the last element of the pool. When a node has a child, it asks the child
first. Once the child is exhausted, the node drops it and pops the deferred
pivot. Elements therefore come out in **ascending** order.

Modules:

- `Options` (`options.dfy`): the `Option` datatype.
- `Partitioning` (`partition.dfy`): `Swap` and a two-pointer `Partition` by
  "greater than the pivot", with the count of greater elements it returns.
- `LazySorts` (`lazy_sort.dfy`): the node datatype, its invariant `Valid`, the
  multiset `Elems` of everything still held, and `Arrange`, `Split`, `Next`,
  `SizeHint`, `LazySortOf`.
- `Draining` (`drain.dfy`): `Advance` (`k` calls of `next`), `Take` (what they
  yield), `Collect`, a reference insertion sort, and the end-to-end theorems.

Elements are `int`. The state is an immutable datatype, and `Next` is a pure
function that returns the yielded element together with the new state. `Next`
is total, like the Rust method. Its guarantees are stated for states satisfying
`Valid`, the invariant that every state built by `lazy_sort` and `next` keeps.

The code yields ascending order: `test_sort` compares the drained output with
`Vec::sort` (src/lib.rs:94-100).

## Model

| member | source | states |
|---|---|---|
| Partitioning.Swap | src/lib.rs:27 | exchanging two slots keeps the length and the multiset of elements |
| Partitioning.Partition | src/lib.rs:29 | the result is a permutation of the input; every element before the returned index is greater than the pivot, every element from it on is not |
| Partitioning.Scan | src/lib.rs:29 | the front-cursor scan of the partition keeps the permutation and ends with the greater elements before the boundary it returns |
| Partitioning.SeekBack | src/lib.rs:29 | the back-cursor search swaps a greater element to the front or ends the partition when the cursors meet, keeping the permutation |
| Partitioning.PartitionCountsAbove | src/lib.rs:29 | the index the partition returns is the number of elements greater than the pivot |
| Partitioning.CountAbovePermutation | src/lib.rs:29 | the number of elements greater than the pivot depends only on the multiset, not on the order |
| LazySorts.Arrange | src/lib.rs:21-31 | after the middle/last swap, the partition and the swap back, the pool is a permutation of the old one; the middle element sits at the boundary, which equals the number of elements greater than it; everything before it is greater and everything after it is not |
| LazySorts.PivotRank | src/lib.rs:27-29 | partitioning all but the last slot keeps the pool's elements, and the boundary counts the pool's elements greater than the pivot |
| LazySorts.PlacePivot | src/lib.rs:31 | swapping the pivot back to the boundary puts it between the greater and the not-greater regions, keeping the elements |
| LazySorts.Split | src/lib.rs:16-46 | an empty pool yields nothing and leaves the exhausted state; a one-element pool yields that element and is left empty; otherwise the yielded element is the least of the pool and is removed from it; a new child had at least one and fewer than all of the pool's elements; the pool then ends with the middle element as pivot; with no child the yielded element is that pivot; the result keeps the invariant |
| LazySorts.SplitOffChild | src/lib.rs:32-40 | when the not-greater part becomes a child, the pivot left at the end of the pool is below every other pool element and at least every child element, and the child's first element is the least of the whole pool |
| LazySorts.PivotIsMinimum | src/lib.rs:41-43 | when nothing lies past the boundary, the pivot is popped and it is the least element of the pool |
| LazySorts.Pop | src/lib.rs:63 | popping yields the last element of the pool, removes exactly it, and drops the child; an empty pool yields nothing |
| LazySorts.Next | src/lib.rs:53-65 | from a valid state: the new state is valid; nothing is yielded exactly when nothing is held, and then nothing changes; a yielded element is at most every element that was held, and it plus what is still held is exactly what was held; if the child still holds elements the pool is untouched and the child is kept; if the child is exhausted it is dropped and the deferred pivot is popped |
| LazySorts.ChildYielded | src/lib.rs:54-60 | when the child yields, its element is the least of the whole node and the node with the advanced child keeps the invariant |
| LazySorts.ChildExhausted | src/lib.rs:59-64 | when the child is exhausted, the popped deferred pivot is the least element left in the node |
| LazySorts.SizeHint | src/lib.rs:68-77 | the lower bound is exactly the number of elements still held through the whole child chain, and the upper bound is the same number |
| LazySorts.LazySortOf | src/lib.rs:84-89 | the constructor holds exactly the input's elements, has no child and satisfies the invariant |
| Draining.Advance | src/lib.rs:113-118 | after `k` calls of `next` from a valid state, the state is valid and holds `k` fewer elements, or none |
| Draining.Take | src/lib.rs:53-65 | `k` calls of `next` yield as many elements as asked for or as held, in ascending order, each at most everything still held afterwards, and together with what is still held they are exactly what was held |
| Draining.Collect | src/lib.rs:97 | draining a valid state yields its elements sorted ascending |
| Draining.CollectStopsAtExhaustion | src/lib.rs:97 | each of the first n calls of `next` on a state holding n elements yields, and the next call does not |
| Draining.ExhaustedStaysExhausted | src/lib.rs:53-58 | once nothing is held, any number of further calls of `next` yield nothing and change nothing |
| Draining.EmptyInput | src/lib.rs:102-107 | the sort of an empty input yields nothing at once, reports (0, Some(0)), and drains to the empty sequence |
| Draining.SizeHintDropsByOne | src/lib.rs:68-77 | each call of `next` on a state still holding elements lowers both bounds of the size hint by exactly one |
| Draining.SizeHintCountsDown | src/lib.rs:110-119 | after `i` calls of `next` on the sort of `v`, the size hint is (`|v| - i`, Some(`|v| - i`)) |
| Draining.InsertionSort | src/lib.rs:98 | the reference sort returns a sorted permutation of its input |
| Draining.SortedUnique | src/lib.rs:98-99 | two sorted sequences with the same elements are equal, so the sorted output is unique |
| Draining.DrainSorts | src/lib.rs:94-100 | draining the lazy sort of any input gives exactly the reference sort of that input, duplicates included |
| Draining.TakeIsSortedPrefix | src/lib.rs:53-65 | the first `k` elements yielded are the first `k` elements of the input sorted |
| Draining.SortsSample | src/lib.rs:95-99 | the input [2,4,2,5,8,4,3,4,6] drains to [2,2,3,4,4,4,5,6,8] |

## Left out

- Heap-based variant and small-input insertion-sort fallback: the modelled code has neither.
- `itertools::partition`: its source is not part of this model. `Partitioning.Partition` is a two-pointer partition in the style of `itertools::partition`, and the proofs use only its contract: a permutation, the greater elements first, and their count. The order within each region decides the child's later pivots. It follows the two-pointer scan, and the model does not claim it matches the exact arrangement `itertools::partition` produces.
- Element type: the generic `T: Ord` is modelled as `int` with its usual total order.
- `Box` and ownership: the child is a plain recursive datatype field.
- `usize`: counts are unbounded `nat`. The sums in `size_hint` cannot overflow: each is the number of elements still held, which is at most the length of the input vector, and that length is itself a `usize`.
- `Iterator::collect`: `Draining.Collect` calls `next` as many times as the state holds elements, and `Draining.CollectStopsAtExhaustion` shows that this is exactly where `collect` stops.
- The blanket `impl LazySortIterator for T`: the constructor takes a sequence directly.
- Benchmarks, `rand` and `test::Bencher` (src/lib.rs:121-182): timing and random input generation, not logic.
- Performance (O(n + k log k) work, allocation counts): not a property the model states.
