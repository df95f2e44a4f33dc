/**
 The partition step the lazy sort relies on: rearrange a slice so that the
 elements strictly greater than a pivot come first, and report how many of
 them there are. The scan is a two-pointer partition in the style of
 `itertools::partition` (a front cursor that skips elements already in place
 and a back cursor that looks for an element to swap with). The proofs about
 the lazy sort use only the contract of `Partition`: a permutation, the
 greater elements first, and their count.
 */
module Partitioning {

  /** `a` with the elements at `i` and `j` exchanged, as the slice method `swap` does. */
  function Swap(a: seq<int>, i: nat, j: nat): (r: seq<int>)
    requires i < |a| && j < |a|
    ensures |r| == |a|
    ensures r[i] == a[j] && r[j] == a[i]
    ensures forall k | 0 <= k < |a| && k != i && k != j :: r[k] == a[k]
    ensures multiset(r) == multiset(a)
  {
    a[i := a[j]][j := a[i]]
  }

  /** How many elements of `a` are strictly greater than `p`. */
  function CountAbove(a: seq<int>, p: int): nat
  {
    if |a| == 0 then 0 else (if a[0] > p then 1 else 0) + CountAbove(a[1..], p)
  }

  /**
   The front cursor is at `i`, the back cursor just past `j`: everything before
   `i` is already known to be greater than `p`, everything from `j` on is known
   not to be.
   */
  function Scan(a: seq<int>, p: int, i: nat, j: nat): (r: (seq<int>, nat))
    requires i <= j <= |a|
    requires forall k | 0 <= k < i :: a[k] > p
    requires forall k | j <= k < |a| :: a[k] <= p
    ensures |r.0| == |a| && multiset(r.0) == multiset(a)
    ensures i <= r.1 <= j
    ensures forall k | 0 <= k < r.1 :: r.0[k] > p
    ensures forall k | r.1 <= k < |a| :: r.0[k] <= p
    decreases j - i, 1
  {
    if i == j then (a, i)
    else if a[i] > p then Scan(a, p, i + 1, j)
    else SeekBack(a, p, i, j)
  }

  /**
   The element under the front cursor is not greater than `p`: walk the back
   cursor down until it finds one that is, and swap the two; if the cursors
   meet first, the partition is complete and `i` is the boundary.
   */
  function SeekBack(a: seq<int>, p: int, i: nat, j: nat): (r: (seq<int>, nat))
    requires i < j <= |a|
    requires a[i] <= p
    requires forall k | 0 <= k < i :: a[k] > p
    requires forall k | j <= k < |a| :: a[k] <= p
    ensures |r.0| == |a| && multiset(r.0) == multiset(a)
    ensures i <= r.1 < j
    ensures forall k | 0 <= k < r.1 :: r.0[k] > p
    ensures forall k | r.1 <= k < |a| :: r.0[k] <= p
    decreases j - i, 0
  {
    if j == i + 1 then (a, i)
    else if a[j - 1] > p then
      var swapped := Swap(a, i, j - 1);
      SwapFrontBack(a, p, i, j, swapped);
      Scan(swapped, p, i + 1, j - 1)
    else
      SeekBack(a, p, i, j - 1)
  }

  /** Exchanging the misplaced front and back elements moves both cursors one step inward. */
  lemma SwapFrontBack(a: seq<int>, p: int, i: nat, j: nat, swapped: seq<int>)
    requires i + 1 < j <= |a|
    requires a[i] <= p && a[j - 1] > p
    requires forall k | 0 <= k < i :: a[k] > p
    requires forall k | j <= k < |a| :: a[k] <= p
    requires swapped == Swap(a, i, j - 1)
    ensures forall k | 0 <= k < i + 1 :: swapped[k] > p
    ensures forall k | j - 1 <= k < |a| :: swapped[k] <= p
  {
  }

  /**
   Rearranges `a` into the elements greater than `p` followed by the others,
   returning the rearranged sequence and the index of the boundary.
   */
  function Partition(a: seq<int>, p: int): (r: (seq<int>, nat))
    ensures |r.0| == |a| && multiset(r.0) == multiset(a)
    ensures r.1 <= |a|
    ensures forall k | 0 <= k < r.1 :: r.0[k] > p
    ensures forall k | r.1 <= k < |a| :: r.0[k] <= p
  {
    Scan(a, p, 0, |a|)
  }

  lemma {:induction false} CountAboveAppend(a: seq<int>, b: seq<int>, p: int)
    ensures CountAbove(a + b, p) == CountAbove(a, p) + CountAbove(b, p)
    decreases |a|
  {
    if |a| == 0 {
      assert a + b == b;
    } else {
      assert (a + b)[0] == a[0];
      assert (a + b)[1..] == a[1..] + b;
      CountAboveAppend(a[1..], b, p);
    }
  }

  /** Taking the element at `i` out of `b` removes its contribution to the count and to the multiset. */
  lemma RemoveAt(b: seq<int>, i: nat, p: int)
    requires i < |b|
    ensures CountAbove(b, p) == (if b[i] > p then 1 else 0) + CountAbove(b[..i] + b[i + 1..], p)
    ensures multiset(b) == multiset(b[..i] + b[i + 1..]) + multiset{b[i]}
  {
    assert b == b[..i] + ([b[i]] + b[i + 1..]);
    CountAboveAppend(b[..i], [b[i]] + b[i + 1..], p);
    CountAboveAppend(b[..i], b[i + 1..], p);
    assert ([b[i]] + b[i + 1..])[1..] == b[i + 1..];
  }

  /** The count depends only on the multiset of elements, not on their order. */
  lemma {:induction false} CountAbovePermutation(a: seq<int>, b: seq<int>, p: int)
    requires multiset(a) == multiset(b)
    ensures CountAbove(a, p) == CountAbove(b, p)
    decreases |a|
  {
    if |a| == 0 {
      assert |multiset(b)| == 0;
    } else {
      assert a == [a[0]] + a[1..];
      assert a[0] in multiset(b);
      var i :| 0 <= i < |b| && b[i] == a[0];
      var rest := b[..i] + b[i + 1..];
      RemoveAt(b, i, p);
      assert multiset(a[1..]) == multiset(rest) by {
        assert multiset(a[1..]) == multiset(a) - multiset{a[0]};
        assert multiset(rest) == multiset(b) - multiset{a[0]};
      }
      CountAbovePermutation(a[1..], rest, p);
    }
  }

  /** A sequence split at `k` into greater and not-greater parts has exactly `k` greater elements. */
  lemma {:induction false} CountAboveSplit(b: seq<int>, k: nat, p: int)
    requires k <= |b|
    requires forall i | 0 <= i < k :: b[i] > p
    requires forall i | k <= i < |b| :: b[i] <= p
    ensures CountAbove(b, p) == k
    decreases |b|
  {
    if |b| > 0 {
      CountAboveSplit(b[1..], if k == 0 then 0 else k - 1, p);
    }
  }

  /** The boundary `Partition` returns is the number of elements greater than the pivot. */
  lemma PartitionCountsAbove(a: seq<int>, p: int)
    ensures Partition(a, p).1 == CountAbove(a, p)
  {
    var (b, k) := Partition(a, p);
    CountAboveSplit(b, k, p);
    CountAbovePermutation(a, b, p);
  }
}
