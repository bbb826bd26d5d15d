/** The bubble sort at the end of the stress-test client's
    `__getSortRandomNumberArray`: ten random numbers, sorted in place by adjacent
    swaps. The random draws are taken as input. */
module StressSort {

  /** Length of the array the client builds. */
  const ARRAY_LENGTH: nat := 10

  predicate Sorted(a: seq<int>) {
    forall i, j | 0 <= i < j < |a| :: a[i] <= a[j]
  }

  /** The suffix from index `k` on is sorted and no element before `k` exceeds
      any element from `k` on: those positions hold the largest elements, in
      their final order. */
  predicate SettledFrom(a: seq<int>, k: nat)
    requires k <= |a|
  {
    && (forall i, j | k <= i < j < |a| :: a[i] <= a[j])
    && (forall i, j | 0 <= i < k <= j < |a| :: a[i] <= a[j])
  }

  /** Exchange of two adjacent elements. */
  function SwapAdjacent(a: seq<int>, j: nat): (b: seq<int>)
    requires 0 < j < |a|
    ensures |b| == |a| && multiset(b) == multiset(a)
    ensures b[j - 1] == a[j] && b[j] == a[j - 1]
    ensures forall k | 0 <= k < |a| && k != j - 1 && k != j :: b[k] == a[k]
  {
    var b := a[j - 1 := a[j]][j := a[j - 1]];
    assert b == a[..j - 1] + [a[j], a[j - 1]] + a[j + 1..];
    assert a == a[..j - 1] + [a[j - 1], a[j]] + a[j + 1..];
    b
  }

  /** Outer pass `i`: the inner loop `for j in 1 .. n - i - 1` carries the largest
      element of the unsettled prefix to index `n - i - 1`. */
  method BubblePass(a: seq<int>, i: nat) returns (b: seq<int>)
    requires i < |a| && SettledFrom(a, |a| - i)
    ensures |b| == |a| && multiset(b) == multiset(a)
    ensures SettledFrom(b, |a| - i - 1)
    ensures b[|a| - i..] == a[|a| - i..]
  {
    var m := |a| - i;
    b := a;
    var j := 1;
    while j < m
      invariant 1 <= j <= m
      invariant |b| == |a| && multiset(b) == multiset(a)
      invariant b[m..] == a[m..]
      invariant SettledFrom(b, m)
      invariant forall k | 0 <= k < j :: b[k] <= b[j - 1]
    {
      if b[j - 1] > b[j] {
        b := SwapAdjacent(b, j);
      }
      j := j + 1;
    }
  }

  /** The two nested loops: after every outer pass `i` the last `i + 1` positions
      are settled, so after all `n` passes the whole array is sorted; only
      adjacent swaps happen, so it is a permutation of the input. */
  method BubbleSort(input: seq<int>) returns (arr: seq<int>)
    ensures |arr| == |input|
    ensures Sorted(arr)
    ensures multiset(arr) == multiset(input)
  {
    arr := input;
    var n := |arr|;
    var i := 0;
    while i < n
      invariant 0 <= i <= n && |arr| == n
      invariant multiset(arr) == multiset(input)
      invariant SettledFrom(arr, n - i)
    {
      arr := BubblePass(arr, i);
      i := i + 1;
    }
  }

  /** `__getSortRandomNumberArray()`, with the ten random draws as input. */
  method SortRandomNumberArray(draws: seq<int>) returns (arr: seq<int>)
    requires |draws| == ARRAY_LENGTH
    ensures |arr| == ARRAY_LENGTH
    ensures Sorted(arr) && multiset(arr) == multiset(draws)
  {
    arr := BubbleSort(draws);
  }
}
