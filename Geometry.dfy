/** Mapping a pointer coordinate to a row or column index, by walking the
    actual sizes of the grid's row (or column) definitions. */
module Geometry {

  /** The extent covered by the first `n` rows (or columns). */
  function PrefixSum(sizes: seq<real>, n: nat): real
    requires n <= |sizes|
  {
    if n == 0 then 0.0 else PrefixSum(sizes, n - 1) + sizes[n - 1]
  }

  /** Actual sizes reported by the layout are never negative. */
  predicate NonNegative(sizes: seq<real>)
  {
    forall k :: 0 <= k < |sizes| ==> sizes[k] >= 0.0
  }

  /** `i` is the cell under coordinate `p`: no earlier cell ends at or after
      `p`, and cell `i`, when it exists, does. `i == |sizes|` means that no
      cell reaches `p`. */
  predicate IsCellIndex(sizes: seq<real>, p: real, i: nat)
  {
    && i <= |sizes|
    && (forall j :: 1 <= j <= i ==> PrefixSum(sizes, j) < p)
    && (i < |sizes| ==> PrefixSum(sizes, i + 1) >= p)
  }

  /** Reference definition of the cell under `p`: drop cells from the front,
      shifting `p` by each dropped size. */
  function CellIndex(sizes: seq<real>, p: real): (i: nat)
    ensures i <= |sizes|
  {
    if |sizes| == 0 || sizes[0] >= p then 0 else 1 + CellIndex(sizes[1..], p - sizes[0])
  }

  lemma {:induction false} PrefixSumShift(s: seq<real>, j: nat)
    requires j < |s|
    ensures PrefixSum(s, j + 1) == s[0] + PrefixSum(s[1..], j)
  {
    if j > 0 {
      PrefixSumShift(s, j - 1);
    }
  }

  /** CellIndex is the least index whose cell ends at or after `p`. */
  lemma {:induction false} CellIndexIsLeast(sizes: seq<real>, p: real)
    ensures IsCellIndex(sizes, p, CellIndex(sizes, p))
  {
    if |sizes| > 0 && sizes[0] < p {
      var rest := sizes[1..];
      var i' := CellIndex(rest, p - sizes[0]);
      CellIndexIsLeast(rest, p - sizes[0]);
      forall j | 1 <= j <= i' + 1
        ensures PrefixSum(sizes, j) < p
      {
        PrefixSumShift(sizes, j - 1);
      }
      if i' + 1 < |sizes| {
        PrefixSumShift(sizes, i' + 1);
      }
    } else if |sizes| > 0 {
      PrefixSumShift(sizes, 0);
    }
  }

  /** The characterisation determines the index. */
  lemma CellIndexUnique(sizes: seq<real>, p: real, i: nat, k: nat)
    requires IsCellIndex(sizes, p, i) && IsCellIndex(sizes, p, k)
    ensures i == k
  {
  }

  lemma {:induction false} PrefixSumMonotone(sizes: seq<real>, j: nat, k: nat)
    requires NonNegative(sizes) && j <= k <= |sizes|
    ensures PrefixSum(sizes, j) <= PrefixSum(sizes, k)
  {
    if j < k {
      PrefixSumMonotone(sizes, j, k - 1);
    }
  }

  /** A pointer at or before the grid's start is over row (column) 0. */
  lemma CellIndexAtStart(sizes: seq<real>, p: real)
    requires NonNegative(sizes) && p <= 0.0
    ensures CellIndex(sizes, p) == 0
  {
  }

  /** A pointer past the total extent yields the row (column) count, one past
      the last index. */
  lemma CellIndexBeyondEnd(sizes: seq<real>, p: real)
    requires NonNegative(sizes) && p > PrefixSum(sizes, |sizes|)
    ensures CellIndex(sizes, p) == |sizes|
  {
    var i := CellIndex(sizes, p);
    CellIndexIsLeast(sizes, p);
    if i < |sizes| {
      PrefixSumMonotone(sizes, i + 1, |sizes|);
    }
  }

  /** A pointer inside the grid's extent lies inside the returned cell. */
  lemma CellIndexWithinExtent(sizes: seq<real>, p: real)
    requires NonNegative(sizes) && 0.0 < p <= PrefixSum(sizes, |sizes|)
    ensures CellIndex(sizes, p) < |sizes|
    ensures PrefixSum(sizes, CellIndex(sizes, p)) < p <= PrefixSum(sizes, CellIndex(sizes, p) + 1)
  {
    CellIndexIsLeast(sizes, p);
  }

  /** Moving the pointer further never yields an earlier cell. */
  lemma {:induction false} CellIndexMonotone(sizes: seq<real>, p: real, q: real)
    requires p <= q
    ensures CellIndex(sizes, p) <= CellIndex(sizes, q)
  {
    if |sizes| > 0 && sizes[0] < p {
      CellIndexMonotone(sizes[1..], p - sizes[0], q - sizes[0]);
    }
  }

  /** One of the two loops of GetPosition: accumulate sizes until the sum
      reaches the pointer coordinate, counting the cells passed. */
  method AxisCell(sizes: seq<real>, p: real) returns (index: nat)
    ensures index == CellIndex(sizes, p)
  {
    index := 0;
    var accumulated := 0.0;
    while index < |sizes|
      invariant index <= |sizes|
      invariant accumulated == PrefixSum(sizes, index)
      invariant forall j :: 1 <= j <= index ==> PrefixSum(sizes, j) < p
    {
      accumulated := accumulated + sizes[index];
      if accumulated >= p {
        break;
      }
      index := index + 1;
    }
    CellIndexIsLeast(sizes, p);
    CellIndexUnique(sizes, p, index, CellIndex(sizes, p));
  }
}
