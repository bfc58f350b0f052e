/**
 * Integer sort helpers of CMPSC450_HW2/flt_val_sort.c, modelled as
 * written: the comparators, copyArray, merge (whose two cursors both start
 * at 0), mergesort (whose guard begin - end < 2 returns at once for every
 * range with begin <= end) and the input generators.
 */
module FltValSort {

  // ---------------------------------------------------------------------
  // Comparators
  // ---------------------------------------------------------------------

  /** qs_cmpf: three-way comparison of two int32_t values. */
  function QsCmpf(u: int, v: int): (c: int)
    ensures c == 1 <==> u > v
    ensures c == -1 <==> u < v
    ensures c == 0 <==> u == v
  {
    if u > v then 1 else if u < v then -1 else 0
  }

  /** qs_cmpf is antisymmetric. */
  lemma QsCmpfAntisymmetric(u: int, v: int)
    ensures QsCmpf(u, v) == -QsCmpf(v, u)
  {
  }

  /** inline_qs_cmpf(a, b): (*a) < (*b), the strict order that qs_cmpf reports as -1. */
  function InlineQsCmpf(a: int, b: int): (lt: bool)
    ensures lt <==> QsCmpf(a, b) < 0
  {
    a < b
  }

  // ---------------------------------------------------------------------
  // copyArray
  // ---------------------------------------------------------------------

  /**
   * copyArray(A, B, begin, end): B[i] = A[i] for every i in [0, end);
   * begin is ignored, and nothing else is written.
   */
  method CopyArray(A: array<int>, B: array<int>, begin: int, end: int)
    requires end <= A.Length && end <= B.Length
    modifies B
    ensures forall i :: 0 <= i < end ==> B[i] == old(A[i])
    ensures forall i :: 0 <= i < B.Length && i >= end ==> B[i] == old(B[i])
  {
    var i := 0;
    while i < end
      invariant 0 <= i <= (if end >= 0 then end else 0)
      invariant forall x :: 0 <= x < i ==> B[x] == old(A[x])
      invariant forall x :: i <= x < B.Length ==> B[x] == old(B[x])
      invariant forall x :: i <= x < A.Length ==> A[x] == old(A[x])
    {
      B[i] := A[i];
      i := i + 1;
    }
  }

  // ---------------------------------------------------------------------
  // merge, as written
  // ---------------------------------------------------------------------

  /** The test of merge's loop: take A[j] when j < mid and (A[j] < A[k] or k >= end). */
  function TakesLeft(a: seq<int>, mid: int, end: int, j: nat, k: nat): bool
    requires j < |a| && k < |a|
  {
    j < mid && (a[j] < a[k] || k >= end)
  }

  /**
   * The cursor j after t iterations of merge's loop; the other cursor is
   * then k == t - j, since each iteration advances exactly one of them.
   */
  function LeftCursor(a: seq<int>, mid: int, end: int, t: nat): (j: nat)
    requires t <= |a|
    ensures j <= t
  {
    if t == 0 then 0
    else
      var j := LeftCursor(a, mid, end, t - 1);
      if TakesLeft(a, mid, end, j, t - 1 - j) then j + 1 else j
  }

  /** The value merge writes in iteration t, that is into B[begin + t]. */
  function MergeAt(a: seq<int>, mid: int, end: int, t: nat): int
    requires t < |a|
  {
    var j := LeftCursor(a, mid, end, t);
    if TakesLeft(a, mid, end, j, t - j) then a[j] else a[t - j]
  }

  /**
   * Every value merge writes in iteration t is A[j] or A[k] for its two
   * cursors, and both lie in [0, t]: for t < end - begin, k stays below end.
   */
  lemma MergeAtFromInput(a: seq<int>, mid: int, end: int, t: nat)
    requires t < |a|
    ensures exists j :: 0 <= j <= t && MergeAt(a, mid, end, t) in {a[j], a[t - j]}
  {
    var j := LeftCursor(a, mid, end, t);
    assert MergeAt(a, mid, end, t) in {a[j], a[t - j]};
  }

  /**
   * Both cursors start at 0, so when A[0] < A[1] and mid >= 1 the first two
   * values written are both A[0].
   */
  lemma MergeRepeatsFirst(a: seq<int>, mid: int, end: int)
    requires 2 <= |a| && mid >= 1 && end >= 2 && a[0] < a[1]
    ensures MergeAt(a, mid, end, 0) == a[0] && MergeAt(a, mid, end, 1) == a[0]
  {
    assert LeftCursor(a, mid, end, 1) == 0;
  }

  /** Merging the sorted halves [1] and [2] as written writes 1 twice and never 2. */
  lemma MergeLosesValues()
    ensures MergeAt([1, 2], 1, 2, 0) == 1 && MergeAt([1, 2], 1, 2, 1) == 1
  {
    MergeRepeatsFirst([1, 2], 1, 2);
  }

  /**
   * merge(A, B, begin, mid, end) as written: B[begin + t] receives
   * MergeAt(A, t) for every t < end - begin, with both cursors starting at
   * 0; nothing else is written.
   */
  method Merge(A: array<int>, B: array<int>, begin: int, mid: int, end: int)
    requires begin < end ==> 0 <= begin && end <= A.Length && end <= B.Length && A != B
    modifies B
    ensures forall t :: begin <= t < end ==> B[t] == MergeAt(old(A[..]), mid, end, t - begin)
    ensures forall x :: 0 <= x < B.Length && !(begin <= x < end) ==> B[x] == old(B[x])
  {
    if begin >= end {
      return;
    }
    ghost var a := A[..];
    var i, j, k := begin, 0, 0;
    while i < end
      invariant begin <= i <= end
      invariant j == LeftCursor(a, mid, end, i - begin) && k == i - begin - j
      invariant forall t :: begin <= t < i ==> B[t] == MergeAt(a, mid, end, t - begin)
      invariant forall x :: 0 <= x < B.Length && !(begin <= x < i) ==> B[x] == old(B[x])
    {
      if j < mid && (A[j] < A[k] || k >= end) {
        B[i] := A[j];
        j := j + 1;
      } else {
        B[i] := A[k];
        k := k + 1;
      }
      i := i + 1;
    }
  }

  // ---------------------------------------------------------------------
  // mergesort, as written
  // ---------------------------------------------------------------------

  /** C's (begin + end) / 2, which truncates toward zero. */
  function CDiv2(x: int): (q: int)
    ensures x >= 0 ==> 0 <= 2 * q <= x
    ensures x < 0 ==> x <= 2 * q <= 0
    ensures x - 1 <= 2 * q <= x + 1
  {
    if x >= 0 then x / 2 else -((-x) / 2)
  }

  /**
   * mergesort(A, B, begin, end) as written.  For begin - end < 2, which
   * includes every range with begin <= end, it changes nothing.  Otherwise
   * every nested merge has begin > end and writes nothing, and the copies
   * leave A[i] == B[i] for i < end, entries at or above begin untouched,
   * and every entry either unchanged or equal to B's.
   */
  method Mergesort(A: array<int>, B: array<int>, begin: int, end: int)
    requires begin - end >= 2 ==> begin <= A.Length && begin <= B.Length
    modifies A, B
    decreases begin - end
    ensures begin - end < 2 ==> A[..] == old(A[..])
    ensures B[..] == old(B[..])
    ensures begin - end >= 2 ==> forall x :: 0 <= x < end ==> A[x] == B[x]
    ensures forall x :: 0 <= x < A.Length && x >= begin ==> A[x] == old(A[x])
    ensures forall x :: 0 <= x < A.Length ==> A[x] == old(A[x]) || A[x] == B[x]
  {
    if begin - end < 2 {
      return;
    }
    var mid := CDiv2(begin + end);
    Mergesort(A, B, begin, mid);
    Mergesort(A, B, mid, end);
    Merge(A, B, begin, mid, end);
    CopyArray(B, A, begin, end);
  }

  // ---------------------------------------------------------------------
  // gen_input
  // ---------------------------------------------------------------------

  function Identity(n: nat): (s: seq<int>)
    ensures |s| == n
  {
    seq(n, i => i)
  }

  /** num_shuffles = (n / 100) + 1 for the almost-sorted input. */
  function NumShuffles(n: nat): nat
  {
    n / 100 + 1
  }

  /** tmpval = A[j]; A[j] = A[k]; A[k] = tmpval. */
  function Swap(s: seq<int>, j: nat, k: nat): (r: seq<int>)
    requires j < |s| && k < |s|
    ensures |r| == |s|
  {
    seq(|s|, i requires 0 <= i < |s| => if i == k then s[j] else if i == j then s[k] else s[i])
  }

  /** rand() % n for a draw d of rand(). */
  function RandMod(d: nat, n: nat): (r: nat)
    requires n > 0
    ensures r < n
  {
    d % n
  }

  /** s after the first m swaps of the almost-sorted generator, with j, k = rand() % n. */
  function Shuffle(s: seq<int>, draws: seq<nat>, m: nat): (r: seq<int>)
    requires |s| > 0 && 2 * m <= |draws|
    ensures |r| == |s|
  {
    if m == 0 then s
    else Swap(Shuffle(s, draws, m - 1), RandMod(draws[2 * (m - 1)], |s|), RandMod(draws[2 * (m - 1) + 1], |s|))
  }

  lemma SwapPermutation(s: seq<int>, j: nat, k: nat)
    requires j < |s| && k < |s|
    ensures multiset(Swap(s, j, k)) == multiset(s)
  {
    var t := s[j := s[k]];
    assert Swap(s, j, k) == t[k := s[j]];
    assert multiset(t) == multiset(s) - multiset{s[j]} + multiset{s[k]};
  }

  /** Any sequence of in-range swaps is a permutation. */
  lemma {:induction false} ShufflePermutation(s: seq<int>, draws: seq<nat>, m: nat)
    requires |s| > 0 && 2 * m <= |draws|
    ensures multiset(Shuffle(s, draws, m)) == multiset(s)
  {
    if m > 0 {
      var prev := Shuffle(s, draws, m - 1);
      ShufflePermutation(s, draws, m - 1);
      SwapPermutation(prev, RandMod(draws[2 * (m - 1)], |s|), RandMod(draws[2 * (m - 1) + 1], |s|));
    }
  }

  /** input_type 0: A[i] = rand() % 81. */
  method FillRandom(A: array<int>, n: int, draws: seq<nat>)
    requires 0 <= n <= A.Length && |draws| >= n
    modifies A
    ensures forall i :: 0 <= i < n ==> A[i] == draws[i] % 81 && 0 <= A[i] < 81
    ensures forall i :: n <= i < A.Length ==> A[i] == old(A[i])
  {
    for i := 0 to n
      invariant forall x :: 0 <= x < i ==> A[x] == draws[x] % 81
      invariant forall x :: n <= x < A.Length ==> A[x] == old(A[x])
    {
      A[i] := draws[i] % 81;
    }
  }

  /** input_type 1 (and the first loop of input_type 2): A[i] = i. */
  method FillSorted(A: array<int>, n: int)
    requires 0 <= n <= A.Length
    modifies A
    ensures A[..n] == Identity(n)
    ensures forall i :: n <= i < A.Length ==> A[i] == old(A[i])
  {
    for i := 0 to n
      invariant forall x :: 0 <= x < i ==> A[x] == x
      invariant forall x :: n <= x < A.Length ==> A[x] == old(A[x])
    {
      A[i] := i;
    }
    assert A[..n] == Identity(n);
  }

  /** Identity(n) is strictly increasing. */
  lemma IdentitySorted(n: nat)
    ensures forall i, j :: 0 <= i < j < n ==> Identity(n)[i] < Identity(n)[j]
  {
  }

  /** tmpval = A[j]; A[j] = A[k]; A[k] = tmpval, on an array whose first n entries are in use. */
  method SwapEntries(A: array<int>, n: int, j: int, k: int)
    requires 0 <= j < n && 0 <= k < n && n <= A.Length
    modifies A
    ensures A[..n] == Swap(old(A[..n]), j, k)
    ensures forall i :: n <= i < A.Length ==> A[i] == old(A[i])
  {
    var tmpval := A[j];
    A[j] := A[k];
    A[k] := tmpval;
    assert A[..n] == Swap(old(A[..n]), j, k);
  }

  /** The shuffle loop of input_type 2: num_shuffles swaps of A[rand() % n] and A[rand() % n]. */
  method ShuffleEntries(A: array<int>, n: int, draws: seq<nat>, numShuffles: nat)
    requires 0 < n <= A.Length && |draws| >= 2 * numShuffles
    modifies A
    ensures A[..n] == Shuffle(old(A[..n]), draws, numShuffles)
    ensures forall i :: n <= i < A.Length ==> A[i] == old(A[i])
  {
    ghost var start := A[..n];
    for i := 0 to numShuffles
      invariant A[..n] == Shuffle(start, draws, i)
      invariant forall x :: n <= x < A.Length ==> A[x] == old(A[x])
    {
      var j := RandMod(draws[2 * i], n);
      var k := RandMod(draws[2 * i + 1], n);
      SwapEntries(A, n, j, k);
    }
  }

  /** input_type 2: sorted, then n / 100 + 1 swaps. */
  method FillAlmostSorted(A: array<int>, n: int, draws: seq<nat>)
    requires 0 < n <= A.Length && |draws| >= 2 * NumShuffles(n)
    modifies A
    ensures A[..n] == Shuffle(Identity(n), draws, NumShuffles(n))
    ensures multiset(A[..n]) == multiset(Identity(n))
    ensures forall i :: n <= i < A.Length ==> A[i] == old(A[i])
  {
    FillSorted(A, n);
    ShuffleEntries(A, n, draws, NumShuffles(n));
    ShufflePermutation(Identity(n), draws, NumShuffles(n));
  }

  /** input_type 3: every entry is 1. */
  method FillConstant(A: array<int>, n: int)
    requires 0 <= n <= A.Length
    modifies A
    ensures forall i :: 0 <= i < n ==> A[i] == 1
    ensures forall i :: n <= i < A.Length ==> A[i] == old(A[i])
  {
    for i := 0 to n
      invariant forall x :: 0 <= x < i ==> A[x] == 1
      invariant forall x :: n <= x < A.Length ==> A[x] == old(A[x])
    {
      A[i] := 1;
    }
  }

  /** Any other input_type: A[i] = n + 1 - i, strictly decreasing. */
  method FillReversed(A: array<int>, n: int)
    requires 0 <= n <= A.Length
    modifies A
    ensures forall i :: 0 <= i < n ==> A[i] == n + 1 - i
    ensures forall i, j :: 0 <= i < j < n ==> A[i] > A[j]
    ensures forall i :: n <= i < A.Length ==> A[i] == old(A[i])
  {
    for i := 0 to n
      invariant forall x :: 0 <= x < i ==> A[x] == n + 1 - x
      invariant forall x :: n <= x < A.Length ==> A[x] == old(A[x])
    {
      A[i] := n + 1 - i;
    }
  }

  /**
   * gen_input(A, n, input_type).  The random numbers rand() would return
   * are the parameter draws; srand's seeding is not modelled.
   */
  method GenInput(A: array<int>, n: int, inputType: int, draws: seq<nat>)
    requires 0 <= n <= A.Length
    requires inputType == 0 ==> |draws| >= n
    requires inputType == 2 ==> n > 0 && |draws| >= 2 * NumShuffles(n)
    modifies A
    ensures inputType == 0 ==> forall i :: 0 <= i < n ==> A[i] == draws[i] % 81 && 0 <= A[i] < 81
    ensures inputType == 1 ==> A[..n] == Identity(n)
    ensures inputType == 1 ==> forall i, j :: 0 <= i < j < n ==> A[i] < A[j]
    ensures inputType == 2 ==> A[..n] == Shuffle(Identity(n), draws, NumShuffles(n))
    ensures inputType == 2 ==> multiset(A[..n]) == multiset(Identity(n))
    ensures inputType == 3 ==> forall i :: 0 <= i < n ==> A[i] == 1
    ensures !(0 <= inputType <= 3) ==> forall i :: 0 <= i < n ==> A[i] == n + 1 - i
    ensures !(0 <= inputType <= 3) ==> forall i, j :: 0 <= i < j < n ==> A[i] > A[j]
    ensures forall i :: n <= i < A.Length ==> A[i] == old(A[i])
  {
    if inputType == 0 {
      FillRandom(A, n, draws);
    } else if inputType == 1 {
      FillSorted(A, n);
      IdentitySorted(n);
      assert forall i :: 0 <= i < n ==> A[i] == A[..n][i];
    } else if inputType == 2 {
      FillAlmostSorted(A, n, draws);
    } else if inputType == 3 {
      FillConstant(A, n);
    } else {
      FillReversed(A, n);
    }
  }
}
