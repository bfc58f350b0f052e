/**
 * Unique-string counting (CMPSC450_HW2/uniq_str.cc).
 *
 * The file is one byte buffer; main turns every newline into a NUL, the
 * find_uniq_* drivers split the buffer into string start offsets B, sort B
 * with a strcmp-based comparator, and count runs of equal strings.  The
 * sort itself is the library's; its result is taken as the precondition
 * SortedPtrs.
 */
module UniqStr {
  import opened CStrings

  // ---------------------------------------------------------------------
  // Comparators
  // ---------------------------------------------------------------------

  /** qs_cmpf: strcmp of the two pointed-to strings, for C qsort. */
  function QsCmpf(u: seq<byte>, v: seq<byte>): (c: int)
    ensures c < 0 <==> LexLess(CStr(u), CStr(v))
    ensures c == 0 <==> CStr(u) == CStr(v)
    ensures c > 0 <==> LexLess(CStr(v), CStr(u))
  {
    StrcmpLess(u, v);
    StrcmpLess(v, u);
    StrcmpZero(u, v);
    StrcmpAntisymmetric(u, v);
    Strcmp(u, v)
  }

  /** inline_qs_cmpf: strcmp(a, b) < 0, for the QSORT macro. */
  function InlineQsCmpf(a: seq<byte>, b: seq<byte>): (lt: bool)
    ensures lt <==> LexLess(CStr(a), CStr(b))
  {
    StrcmpLess(a, b);
    Strcmp(a, b) < 0
  }

  /** compare_str_cmpf::operator(): true exactly when strcmp(u, v) < 0, for std::sort. */
  function CompareStrCmpf(u: seq<byte>, v: seq<byte>): (lt: bool)
    ensures lt <==> LexLess(CStr(u), CStr(v))
  {
    StrcmpLess(u, v);
    var cmpval := Strcmp(u, v);
    if cmpval < 0 then true else false
  }

  // ---------------------------------------------------------------------
  // main: newline replacement
  // ---------------------------------------------------------------------

  /** Number of occurrences of c in s. */
  function Count(s: seq<byte>, c: byte): nat
  {
    if |s| == 0 then 0 else Count(s[..|s| - 1], c) + (if s[|s| - 1] == c then 1 else 0)
  }

  /** The buffer after every newline became a string delimiter. */
  function ReplaceLF(s: seq<byte>): (r: seq<byte>)
  {
    seq(|s|, i requires 0 <= i < |s| => if s[i] == LF then NUL else s[i])
  }

  /** main's loop at the end of file loading: '\n' becomes '\0', counting strings. */
  method ReplaceNewlines(str: array<byte>) returns (numStringsInFile: nat)
    modifies str
    ensures str[..] == ReplaceLF(old(str[..]))
    ensures numStringsInFile == Count(old(str[..]), LF)
  {
    ghost var orig := str[..];
    numStringsInFile := 0;
    for i := 0 to str.Length
      invariant str[..i] == ReplaceLF(orig[..i]) && str[i..] == orig[i..]
      invariant numStringsInFile == Count(orig[..i], LF)
    {
      assert orig[..i + 1][..i] == orig[..i];
      if str[i] == LF {
        str[i] := NUL;
        numStringsInFile := numStringsInFile + 1;
      }
      assert str[i..][1..] == str[i + 1..];
    }
    assert orig[..str.Length] == orig;
  }

  /** After the replacement no newline is left, and every newline added one NUL. */
  lemma {:induction false} ReplaceLFCounts(s: seq<byte>)
    ensures Count(ReplaceLF(s), LF) == 0
    ensures Count(ReplaceLF(s), NUL) == Count(s, NUL) + Count(s, LF)
  {
    if |s| > 0 {
      var m := |s| - 1;
      assert ReplaceLF(s)[..m] == ReplaceLF(s[..m]);
      ReplaceLFCounts(s[..m]);
    }
  }

  // ---------------------------------------------------------------------
  // Splitting the buffer into string start offsets
  // ---------------------------------------------------------------------

  /** B[0] = 0, then i + 1 for every NUL at a position i < m, in increasing order. */
  function Starts(s: seq<byte>, m: nat): seq<int>
    requires m <= |s|
  {
    if m == 0 then [0] else Starts(s, m - 1) + (if s[m - 1] == NUL then [m] else [])
  }

  /** The split loop scans the positions i < str_array_size - 1. */
  function SplitLimit(size: nat): nat
  {
    if size >= 1 then size - 1 else 0
  }

  /** The split loop shared by the find_uniq_* drivers; the result is its final j. */
  method SplitStrings(str: seq<byte>, B: array<int>) returns (j: int)
    requires B.Length >= |Starts(str, SplitLimit(|str|))|
    modifies B
    ensures j == |Starts(str, SplitLimit(|str|))|
    ensures B[..j] == Starts(str, SplitLimit(|str|))
    ensures B[j..] == old(B[j..])
  {
    ghost var limit := SplitLimit(|str|);
    StartsGrow(str, 0, limit);
    B[0] := 0;
    j := 1;
    var i := 0;
    while i < |str| - 1
      invariant 0 <= i <= limit
      invariant j == |Starts(str, i)| <= |Starts(str, limit)| <= B.Length
      invariant forall x :: 0 <= x < j ==> B[x] == Starts(str, i)[x]
      invariant forall x :: j <= x < B.Length ==> B[x] == old(B[x])
    {
      StartsGrow(str, i + 1, limit);
      if str[i] == NUL {
        B[j] := i + 1;
        j := j + 1;
      }
      i := i + 1;
    }
    assert B[..j] == Starts(str, limit);
  }

  lemma {:induction false} StartsGrow(s: seq<byte>, m: nat, m': nat)
    requires m <= m' <= |s|
    ensures |Starts(s, m)| <= |Starts(s, m')|
  {
    if m < m' {
      StartsGrow(s, m, m' - 1);
    }
  }

  /** The final j is 1 + the number of NULs among the scanned positions. */
  lemma {:induction false} StartsLength(s: seq<byte>, m: nat)
    requires m <= |s|
    ensures |Starts(s, m)| == 1 + Count(s[..m], NUL)
  {
    if m > 0 {
      assert s[..m][..m - 1] == s[..m - 1];
      StartsLength(s, m - 1);
    }
  }

  /** An offset is split off exactly when it is 0 or follows a scanned NUL. */
  lemma {:induction false} StartsMembers(s: seq<byte>, m: nat, x: int)
    requires m <= |s|
    ensures x in Starts(s, m) <==> x == 0 || (1 <= x <= m && s[x - 1] == NUL)
  {
    if m > 0 {
      StartsMembers(s, m - 1, x);
    }
  }

  /** The offsets are strictly increasing and at most m. */
  lemma {:induction false} StartsIncreasing(s: seq<byte>, m: nat)
    requires m <= |s|
    ensures forall a, b :: 0 <= a < b < |Starts(s, m)| ==> Starts(s, m)[a] < Starts(s, m)[b]
    ensures forall a :: 0 <= a < |Starts(s, m)| ==> 0 <= Starts(s, m)[a] <= m
  {
    if m > 0 {
      StartsIncreasing(s, m - 1);
    }
  }

  /**
   * After main's rewrite the split finds one string for every newline and
   * every NUL before the last byte, plus one.
   */
  lemma SplitCount(s: seq<byte>)
    requires |s| >= 1
    ensures |Starts(ReplaceLF(s), |s| - 1)| == 1 + Count(s[..|s| - 1], LF) + Count(s[..|s| - 1], NUL)
  {
    var m := |s| - 1;
    StartsLength(ReplaceLF(s), m);
    assert ReplaceLF(s)[..m] == ReplaceLF(s[..m]);
    ReplaceLFCounts(s[..m]);
  }

  /**
   * The assertion j == num_strings, with num_strings the newline count, holds
   * exactly for a file that ends in a newline and has no NUL before its last byte.
   */
  lemma FileLinesAreStrings(s: seq<byte>)
    requires |s| >= 1
    ensures |Starts(ReplaceLF(s), |s| - 1)| == Count(s, LF) <==>
            s[|s| - 1] == LF && Count(s[..|s| - 1], NUL) == 0
  {
    SplitCount(s);
  }

  /**
   * Any other file makes the split find more starts than B's num_strings
   * entries, so the loop writes past the end of B before the assertion.
   */
  lemma SplitOverrun(s: seq<byte>)
    requires |s| >= 1 && !(s[|s| - 1] == LF && Count(s[..|s| - 1], NUL) == 0)
    ensures |Starts(ReplaceLF(s), |s| - 1)| > Count(s, LF)
  {
    SplitCount(s);
  }

  /** The file "a\nb", without a final newline: one newline, two strings. */
  lemma NoTrailingNewline()
    ensures var s: seq<byte> := [97, LF, 98];
      Count(s, LF) == 1 && |Starts(ReplaceLF(s), |s| - 1)| == 2
  {
    var s: seq<byte> := [97, LF, 98];
    SplitCount(s);
    assert s[..2] == [97, LF] && [97, LF][..1] == [97] && [97][..0] == [];
  }

  // ---------------------------------------------------------------------
  // The pointer array, its strings, and sortedness
  // ---------------------------------------------------------------------

  ghost predicate ValidPtrs(buf: seq<byte>, B: seq<int>)
  {
    forall i :: 0 <= i < |B| ==> 0 <= B[i] <= |buf|
  }

  /** The strings B points to, in B's order. */
  function Keys(buf: seq<byte>, B: seq<int>): (ks: seq<seq<byte>>)
    requires ValidPtrs(buf, B)
    ensures |ks| == |B|
  {
    seq(|B|, i requires 0 <= i < |B| => CStr(buf[B[i]..]))
  }

  /** What qsort / QSORT / std::sort establish with the comparators above. */
  ghost predicate SortedPtrs(buf: seq<byte>, B: seq<int>)
    requires ValidPtrs(buf, B)
  {
    forall i, j :: 0 <= i < j < |B| ==> Strcmp(buf[B[i]..], buf[B[j]..]) <= 0
  }

  ghost predicate KeysSorted(ks: seq<seq<byte>>)
  {
    forall i, j :: 0 <= i < j < |ks| ==> LexCmp(ks[i], ks[j]) <= 0
  }

  /** The distinct strings of a sequence. */
  ghost function Distinct(ks: seq<seq<byte>>): set<seq<byte>>
  {
    set x | x in ks
  }

  // ---------------------------------------------------------------------
  // Run-length counting over the sorted pointer array
  // ---------------------------------------------------------------------

  /** Length of the run of equal strings that ends at index i. */
  function RunLen(ks: seq<seq<byte>>, i: nat): (len: nat)
    requires i < |ks|
    ensures 1 <= len <= i + 1
  {
    if i == 0 || ks[i] != ks[i - 1] then 1 else RunLen(ks, i - 1) + 1
  }

  /** Index i is the last of its run. */
  predicate RunEnd(ks: seq<seq<byte>>, i: nat)
    requires i < |ks|
  {
    i == |ks| - 1 || ks[i] != ks[i + 1]
  }

  /** The counts array the run pass leaves after the zeroing loop. */
  function RunCounts(ks: seq<seq<byte>>): seq<int>
  {
    seq(|ks|, i requires 0 <= i < |ks| => if RunEnd(ks, i) then RunLen(ks, i) else 0)
  }

  /** Number of indices i in [1, m) where a new string starts. */
  function Boundaries(ks: seq<seq<byte>>, m: nat): nat
    requires 1 <= m <= |ks|
  {
    if m == 1 then 0 else Boundaries(ks, m - 1) + (if ks[m - 1] != ks[m - 2] then 1 else 0)
  }

  function SumTo(s: seq<int>, m: nat): int
    requires m <= |s|
  {
    if m == 0 then 0 else SumTo(s, m - 1) + s[m - 1]
  }

  /** In a sorted sequence equal strings are adjacent, so runs are the distinct strings. */
  lemma {:induction false} DistinctOfSorted(ks: seq<seq<byte>>, m: nat)
    requires RunsContiguous(ks) && 1 <= m <= |ks|
    ensures |Distinct(ks[..m])| == 1 + Boundaries(ks, m)
  {
    if m == 1 {
      assert Distinct(ks[..1]) == {ks[0]};
    } else {
      DistinctOfSorted(ks, m - 1);
      var x := ks[m - 1];
      assert ks[..m] == ks[..m - 1] + [x];
      DistinctSnoc(ks[..m - 1], x);
      var d := Distinct(ks[..m - 1]);
      if x != ks[m - 2] {
        assert x !in ks[..m - 1];
        assert x !in d;
        assert |d + {x}| == |d| + 1;
      } else {
        assert ks[..m - 1][m - 2] == x;
        assert x in d;
        assert d + {x} == d;
      }
    }
  }

  lemma DistinctSnoc(s: seq<seq<byte>>, x: seq<byte>)
    ensures Distinct(s + [x]) == Distinct(s) + {x}
  {
    assert forall y :: y in s + [x] <==> y in s || y == x;
  }

  /** Every key that differs from its predecessor occurs nowhere earlier. */
  ghost predicate RunsContiguous(ks: seq<seq<byte>>)
  {
    forall i :: 1 <= i < |ks| && ks[i] != ks[i - 1] ==> ks[i] !in ks[..i]
  }

  /** Sorted keys form contiguous runs. */
  lemma SortedRunsContiguous(ks: seq<seq<byte>>)
    requires KeysSorted(ks)
    ensures RunsContiguous(ks)
  {
    forall i | 1 <= i < |ks| && ks[i] != ks[i - 1]
      ensures ks[i] !in ks[..i]
    {
      LaterKeyIsNew(ks, i + 1);
    }
  }

  /** In sorted keys, a key that differs from its predecessor occurs nowhere earlier. */
  lemma LaterKeyIsNew(ks: seq<seq<byte>>, m: nat)
    requires KeysSorted(ks) && 2 <= m <= |ks| && ks[m - 1] != ks[m - 2]
    ensures ks[m - 1] !in ks[..m - 1]
  {
    var x := ks[m - 1];
    if x in ks[..m - 1] {
      var p :| 0 <= p < m - 1 && ks[p] == x;
      assert LexCmp(ks[p], ks[m - 2]) <= 0 && LexCmp(ks[m - 2], ks[m - 1]) <= 0;
      LexCmpAntisymmetric(ks[m - 2], x);
      LexCmpZero(ks[m - 2], x);
    }
  }

  /** With contiguous runs, the run ending at i counts the occurrences of ks[i] so far. */
  lemma {:induction false} RunLenPrefix(ks: seq<seq<byte>>, i: nat)
    requires RunsContiguous(ks) && i < |ks|
    ensures RunLen(ks, i) == multiset(ks[..i + 1])[ks[i]]
  {
    assert ks[..i + 1] == ks[..i] + [ks[i]];
    if i > 0 {
      if ks[i] != ks[i - 1] {
        assert ks[i] !in ks[..i];
        assert multiset(ks[..i])[ks[i]] == 0;
      } else {
        RunLenPrefix(ks, i - 1);
      }
    }
  }

  /** With contiguous runs, the string that ends a run occurs nowhere after it. */
  lemma {:induction false} NoLaterOccurrence(ks: seq<seq<byte>>, i: nat, j: nat)
    requires RunsContiguous(ks) && i < j < |ks| && RunEnd(ks, i)
    ensures ks[j] != ks[i]
  {
    if j > i + 1 {
      NoLaterOccurrence(ks, i, j - 1);
      if ks[j] != ks[j - 1] {
        assert ks[..j][i] == ks[i];
      }
    }
  }

  /** The count stored at a run's end is the number of occurrences of its string. */
  lemma RunLenIsOccurrences(ks: seq<seq<byte>>, i: nat)
    requires RunsContiguous(ks) && i < |ks| && RunEnd(ks, i)
    ensures RunLen(ks, i) == multiset(ks)[ks[i]]
  {
    RunLenPrefix(ks, i);
    forall j | i < j < |ks|
      ensures ks[j] != ks[i]
    {
      NoLaterOccurrence(ks, i, j);
    }
    assert ks[i] !in ks[i + 1..];
    assert ks == ks[..i + 1] + ks[i + 1..];
  }

  /** Every run end carries its run's length, so the counts add up to num_strings. */
  lemma {:induction false} RunCountsSum(ks: seq<seq<byte>>, m: nat)
    requires 1 <= m <= |ks|
    ensures SumTo(RunCounts(ks), m - 1) + RunLen(ks, m - 1) == m
    ensures m == |ks| ==> SumTo(RunCounts(ks), m) == m
  {
    if m > 1 {
      RunCountsSum(ks, m - 1);
    }
  }

  /** The zeroing loop before the sort. */
  method ZeroCounts(counts: array<int>, n: nat)
    requires n <= counts.Length
    modifies counts
    ensures forall i :: 0 <= i < n ==> counts[i] == 0
    ensures forall i :: n <= i < counts.Length ==> counts[i] == old(counts[i])
  {
    for i := 0 to n
      invariant forall x :: 0 <= x < i ==> counts[x] == 0
      invariant forall x :: i <= x < counts.Length ==> counts[x] == old(counts[x])
    {
      counts[i] := 0;
    }
  }

  /** strcmp(B[i], B[i-1]) != 0 exactly when the two strings differ. */
  lemma AdjacentKeys(buf: seq<byte>, B: seq<int>, i: nat)
    requires ValidPtrs(buf, B) && 1 <= i < |B|
    ensures Strcmp(buf[B[i]..], buf[B[i - 1]..]) != 0 <==> Keys(buf, B)[i] != Keys(buf, B)[i - 1]
  {
    StrcmpZero(buf[B[i]..], buf[B[i - 1]..]);
  }

  /** For every adjacent pair of B, strcmp's verdict agrees with comparing the keys ks. */
  ghost predicate AdjacentAgree(buf: seq<byte>, B: seq<int>, ks: seq<seq<byte>>)
    requires ValidPtrs(buf, B)
  {
    |ks| == |B| &&
    forall i :: 1 <= i < |B| ==> (Strcmp(buf[B[i]..], buf[B[i - 1]..]) != 0 <==> ks[i] != ks[i - 1])
  }

  lemma AdjacentKeysAll(buf: seq<byte>, B: seq<int>)
    requires ValidPtrs(buf, B)
    ensures AdjacentAgree(buf, B, Keys(buf, B))
  {
    forall i | 1 <= i < |B|
      ensures Strcmp(buf[B[i]..], buf[B[i - 1]..]) != 0 <==> Keys(buf, B)[i] != Keys(buf, B)[i - 1]
    {
      AdjacentKeys(buf, B, i);
    }
  }

  /**
   * The run-length pass: counts[i] receives the run length at the last index
   * i of every run (other entries keep their value), and num_uniq_strings is
   * one plus the number of boundaries, which for sorted B is the number of
   * distinct strings.
   */
  method CountRuns(buf: seq<byte>, B: seq<int>, counts: array<int>) returns (numUniq: int)
    requires ValidPtrs(buf, B) && |B| >= 1 && |B| <= counts.Length
    modifies counts
    ensures numUniq == 1 + Boundaries(Keys(buf, B), |B|)
    ensures SortedPtrs(buf, B) ==> numUniq == |Distinct(Keys(buf, B))|
    ensures var ks := Keys(buf, B);
      forall i :: 0 <= i < |B| ==> counts[i] == if RunEnd(ks, i) then RunLen(ks, i) else old(counts[i])
    ensures forall i :: |B| <= i < counts.Length ==> counts[i] == old(counts[i])
  {
    ghost var ks := Keys(buf, B);
    var n := |B|;
    var occurrences;
    AdjacentKeysAll(buf, B);
    numUniq, occurrences := RunPass(buf, B, counts, ks);
    counts[n - 1] := occurrences;
    SortedRunsDistinct(buf, B);
  }

  /**
   * The loop of the run-length pass, over i in [1, num_strings): it stores
   * the length of every run that ends before the last string and returns
   * the length of the last run.
   */
  method RunPass(buf: seq<byte>, B: seq<int>, counts: array<int>, ghost ks: seq<seq<byte>>)
    returns (numUniq: int, occurrences: int)
    requires ValidPtrs(buf, B) && |B| >= 1 && |B| <= counts.Length && AdjacentAgree(buf, B, ks)
    modifies counts
    ensures numUniq == 1 + Boundaries(ks, |B|)
    ensures occurrences == RunLen(ks, |B| - 1)
    ensures forall x :: 0 <= x < |B| - 1 ==> counts[x] == if RunEnd(ks, x) then RunLen(ks, x) else old(counts[x])
    ensures forall x :: |B| - 1 <= x < counts.Length ==> counts[x] == old(counts[x])
  {
    var n := |B|;
    numUniq := 1;
    occurrences := 1;
    var i := 1;
    while i < n
      invariant 1 <= i <= n
      invariant numUniq == 1 + Boundaries(ks, i)
      invariant occurrences == RunLen(ks, i - 1)
      invariant forall x :: 0 <= x < i - 1 ==> counts[x] == if RunEnd(ks, x) then RunLen(ks, x) else old(counts[x])
      invariant forall x :: i - 1 <= x < counts.Length ==> counts[x] == old(counts[x])
    {
      RunStep(ks, i);
      if Strcmp(buf[B[i]..], buf[B[i - 1]..]) != 0 {
        numUniq := numUniq + 1;
        counts[i - 1] := occurrences;
        occurrences := 1;
      } else {
        occurrences := occurrences + 1;
      }
      i := i + 1;
    }
  }

  /** How index i extends the runs of ks[..i]. */
  lemma RunStep(ks: seq<seq<byte>>, i: nat)
    requires 1 <= i < |ks|
    ensures ks[i] != ks[i - 1] ==> RunEnd(ks, i - 1) && RunLen(ks, i) == 1 && Boundaries(ks, i + 1) == Boundaries(ks, i) + 1
    ensures ks[i] == ks[i - 1] ==> !RunEnd(ks, i - 1) && RunLen(ks, i) == RunLen(ks, i - 1) + 1 && Boundaries(ks, i + 1) == Boundaries(ks, i)
  {
  }

  /** For sorted B, one plus the number of run boundaries is the number of distinct strings. */
  lemma SortedRunsDistinct(buf: seq<byte>, B: seq<int>)
    requires ValidPtrs(buf, B) && |B| >= 1
    ensures SortedPtrs(buf, B) ==> 1 + Boundaries(Keys(buf, B), |B|) == |Distinct(Keys(buf, B))|
  {
    var ks := Keys(buf, B);
    if SortedPtrs(buf, B) {
      assert KeysSorted(ks);
      SortedRunsContiguous(ks);
      DistinctOfSorted(ks, |B|);
      assert ks[..|B|] == ks;
    }
  }

  /**
   * The incomplete correctness check: ok exactly when every adjacent pair is
   * in order (strcmp(B[i], B[i-1]) >= 0) and the counts add up to num_strings.
   */
  method CorrectnessCheck(buf: seq<byte>, B: seq<int>, counts: array<int>) returns (ok: bool, total: int)
    requires ValidPtrs(buf, B) && |B| >= 1 && |B| <= counts.Length
    ensures total == SumTo(counts[..], |B|)
    ensures ok <==> (forall i :: 1 <= i < |B| ==> Strcmp(buf[B[i]..], buf[B[i - 1]..]) >= 0) && total == |B|
  {
    var sortedOk := true;
    total := counts[0];
    var i := 1;
    while i < |B|
      invariant 1 <= i <= |B|
      invariant total == SumTo(counts[..], i)
      invariant sortedOk <==> forall x :: 1 <= x < i ==> Strcmp(buf[B[x]..], buf[B[x - 1]..]) >= 0
    {
      sortedOk := sortedOk && Strcmp(buf[B[i]..], buf[B[i - 1]..]) >= 0;
      total := total + counts[i];
      i := i + 1;
    }
    ok := sortedOk && total == |B|;
  }

  /** Sorted pointer arrays pass the adjacent-order assertions. */
  lemma SortedAdjacent(buf: seq<byte>, B: seq<int>)
    requires ValidPtrs(buf, B) && SortedPtrs(buf, B)
    ensures forall i :: 1 <= i < |B| ==> Strcmp(buf[B[i]..], buf[B[i - 1]..]) >= 0
  {
    forall i | 1 <= i < |B|
      ensures Strcmp(buf[B[i]..], buf[B[i - 1]..]) >= 0
    {
      StrcmpAntisymmetric(buf[B[i]..], buf[B[i - 1]..]);
    }
  }

  /**
   * The common part of find_uniq_qsort, find_uniq_inline_qsort and
   * find_uniq_stl_sort after the sort: zero, count runs, check.  Both
   * assertions of the check hold, counts is RunCounts of the sorted strings
   * and num_uniq_strings is the number of distinct strings.
   */
  method FindUniqSorted(buf: seq<byte>, B: seq<int>, counts: array<int>) returns (numUniq: int, ok: bool)
    requires ValidPtrs(buf, B) && SortedPtrs(buf, B) && |B| >= 1 && |B| <= counts.Length
    modifies counts
    ensures ok
    ensures numUniq == |Distinct(Keys(buf, B))|
    ensures counts[..|B|] == RunCounts(Keys(buf, B))
    ensures forall i :: 0 <= i < |B| && RunEnd(Keys(buf, B), i) ==>
              counts[i] == multiset(Keys(buf, B))[Keys(buf, B)[i]]
  {
    ZeroCounts(counts, |B|);
    numUniq := CountRuns(buf, B, counts);
    ghost var ks := Keys(buf, B);
    assert counts[..|B|] == RunCounts(ks);
    SumPrefix(counts[..], RunCounts(ks), |B|);
    RunCountsSum(ks, |B|);
    SortedAdjacent(buf, B);
    var total;
    ok, total := CorrectnessCheck(buf, B, counts);
    assert KeysSorted(ks);
    SortedRunsContiguous(ks);
    forall i | 0 <= i < |B| && RunEnd(ks, i)
      ensures counts[i] == multiset(ks)[ks[i]]
    {
      assert counts[i] == counts[..|B|][i];
      RunLenIsOccurrences(ks, i);
    }
  }

  lemma {:induction false} SumPrefix(s: seq<int>, t: seq<int>, m: nat)
    requires m <= |s| && m <= |t| && s[..m] == t[..m]
    ensures SumTo(s, m) == SumTo(t, m)
  {
    if m > 0 {
      assert s[m - 1] == s[..m][m - 1] && t[m - 1] == t[..m][m - 1];
      assert s[..m - 1] == s[..m][..m - 1] && t[..m - 1] == t[..m][..m - 1];
      SumPrefix(s, t, m - 1);
    }
  }

  // ---------------------------------------------------------------------
  // The std::map variant
  // ---------------------------------------------------------------------

  /**
   * find_uniq_stl_map's loop: str_map[std::string(B[i])]++ for every i.
   * Afterwards every string maps to its number of occurrences and the map
   * has one entry per distinct string.
   */
  method CountWithMap(buf: seq<byte>, B: seq<int>) returns (strMap: map<seq<byte>, int>)
    requires ValidPtrs(buf, B)
    ensures strMap.Keys == Distinct(Keys(buf, B))
    ensures forall s :: s in strMap ==> strMap[s] == multiset(Keys(buf, B))[s]
    ensures |strMap| == |Distinct(Keys(buf, B))|
  {
    ghost var ks := Keys(buf, B);
    strMap := map[];
    for i := 0 to |B|
      invariant forall s :: s in strMap <==> s in ks[..i]
      invariant forall s :: s in strMap ==> strMap[s] == multiset(ks[..i])[s]
    {
      var currStr := CStr(buf[B[i]..]);
      assert ks[..i + 1] == ks[..i] + [currStr];
      strMap := strMap[currStr := (if currStr in strMap then strMap[currStr] else 0) + 1];
    }
    assert ks[..|B|] == ks;
    assert strMap.Keys == Distinct(ks);
  }
}
