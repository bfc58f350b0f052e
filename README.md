# CMPSC450 homework cores in Dafny

This project models three programs from the CMPSC450 course repository and proves properties of them.

- **my_Allgather** (CMPSC450_HW3/my_Allgather.c). This is a recursive-doubling all-gather over `nprocs = 2^k` MPI ranks.
  - Each rank zeroes its receive buffer and copies its own contribution into its segment.
  - The loop then runs `k` rounds. In round `i` the rank pairs with `rank ^ (1<<i)`. The two ranks swap their `start` indices and their owned blocks of `2^i` segments, and each keeps the smaller `start`.
  - `main` contributes `rank + 1` from every rank. It compares the result with the library all-gather.
  - The model runs the whole group as one lock-step state machine. There is one `array<int>` receive buffer per rank and one `start` per rank. A round updates ranks one at a time. This gives the same result as the blocking simultaneous exchange, because the block a rank sends and the block it receives are disjoint.
- **uniq_str** (CMPSC450_HW2/uniq_str.cc). This counts the distinct lines of a file.
  - `main` turns every newline into a NUL.
  - The drivers split the buffer into string start offsets `B` and sort `B` with a `strcmp`-based comparator.
  - A run-length pass over the sorted `B` then writes `counts[]` and the number of unique strings, and a final check sums `counts`.
  - A map variant counts occurrences in a `std::map`.
  - `strcmp` is modelled as lexicographic comparison of NUL-terminated `byte` strings (module `CStrings`). The model returns -1, 0 or 1; C promises only the sign.
- **flt_val_sort** (CMPSC450_HW2/flt_val_sort.c). This covers the integer comparators, `copyArray`, `merge`, `mergesort` and the input generator `gen_input`.
  - `merge` and `mergesort` are modelled **as written**. `merge` starts both cursors `j` and `k` at 0, not at `begin` and `mid`. The guard of `mergesort` is `begin - end < 2`, which returns at once for every range with `begin <= end`.
  - The model states and proves what the code actually does: `merge` can repeat a value and lose another (`MergeLosesValues`), and `mergesort` changes nothing in the usual case.

`my_Allgather` does not check that `nprocs` is a power of two, so the model takes `nprocs == Pow2(k)` as a precondition.

## Model

| member | source | states |
|---|---|---|
| Allgather.Partner | CMPSC450_HW3/my_Allgather.c:42 | `rank ^ (1 << i)` as adding `2^i` when bit i is clear and subtracting it when bit i is set; PartnerFlipsBit proves it is the XOR |
| Allgather.BlockStart | CMPSC450_HW3/my_Allgather.c:33-48 | the start a rank holds at level i, recursively the rank with its low i bits cleared; it never exceeds the rank |
| Allgather.Flat | CMPSC450_HW3/my_Allgather.c:100 | the reference result of MPI_Allgather: the contributions concatenated in rank order |
| Allgather.InitRecvbuf | CMPSC450_HW3/my_Allgather.c:22-27 | after the zero loop and the memcpy, the rank's own segment `[rank*n, rank*n+n)` equals sendbuf and every other entry is 0 |
| Allgather.InitHolds | CMPSC450_HW3/my_Allgather.c:22-27 | that initial buffer holds exactly the rank's own segment of the rank-ordered concatenation, and 0 elsewhere (the round-0 loop invariant) |
| Allgather.PartnerInvolution | CMPSC450_HW3/my_Allgather.c:42 | the partner `rank ^ (1<<i)` differs from rank, and its own partner is rank |
| Allgather.PartnerInRange | CMPSC450_HW3/my_Allgather.c:42 | for `rank < 2^k` and `i < k`, the partner lies in `[0, 2^k)` |
| Allgather.PartnerFlipsBit | CMPSC450_HW3/my_Allgather.c:42 | the partner differs from rank in bit i and agrees with it in every other bit, so it is the XOR `rank ^ (1<<i)` |
| Allgather.BitClearBound | CMPSC450_HW3/my_Allgather.c:42 | setting a clear bit i of a rank below `2^k` stays below `2^k` |
| Allgather.BlockStartRoundsDown | CMPSC450_HW3/my_Allgather.c:33-48 | the start kept at level i is `rank - rank % 2^i`, the rank with its low i bits cleared |
| Allgather.BlockStartBounds | CMPSC450_HW3/my_Allgather.c:33-48 | the rank lies inside its own block `[start, start + 2^i)` |
| Allgather.BlockInGroup | CMPSC450_HW3/my_Allgather.c:44-45 | each block of `2^i` segments lies inside the group of `2^k` ranks |
| Allgather.PartnerBlockStart | CMPSC450_HW3/my_Allgather.c:44-45 | the partner's block starts right after the rank's block when bit i is 0, and right before it when bit i is 1 (the blocks are adjacent) |
| Allgather.BlockStartNext | CMPSC450_HW3/my_Allgather.c:47-48 | the next level's start is the current start or the current start minus `2^i`, so start never increases |
| Allgather.BlockStartFinal | CMPSC450_HW3/my_Allgather.c:30-48 | after all k rounds every start is 0 |
| Allgather.ExchangeBlocks | CMPSC450_HW3/my_Allgather.c:44-48 | the received start2 is the partner's block start; the sent and received blocks are adjacent, disjoint and inside `[0, n*nprocs)`; `min(start, start2)` is the next round's start and is at most start |
| Allgather.FlatSegment | CMPSC450_HW3/my_Allgather.c:100 | entry `j*n + t` of the rank-ordered concatenation is entry t of rank j's contribution |
| Allgather.ReceiveHolds | CMPSC450_HW3/my_Allgather.c:45-48 | a buffer holding its `P`-segment block, after the adjacent partner block is received, holds the merged `2P`-segment block from `min(start, start2)` and is still 0 elsewhere |
| Allgather.ReceiveBlock | CMPSC450_HW3/my_Allgather.c:45 | the block receive writes exactly `[lo, hi)` with the partner's values and leaves every other entry unchanged |
| Allgather.ExchangeWith | CMPSC450_HW3/my_Allgather.c:39-48 | one rank's round: the returned start is the next level's block start, and the buffer now holds the doubled block |
| Allgather.ExchangeStep | CMPSC450_HW3/my_Allgather.c:39-48 | rank r's exchange within a round moves r from the level-i invariant to the level-(i+1) invariant and leaves every other rank's buffer unchanged |
| Allgather.Round | CMPSC450_HW3/my_Allgather.c:37-51 | one round of the lock-step group: every start becomes the level-(i+1) block start and every buffer holds its `2^(i+1)`-segment block, 0 elsewhere (the loop invariant) |
| Allgather.InitAll | CMPSC450_HW3/my_Allgather.c:22-27 | every rank's buffer holds its own segment and 0 elsewhere |
| Allgather.MyAllgather | CMPSC450_HW3/my_Allgather.c:18-53 | exactly k rounds run; every final start is 0; every rank's buffer is the rank-ordered concatenation of all contributions (as an MPI_Allgather would give); with one rank the buffer equals sendbuf |
| Allgather.MainSendbuf | CMPSC450_HW3/my_Allgather.c:88-90 | main's contribution is n copies of rank + 1 |
| Allgather.MainResultSegment | CMPSC450_HW3/my_Allgather.c:88-110 | with main's contributions, segment r of the gathered buffer is all `r + 1` |
| Allgather.CheckAgainstReference | CMPSC450_HW3/my_Allgather.c:109-111 | the final check succeeds exactly when the two buffers agree on their first `n*nprocs` entries |
| CStrings.Strcmp | CMPSC450_HW2/uniq_str.cc:35-58 | libc strcmp on the strings two pointers denote, as -1, 0 or 1 |
| CStrings.CStrPrefix | CMPSC450_HW2/uniq_str.cc:35-58 | the string a pointer denotes is the longest NUL-free prefix of its bytes, stopped by a NUL or the buffer's end |
| CStrings.LexCmpZero | CMPSC450_HW2/uniq_str.cc:35-58 | the lexicographic comparison is 0 exactly on equal strings |
| CStrings.LexCmpAntisymmetric | CMPSC450_HW2/uniq_str.cc:35-58 | swapping the arguments negates the comparison |
| CStrings.LexCmpLess | CMPSC450_HW2/uniq_str.cc:35-58 | the comparison is negative exactly when the first string is a proper prefix of the second or is smaller at the first difference |
| CStrings.StrcmpZero | CMPSC450_HW2/uniq_str.cc:35-58 | strcmp is 0 exactly when the two NUL-terminated strings are equal |
| CStrings.StrcmpAntisymmetric | CMPSC450_HW2/uniq_str.cc:35-58 | `strcmp(u, v) == -strcmp(v, u)` |
| CStrings.StrcmpLess | CMPSC450_HW2/uniq_str.cc:35-58 | strcmp is negative exactly when the first string sorts strictly first |
| UniqStr.QsCmpf | CMPSC450_HW2/uniq_str.cc:35-41 | the qsort comparator is negative, zero or positive exactly when the first string sorts before, equals, or sorts after the second |
| UniqStr.InlineQsCmpf | CMPSC450_HW2/uniq_str.cc:44 | the QSORT less-than is true exactly when the first string sorts strictly first |
| UniqStr.CompareStrCmpf | CMPSC450_HW2/uniq_str.cc:47-58 | the std::sort less-than is true exactly when `strcmp < 0`, that is when the first string sorts strictly first |
| UniqStr.ReplaceNewlines | CMPSC450_HW2/uniq_str.cc:464-474 | every newline byte becomes NUL, other bytes are unchanged, and the returned count is the number of newlines in the original buffer |
| UniqStr.ReplaceLFCounts | CMPSC450_HW2/uniq_str.cc:464-474 | after the rewrite no newline is left, and the NUL count is the old NUL count plus the old newline count |
| UniqStr.SplitStrings | CMPSC450_HW2/uniq_str.cc:83-91 | the split loop fills `B[0..j)` with 0 followed by `i + 1` for each NUL at a position `i < str_array_size - 1`, returns that j, and leaves the rest of B unchanged |
| UniqStr.StartsLength | CMPSC450_HW2/uniq_str.cc:83-91 | the final j is 1 plus the number of NULs scanned |
| UniqStr.StartsMembers | CMPSC450_HW2/uniq_str.cc:83-91 | an offset is in B exactly when it is 0 or follows a scanned NUL |
| UniqStr.StartsIncreasing | CMPSC450_HW2/uniq_str.cc:83-91 | the offsets are strictly increasing and lie in the buffer |
| UniqStr.StartsGrow | CMPSC450_HW2/uniq_str.cc:83-91 | scanning further never yields fewer offsets |
| UniqStr.SplitCount | CMPSC450_HW2/uniq_str.cc:83-91 | after main's rewrite, the split finds 1 plus the number of newlines and NULs before the last byte |
| UniqStr.FileLinesAreStrings | CMPSC450_HW2/uniq_str.cc:464-474 | the assertion `j == num_strings` (num_strings being the newline count) holds exactly when the file ends in a newline and has no NUL before its last byte |
| UniqStr.SplitOverrun | CMPSC450_HW2/uniq_str.cc:83-91 | for every other file the split finds more starts than the num_strings entries B has room for |
| UniqStr.NoTrailingNewline | CMPSC450_HW2/uniq_str.cc:83-91 | the file `a\nb` has one newline but splits into two strings |
| UniqStr.ZeroCounts | CMPSC450_HW2/uniq_str.cc:93-95 | `counts[0..num_strings)` becomes 0 and the rest is unchanged |
| UniqStr.RunPass | CMPSC450_HW2/uniq_str.cc:110-120 | the run loop leaves 1 plus the number of string changes as num_uniq_strings, and the length of the last run as the occurrence count; it writes each run's length at that run's last index (except the last run), and nothing else |
| UniqStr.RunStep | CMPSC450_HW2/uniq_str.cc:112-119 | one step of the run loop: a new string closes the previous run and restarts the count at 1, while an equal string extends the run |
| UniqStr.CountRuns | CMPSC450_HW2/uniq_str.cc:110-121 | after the run loop and the final store, each run's length is at the run's last index and every other entry of counts keeps its value; num_uniq_strings is 1 plus the number of changes, and for sorted B the number of distinct strings |
| UniqStr.AdjacentKeys | CMPSC450_HW2/uniq_str.cc:113 | the loop's `strcmp != 0` test is true exactly when the two pointed-to strings differ |
| UniqStr.DistinctOfSorted | CMPSC450_HW2/uniq_str.cc:110-120 | when the runs of equal strings are contiguous, the number of distinct strings is 1 plus the number of changes |
| UniqStr.SortedRunsContiguous | CMPSC450_HW2/uniq_str.cc:110-120 | in a sorted sequence a string that differs from its predecessor has not occurred before |
| UniqStr.SortedRunsDistinct | CMPSC450_HW2/uniq_str.cc:110-120 | for sorted B, 1 plus the number of changes equals the number of distinct strings |
| UniqStr.RunLenPrefix | CMPSC450_HW2/uniq_str.cc:110-120 | with contiguous runs, `string_occurrence_count` at index i is the number of occurrences of that string in `B[0..i]` |
| UniqStr.NoLaterOccurrence | CMPSC450_HW2/uniq_str.cc:110-120 | with contiguous runs, the string that ends a run does not occur after it |
| UniqStr.RunLenIsOccurrences | CMPSC450_HW2/uniq_str.cc:108-121 | the count stored at a run's end is the number of occurrences of its string in B |
| UniqStr.RunCountsSum | CMPSC450_HW2/uniq_str.cc:138-144 | the run-length counts sum to the number of strings |
| UniqStr.CorrectnessCheck | CMPSC450_HW2/uniq_str.cc:138-144 | the check returns the sum of `counts[0..num_strings)`, and succeeds exactly when B is in non-decreasing strcmp order and that sum is num_strings |
| UniqStr.SortedAdjacent | CMPSC450_HW2/uniq_str.cc:138-141 | a sorted B passes the adjacent-order part of the check |
| UniqStr.FindUniqSorted | CMPSC450_HW2/uniq_str.cc:93-144 | for a sorted B, the check always succeeds, num_uniq_strings is the number of distinct strings, counts is the run-length table (0 except at run ends), and the count at each run's end is the number of occurrences of that string, as the map variant also gives |
| UniqStr.SumPrefix | CMPSC450_HW2/uniq_str.cc:138-144 | the sum over a prefix depends only on that prefix |
| UniqStr.CountWithMap | CMPSC450_HW2/uniq_str.cc:398-407 | after the map loop the keys are exactly the distinct strings, each value is the number of pointers to that string, and the map's size is the number of distinct strings |
| FltValSort.QsCmpf | CMPSC450_HW2/flt_val_sort.c:38-46 | the comparator returns 1, -1 or 0 exactly when `u > v`, `u < v` or `u == v` |
| FltValSort.QsCmpfAntisymmetric | CMPSC450_HW2/flt_val_sort.c:38-46 | `qs_cmpf(u, v) == -qs_cmpf(v, u)` |
| FltValSort.InlineQsCmpf | CMPSC450_HW2/flt_val_sort.c:49 | the inline comparison is true exactly when qs_cmpf is negative, that is `a < b` |
| FltValSort.CopyArray | CMPSC450_HW2/flt_val_sort.c:150-157 | `B[i] == A[i]` for every i in `[0, end)` whatever begin is, and nothing else is written |
| FltValSort.Merge | CMPSC450_HW2/flt_val_sort.c:159-175 | merge writes exactly `B[begin..end)`; entry `begin + t` is the value the as-written loop picks at step t, with both cursors starting at 0 and `j + k == i - begin` |
| FltValSort.TakesLeft | CMPSC450_HW2/flt_val_sort.c:164 | merge's test for taking the left cursor: j is below mid, and `A[j] < A[k]` or k has reached end |
| FltValSort.MergeAtFromInput | CMPSC450_HW2/flt_val_sort.c:164-172 | every value merge writes is some `A[j]` or `A[k]` with `j + k` equal to the step |
| FltValSort.MergeRepeatsFirst | CMPSC450_HW2/flt_val_sort.c:161-172 | when `A[0] < A[1]`, the first two values written are both `A[0]` (j and k both start at 0) |
| FltValSort.MergeLosesValues | CMPSC450_HW2/flt_val_sort.c:159-175 | merging `[1, 2]` with `mid = 1` and `end = 2` writes `[1, 1]`, so merge does not produce a permutation |
| FltValSort.CDiv2 | CMPSC450_HW2/flt_val_sort.c:182 | C's truncating `(begin + end) / 2` lies within one of half the sum, toward zero |
| FltValSort.Mergesort | CMPSC450_HW2/flt_val_sort.c:177-189 | when `begin - end < 2`, which covers every `begin <= end`, A and B are unchanged; B is never changed; otherwise A's prefix below end is B's, and A is unchanged from begin on |
| FltValSort.FillRandom | CMPSC450_HW2/flt_val_sort.c:242-247 | type 0 sets `A[i]` to the i-th draw modulo 81, which lies in `[0, 81)` |
| FltValSort.FillSorted | CMPSC450_HW2/flt_val_sort.c:250-254 | type 1 sets `A[i] = i` for `i < n` |
| FltValSort.IdentitySorted | CMPSC450_HW2/flt_val_sort.c:250-254 | the values `0, 1, ..., n-1` are strictly increasing |
| FltValSort.Swap | CMPSC450_HW2/flt_val_sort.c:271-273 | the sequence with entries j and k exchanged; it keeps the length |
| FltValSort.SwapPermutation | CMPSC450_HW2/flt_val_sort.c:271-273 | swapping two entries keeps the multiset of values |
| FltValSort.SwapEntries | CMPSC450_HW2/flt_val_sort.c:271-273 | the tmpval swap exchanges `A[j]` and `A[k]` and changes nothing else |
| FltValSort.ShuffleEntries | CMPSC450_HW2/flt_val_sort.c:266-274 | the shuffle loop applies the swaps `(draw % n, draw % n)` in order |
| FltValSort.ShufflePermutation | CMPSC450_HW2/flt_val_sort.c:257-274 | any sequence of in-range swaps is a permutation |
| FltValSort.FillAlmostSorted | CMPSC450_HW2/flt_val_sort.c:257-274 | type 2 is the identity after `n/100 + 1` swaps, a permutation of `0 .. n-1` |
| FltValSort.FillConstant | CMPSC450_HW2/flt_val_sort.c:277-281 | type 3 sets every `A[i]` to 1 |
| FltValSort.FillReversed | CMPSC450_HW2/flt_val_sort.c:284-289 | the default type sets `A[i] = n + 1 - i`, which is strictly decreasing |
| FltValSort.GenInput | CMPSC450_HW2/flt_val_sort.c:237-294 | gen_input puts each branch's values in `A[0..n)` (sorted for type 1, a permutation of the identity for type 2, strictly decreasing for the default) and leaves `A[n..)` unchanged |

## Left out

- MPI transport: `MPI_Init`/`MPI_Finalize`, real message passing, tags, `MPI_Status` and `MPI_Barrier` are left out. The lock-step group replaces them. The library `MPI_Allgather` is replaced by its result, the rank-ordered concatenation `Flat`.
- Allgather.MyAllgather: the group size must be `2^k`. `log2` and `pow` on doubles become the integer k and `Pow2(i)`. A group size that is not a power of two is excluded by precondition, as the code does not check it.
- Allgather.MyAllgather: `n * nprocs` and the offsets are unbounded integers; 32-bit `int` overflow is not modelled.
- Allgather.MyAllgather: within a round the model updates ranks one after another, not concurrently. Ordering and blocking between real processes are left out.
- Timing, reporting and I/O: `timer()`, elapsed time and MB/s, `fprintf`/`printArray`, `stat`/`fopen`/`fread` and argv parsing are left out. The file contents are a parameter.
- Library sorts: `qsort`, the `QSORT` macro and `std::sort` are left out, because qsort.h is not part of this model. Their effect is the precondition `SortedPtrs`.
- The find_uniq_* drivers' iteration and timing loops, and the allocation of `B` and `counts`, are left out. `FindUniqSorted` models one pass of their shared body.
- UniqStr.SplitStrings: requires B to have room for every start. The source allocates only num_strings entries (the newline count), so for a file without a final newline, or one holding NUL bytes, the split loop writes past the end of B at uniq_str.cc:87 before the assertion at :91 is reached. Dafny cannot express that undefined behaviour; SplitOverrun and NoTrailingNewline state exactly when it happens.
- UniqStr.CountWithMap: `std::map` internals are left out. The map is a Dafny `map<seq<byte>, int>`.
- CStrings.Strcmp: reading past the end of the buffer is undefined in C. The model treats the buffer's end as a NUL.
- CStrings.Strcmp: returns -1, 0 or 1. C fixes only the sign, and every contract speaks only of the sign.
- Randomness: `rand` and `srand` are left out. gen_input's type 0 values and type 2 swap indices come from a `draws` parameter.
- FltValSort.GenInput: type 2 requires `n > 0`, because `rand() % n` with `n == 0` is undefined in C.
- FltValSort.FillReversed: the double expression `(int32_t)(n + 1.0 - i)` becomes the integer `n + 1 - i`.
- FltValSort.CopyArray: the `int32_t**` parameters are called with flat arrays (and with `&A, &B` elsewhere). The model covers only the element-wise prefix copy of the body.
- FltValSort.Merge: `(*A)[j]` is read as `A[j]`, through the same pointer-type mix-up. The model requires A and B to be different arrays.
- FltValSort.Merge: `begin + end` and the cursors are unbounded integers; 32-bit overflow is not modelled.
- FltValSort.Mergesort: no corrected mergesort is given. The model states what the code as written does.
- mergesortRunner is a timing harness and is left out.
- The CMPSC450_HW1 latency and bandwidth benchmarks are left out. They measure hardware speed.
- OpenMP: the headers are included but unused.
