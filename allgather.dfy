/**
 * Recursive-doubling all-gather (CMPSC450_HW3/my_Allgather.c).
 *
 * The group of nprocs == 2^k ranks is simulated as one lock-step state
 * machine: every rank owns its own receive buffer (an array), and a round
 * lets every rank receive its partner's owned block, then keep the smaller
 * block start.  A blocking MPI_Sendrecv followed by MPI_Barrier is exactly
 * such a simultaneous exchange.
 */
module Allgather {

  /** 2^i, the `power` of round i and `1 << i`. */
  function Pow2(i: nat): (r: nat)
    ensures r >= 1
  {
    if i == 0 then 1 else 2 * Pow2(i - 1)
  }

  /** Bit i of r, that is (r >> i) & 1. */
  function Bit(r: nat, i: nat): (b: nat)
    ensures b < 2
  {
    if i == 0 then r % 2 else Bit(r / 2, i - 1)
  }

  lemma {:induction false} BitSetBound(r: nat, i: nat)
    requires Bit(r, i) == 1
    ensures r >= Pow2(i)
  {
    if i > 0 {
      BitSetBound(r / 2, i - 1);
    }
  }

  /** rank ^ (1 << i): flips bit i of r. */
  function Partner(r: nat, i: nat): nat
  {
    if Bit(r, i) == 0 then r + Pow2(i)
    else BitSetBound(r, i); r - Pow2(i)
  }

  /** r with its low i bits cleared: the first rank of r's block in round i. */
  function BlockStart(r: nat, i: nat): (s: nat)
    ensures s <= r
  {
    if i == 0 then r else 2 * BlockStart(r / 2, i - 1)
  }

  /** Flipping bit i+1 of r is flipping bit i of r / 2, keeping bit 0. */
  lemma PartnerHalf(r: nat, i: nat)
    ensures Partner(r, i + 1) / 2 == Partner(r / 2, i)
    ensures Partner(r, i + 1) % 2 == r % 2
  {
  }

  /** The partner differs from r in bit i and agrees with it in every other bit. */
  lemma {:induction false} PartnerFlipsBit(r: nat, i: nat)
    ensures Bit(Partner(r, i), i) == 1 - Bit(r, i)
    ensures forall j: nat :: j != i ==> Bit(Partner(r, i), j) == Bit(r, j)
  {
    if i > 0 {
      PartnerHalf(r, i - 1);
      PartnerFlipsBit(r / 2, i - 1);
      forall j: nat | j != i
        ensures Bit(Partner(r, i), j) == Bit(r, j)
      {
        if j > 0 {
          assert Bit(Partner(r / 2, i - 1), j - 1) == Bit(r / 2, j - 1);
        }
      }
    } else {
      forall j: nat | j != 0
        ensures Bit(Partner(r, 0), j) == Bit(r, j)
      {
        assert Partner(r, 0) / 2 == r / 2;
      }
    }
  }

  /** The pairing rank ^ (1 << i) is an involution without fixed points. */
  lemma PartnerInvolution(r: nat, i: nat)
    ensures Partner(r, i) != r
    ensures Partner(Partner(r, i), i) == r
  {
    PartnerFlipsBit(r, i);
  }

  lemma {:induction false} BitClearBound(r: nat, i: nat, k: nat)
    requires Bit(r, i) == 0 && r < Pow2(k) && i < k
    ensures r + Pow2(i) < Pow2(k)
  {
    assert Pow2(k) == 2 * Pow2(k - 1);
    assert r == 2 * (r / 2) + r % 2;
    if i > 0 {
      BitClearBound(r / 2, i - 1, k - 1);
      assert Pow2(i) == 2 * Pow2(i - 1);
    } else {
      assert r / 2 < Pow2(k - 1);
    }
  }

  /** For nprocs == 2^k and i < k the partner is another rank of the group. */
  lemma PartnerInRange(r: nat, i: nat, k: nat)
    requires r < Pow2(k) && i < k
    ensures Partner(r, i) < Pow2(k)
  {
    if Bit(r, i) == 0 {
      BitClearBound(r, i, k);
    }
  }

  /** The block start never exceeds the rank, and the rank lies in the block. */
  lemma {:induction false} BlockStartBounds(r: nat, i: nat)
    ensures BlockStart(r, i) <= r < BlockStart(r, i) + Pow2(i)
  {
    if i > 0 {
      BlockStartBounds(r / 2, i - 1);
    }
  }

  /** A rank's block of 2^i segments lies inside the group for i <= k. */
  lemma {:induction false} BlockInGroup(r: nat, i: nat, k: nat)
    requires r < Pow2(k) && i <= k
    ensures BlockStart(r, i) + Pow2(i) <= Pow2(k)
  {
    if i > 0 {
      BlockInGroup(r / 2, i - 1, k - 1);
    }
  }

  /** After the last round every rank's block starts at rank 0. */
  lemma {:induction false} BlockStartFinal(r: nat, k: nat)
    requires r < Pow2(k)
    ensures BlockStart(r, k) == 0
  {
    if k > 0 {
      BlockStartFinal(r / 2, k - 1);
    }
  }

  /** The partner's block is the one right after or right before r's block. */
  lemma {:induction false} PartnerBlockStart(r: nat, i: nat)
    ensures Bit(r, i) == 0 ==> BlockStart(Partner(r, i), i) == BlockStart(r, i) + Pow2(i)
    ensures Bit(r, i) == 1 ==> BlockStart(Partner(r, i), i) + Pow2(i) == BlockStart(r, i)
  {
    if i > 0 {
      PartnerHalf(r, i - 1);
      PartnerBlockStart(r / 2, i - 1);
    }
  }

  /** The merged block of round i is anchored at the smaller of the two starts. */
  lemma {:induction false} BlockStartNext(r: nat, i: nat)
    ensures BlockStart(r, i + 1) == if Bit(r, i) == 0 then BlockStart(r, i) else BlockStart(r, i) - Pow2(i)
  {
    if i > 0 {
      BlockStartNext(r / 2, i - 1);
    }
  }

  lemma MulAtLeast(d: int, m: int)
    requires d >= 1 && m > 0
    ensures d * m >= m
  {
  }

  lemma ModUnique(x: int, m: int, q: int, c: int)
    requires m > 0 && 0 <= c < m && x == q * m + c
    ensures x % m == c
  {
    var q', c' := x / m, x % m;
    assert q' * m + c' == q * m + c;
    if q' > q {
      assert (q' - q) * m == q' * m - q * m;
      MulAtLeast(q' - q, m);
    } else if q' < q {
      assert (q - q') * m == q * m - q' * m;
      MulAtLeast(q - q', m);
    }
  }

  /** start == rank - rank % 2^i: BlockStart clears the low i bits. */
  lemma {:induction false} BlockStartRoundsDown(r: nat, i: nat)
    ensures BlockStart(r, i) == r - r % Pow2(i)
  {
    if i > 0 {
      var m := Pow2(i - 1);
      BlockStartRoundsDown(r / 2, i - 1);
      var a, c := r / 2, (r / 2) % m;
      assert a == (a / m) * m + c;
      assert r == (a / m) * (2 * m) + (2 * c + r % 2);
      ModUnique(r, 2 * m, a / m, 2 * c + r % 2);
    }
  }

  lemma MulMono(a: nat, b: nat, n: nat)
    requires a <= b
    ensures a * n <= b * n
  {
  }

  /** The reference all-gather result: the contributions concatenated in rank order. */
  function Flat(c: seq<seq<int>>): seq<int>
  {
    if |c| == 0 then [] else Flat(c[..|c| - 1]) + c[|c| - 1]
  }

  /** Segment j of the concatenation is rank j's contribution. */
  lemma {:induction false} FlatSegment(c: seq<seq<int>>, n: nat, j: nat, t: nat)
    requires forall q :: 0 <= q < |c| ==> |c[q]| == n
    requires j < |c| && t < n
    ensures |Flat(c)| == |c| * n
    ensures j * n + t < |Flat(c)| && Flat(c)[j * n + t] == c[j][t]
  {
    var m := |c| - 1;
    FlatLength(c[..m], n);
    assert |c| * n == m * n + n;
    if j < m {
      FlatSegment(c[..m], n, j, t);
      MulMono(j + 1, m, n);
    } else {
      assert j * n == m * n;
    }
  }

  lemma {:induction false} FlatLength(c: seq<seq<int>>, n: nat)
    requires forall q :: 0 <= q < |c| ==> |c[q]| == n
    ensures |Flat(c)| == |c| * n
  {
    if |c| > 0 {
      FlatLength(c[..|c| - 1], n);
      assert |c| * n == (|c| - 1) * n + n;
    }
  }

  /**
   * buf is a rank's receive buffer that owns segments [lo, lo + len):
   * those hold the reference result, every other entry is still 0.
   */
  ghost predicate Holds(buf: seq<int>, all: seq<int>, n: nat, lo: nat, len: nat)
  {
    |buf| == |all| &&
    forall x :: 0 <= x < |buf| ==> buf[x] == if lo * n <= x < (lo + len) * n then all[x] else 0
  }

  /** Entries of an owned sub-block hold the reference result. */
  lemma SubBlock(buf: seq<int>, all: seq<int>, n: nat, lo: nat, len: nat, a: nat, b: nat)
    requires Holds(buf, all, n, lo, len)
    requires lo <= a && a + b <= lo + len
    ensures forall x :: a * n <= x < (a + b) * n && 0 <= x < |buf| ==> buf[x] == all[x]
  {
    MulMono(lo, a, n);
    MulMono(a + b, lo + len, n);
  }

  /**
   * One exchange: a buffer owning [s, s + P) receives the partner's
   * adjacent block [s2, s2 + P) and then owns [min(s, s2), min(s, s2) + 2P).
   */
  lemma {:induction false} ReceiveHolds(mine: seq<int>, theirs: seq<int>, res: seq<int>, all: seq<int>,
                                        n: nat, s: nat, s2: nat, P: nat)
    requires Holds(mine, all, n, s, P)
    requires |theirs| == |all|
    requires forall x :: s2 * n <= x < (s2 + P) * n && 0 <= x < |all| ==> theirs[x] == all[x]
    requires s2 == s + P || s == s2 + P
    requires |res| == |mine|
    requires forall x :: 0 <= x < |res| ==> res[x] == if s2 * n <= x < (s2 + P) * n then theirs[x] else mine[x]
    ensures Holds(res, all, n, if s2 < s then s2 else s, 2 * P)
  {
    var m := if s2 < s then s2 else s;
    assert (s + P) * n == s * n + P * n;
    assert (s2 + P) * n == s2 * n + P * n;
    assert (m + 2 * P) * n == m * n + P * n + P * n;
    if s2 == s + P {
      assert s2 * n == s * n + P * n;
    } else {
      assert s * n == s2 * n + P * n;
    }
  }

  /** my_Allgather's zero loop and memcpy: recvbuf is 0 except segment rank, which is sendbuf. */
  method InitRecvbuf(sendbuf: seq<int>, n: nat, nprocs: nat, rank: nat, recvbuf: array<int>)
    requires |sendbuf| == n && rank < nprocs && recvbuf.Length == n * nprocs
    modifies recvbuf
    ensures forall x :: 0 <= x < recvbuf.Length ==>
      recvbuf[x] == if rank * n <= x < rank * n + n then sendbuf[x - rank * n] else 0
  {
    for i := 0 to n * nprocs
      invariant forall x :: 0 <= x < i ==> recvbuf[x] == 0
    {
      recvbuf[i] := 0;
    }
    MulMono(rank + 1, nprocs, n);
    assert (rank + 1) * n == rank * n + n;
    for t := 0 to n
      invariant forall x :: 0 <= x < recvbuf.Length ==>
        recvbuf[x] == if rank * n <= x < rank * n + t then sendbuf[x - rank * n] else 0
    {
      recvbuf[rank * n + t] := sendbuf[t];
    }
  }

  /** Receives entries [lo, hi) of the partner's buffer into the same entries of dst. */
  method ReceiveBlock(src: array<int>, dst: array<int>, lo: nat, hi: nat)
    requires lo <= hi <= src.Length && hi <= dst.Length && src != dst
    modifies dst
    ensures forall x :: 0 <= x < dst.Length ==> dst[x] == if lo <= x < hi then src[x] else old(dst[x])
  {
    for x := lo to hi
      invariant forall y :: 0 <= y < dst.Length ==> dst[y] == if lo <= y < x then src[y] else old(dst[y])
    {
      dst[x] := src[x];
    }
  }

  /** An initialised buffer owns exactly its own segment of the reference result. */
  lemma InitHolds(buf: seq<int>, c: seq<seq<int>>, n: nat, rank: nat)
    requires forall q :: 0 <= q < |c| ==> |c[q]| == n
    requires rank < |c| && |buf| == n * |c|
    requires forall x :: 0 <= x < |buf| ==>
      buf[x] == if rank * n <= x < rank * n + n then c[rank][x - rank * n] else 0
    ensures Holds(buf, Flat(c), n, rank, 1)
  {
    FlatLength(c, n);
    assert n * |c| == |c| * n;
    assert (rank + 1) * n == rank * n + n;
    forall x | 0 <= x < |buf|
      ensures buf[x] == if rank * n <= x < (rank + 1) * n then Flat(c)[x] else 0
    {
      if rank * n <= x < rank * n + n {
        FlatSegment(c, n, rank, x - rank * n);
      }
    }
  }

  /** Rank r's step of round i: receive the partner's block, keep the smaller start. */
  method ExchangeStep(recv: seq<array<int>>, starts: seq<nat>, done: seq<nat>, ghost all: seq<int>,
                      n: nat, k: nat, i: nat, r: nat)
    returns (newStarts: seq<nat>)
    requires i < k && r < Pow2(k) && |recv| == Pow2(k) && |starts| == Pow2(k)
    requires forall q, q' :: 0 <= q < q' < |recv| ==> recv[q] != recv[q']
    requires forall q :: 0 <= q < |recv| ==> recv[q].Length == n * Pow2(k)
    requires forall q :: 0 <= q < Pow2(k) ==> starts[q] == BlockStart(q, i)
    requires |done| == r && forall q :: 0 <= q < r ==> done[q] == BlockStart(q, i + 1)
    requires forall q :: 0 <= q < r ==> Holds(recv[q][..], all, n, BlockStart(q, i + 1), 2 * Pow2(i))
    requires forall q :: r <= q < Pow2(k) ==> Holds(recv[q][..], all, n, BlockStart(q, i), Pow2(i))
    modifies recv[r]
    ensures |newStarts| == r + 1 && forall q :: 0 <= q <= r ==> newStarts[q] == BlockStart(q, i + 1)
    ensures forall q :: 0 <= q <= r ==> Holds(recv[q][..], all, n, BlockStart(q, i + 1), 2 * Pow2(i))
    ensures forall q :: r < q < Pow2(k) ==> Holds(recv[q][..], all, n, BlockStart(q, i), Pow2(i))
  {
    var rank2 := Partner(r, i);
    PartnerInRange(r, i, k);
    PartnerInvolution(r, i);
    var start, start2 := starts[r], starts[rank2];
    BlockStartNext(rank2, i);
    BlockInGroup(rank2, i, k);
    if rank2 < r {
      SubBlock(recv[rank2][..], all, n, BlockStart(rank2, i + 1), 2 * Pow2(i), start2, Pow2(i));
    } else {
      SubBlock(recv[rank2][..], all, n, start2, Pow2(i), start2, Pow2(i));
    }
    start := ExchangeWith(recv[r], recv[rank2], all, n, k, i, r, start, start2);
    forall q | 0 <= q < Pow2(k) && q != r
      ensures recv[q][..] == old(recv[q][..])
    {
      assert recv[q] != recv[r];
    }
    newStarts := done + [start];
  }

  /**
   * One rank's part of round i: receive the partner's block
   * [start2 * n, (start2 + 2^i) * n) (the partner receives ours in turn) and
   * keep the smaller start.  The owned block doubles.
   */
  method ExchangeWith(mine: array<int>, theirs: array<int>, ghost all: seq<int>,
                      n: nat, k: nat, i: nat, r: nat, start: nat, start2: nat)
    returns (newStart: nat)
    requires i < k && r < Pow2(k) && mine != theirs
    requires mine.Length == n * Pow2(k) && theirs.Length == n * Pow2(k)
    requires start == BlockStart(r, i) && start2 == BlockStart(Partner(r, i), i)
    requires Holds(mine[..], all, n, start, Pow2(i))
    requires forall x :: start2 * n <= x < (start2 + Pow2(i)) * n && 0 <= x < theirs.Length ==> theirs[x] == all[x]
    modifies mine
    ensures newStart == BlockStart(r, i + 1)
    ensures Holds(mine[..], all, n, newStart, 2 * Pow2(i))
  {
    var power := Pow2(i);
    ghost var rank2 := Partner(r, i);
    PartnerInRange(r, i, k);
    PartnerBlockStart(r, i);
    BlockStartNext(r, i);
    BlockInGroup(rank2, i, k);
    MulMono(0, start2, n);
    MulMono(start2, start2 + power, n);
    MulMono(start2 + power, Pow2(k), n);
    assert Pow2(k) * n == n * Pow2(k);
    var lo, hi := start2 * n, (start2 + power) * n;
    assert 0 <= lo <= hi <= n * Pow2(k);
    ghost var before := mine[..];
    ReceiveBlock(theirs, mine, lo, hi);
    ReceiveHolds(before, theirs[..], mine[..], all, n, start, start2, power);
    newStart := start;
    if start2 < start {
      newStart := start2;
    }
  }

  /** Round i for the whole group: every rank exchanges with rank ^ 2^i; then the barrier. */
  method Round(recv: seq<array<int>>, starts: seq<nat>, ghost all: seq<int>, n: nat, k: nat, i: nat)
    returns (newStarts: seq<nat>)
    requires i < k && |recv| == Pow2(k) && |starts| == Pow2(k)
    requires forall q, q' :: 0 <= q < q' < |recv| ==> recv[q] != recv[q']
    requires forall q :: 0 <= q < |recv| ==> recv[q].Length == n * Pow2(k)
    requires forall q :: 0 <= q < Pow2(k) ==> starts[q] == BlockStart(q, i)
    requires forall q :: 0 <= q < Pow2(k) ==> Holds(recv[q][..], all, n, BlockStart(q, i), Pow2(i))
    modifies recv
    ensures |newStarts| == Pow2(k)
    ensures forall q :: 0 <= q < Pow2(k) ==> newStarts[q] == BlockStart(q, i + 1)
    ensures forall q :: 0 <= q < Pow2(k) ==> Holds(recv[q][..], all, n, BlockStart(q, i + 1), Pow2(i + 1))
  {
    var nprocs := Pow2(k);
    newStarts := [];
    var r := 0;
    while r < nprocs
      invariant 0 <= r <= nprocs && |newStarts| == r
      invariant forall q :: 0 <= q < r ==> newStarts[q] == BlockStart(q, i + 1)
      invariant forall q :: 0 <= q < r ==> Holds(recv[q][..], all, n, BlockStart(q, i + 1), 2 * Pow2(i))
      invariant forall q :: r <= q < nprocs ==> Holds(recv[q][..], all, n, BlockStart(q, i), Pow2(i))
    {
      newStarts := ExchangeStep(recv, starts, newStarts, all, n, k, i, r);
      r := r + 1;
    }
  }

  /** Every rank initialises its receive buffer. */
  method InitAll(sendbufs: seq<seq<int>>, n: nat, recv: seq<array<int>>)
    requires |recv| == |sendbufs|
    requires forall r :: 0 <= r < |sendbufs| ==> |sendbufs[r]| == n
    requires forall r :: 0 <= r < |recv| ==> recv[r].Length == n * |recv|
    requires forall r, q :: 0 <= r < q < |recv| ==> recv[r] != recv[q]
    modifies recv
    ensures forall q :: 0 <= q < |recv| ==> Holds(recv[q][..], Flat(sendbufs), n, q, 1)
  {
    var r := 0;
    while r < |recv|
      invariant 0 <= r <= |recv|
      invariant forall q :: 0 <= q < r ==> Holds(recv[q][..], Flat(sendbufs), n, q, 1)
    {
      InitRecvbuf(sendbufs[r], n, |recv|, r, recv[r]);
      InitHolds(recv[r][..], sendbufs, n, r);
      r := r + 1;
    }
  }

  /**
   * my_Allgather run by all 2^k ranks in lock step: recv[r] is rank r's
   * receive buffer.  Every rank ends with the rank-ordered concatenation of
   * all contributions, after exactly k rounds, with start == 0.
   */
  method MyAllgather(sendbufs: seq<seq<int>>, n: nat, k: nat, recv: seq<array<int>>)
    returns (starts: seq<nat>, rounds: nat)
    requires |sendbufs| == Pow2(k) && |recv| == Pow2(k)
    requires forall r :: 0 <= r < |sendbufs| ==> |sendbufs[r]| == n
    requires forall r :: 0 <= r < |recv| ==> recv[r].Length == n * Pow2(k)
    requires forall r, q :: 0 <= r < q < |recv| ==> recv[r] != recv[q]
    modifies recv
    ensures rounds == k
    ensures |starts| == Pow2(k) && forall r :: 0 <= r < |starts| ==> starts[r] == 0
    ensures forall r :: 0 <= r < |recv| ==> recv[r][..] == Flat(sendbufs)
    ensures k == 0 ==> recv[0][..] == sendbufs[0]
  {
    var nprocs := Pow2(k);
    ghost var all := Flat(sendbufs);
    FlatLength(sendbufs, n);
    InitAll(sendbufs, n, recv);
    starts := seq(nprocs, q => q);
    var i := 0;
    while i < k
      invariant 0 <= i <= k && |starts| == nprocs
      invariant forall q :: 0 <= q < nprocs ==> starts[q] == BlockStart(q, i)
      invariant forall q :: 0 <= q < nprocs ==> Holds(recv[q][..], all, n, BlockStart(q, i), Pow2(i))
    {
      starts := Round(recv, starts, all, n, k, i);
      i := i + 1;
    }
    rounds := i;
    forall q | 0 <= q < nprocs
      ensures starts[q] == 0 && recv[q][..] == all
    {
      BlockStartFinal(q, k);
    }
  }

  /**
   * The start exchange and the block exchange of round i: the received
   * start2 is the partner's block start, the sent and received blocks of
   * 2^i segments are adjacent (hence disjoint) and lie inside recvbuf, and
   * the kept start min(start, start2) is the next round's block start.
   */
  lemma ExchangeBlocks(r: nat, i: nat, k: nat, n: nat)
    requires r < Pow2(k) && i < k
    ensures var s, s2, P := BlockStart(r, i), BlockStart(Partner(r, i), i), Pow2(i);
      && ((s + P) * n == s2 * n || (s2 + P) * n == s * n)
      && ((s + P) * n <= s2 * n || (s2 + P) * n <= s * n)
      && (s + P) * n <= n * Pow2(k) && (s2 + P) * n <= n * Pow2(k)
      && (if s2 < s then s2 else s) == BlockStart(r, i + 1) <= s
  {
    var s, s2, P := BlockStart(r, i), BlockStart(Partner(r, i), i), Pow2(i);
    PartnerInRange(r, i, k);
    PartnerBlockStart(r, i);
    BlockStartNext(r, i);
    BlockInGroup(r, i, k);
    BlockInGroup(Partner(r, i), i, k);
    MulMono(s + P, Pow2(k), n);
    MulMono(s2 + P, Pow2(k), n);
    assert Pow2(k) * n == n * Pow2(k);
  }

  /** main's contribution: sendbuf[i] = rank + 1 for every i < n. */
  method MainSendbuf(rank: nat, n: nat) returns (sendbuf: seq<int>)
    ensures |sendbuf| == n && forall t :: 0 <= t < n ==> sendbuf[t] == rank + 1
  {
    sendbuf := [];
    for t := 0 to n
      invariant |sendbuf| == t && forall x :: 0 <= x < t ==> sendbuf[x] == rank + 1
    {
      sendbuf := sendbuf + [rank + 1];
    }
  }

  /** The contributions of all ranks in main. */
  function MainContributions(k: nat, n: nat): seq<seq<int>>
  {
    seq(Pow2(k), q => seq(n, t => q + 1))
  }

  /** With main's contributions, segment r of every final buffer is all r + 1. */
  lemma MainResultSegment(k: nat, n: nat, r: nat, t: nat)
    requires r < Pow2(k) && t < n
    ensures |Flat(MainContributions(k, n))| == n * Pow2(k)
    ensures r * n + t < n * Pow2(k) && Flat(MainContributions(k, n))[r * n + t] == r + 1
  {
    FlatSegment(MainContributions(k, n), n, r, t);
    assert Pow2(k) * n == n * Pow2(k);
  }

  /**
   * main's verification loop asserts recvbuf1[i] == recvbuf2[i] for every
   * i < n * nprocs; ok says whether every one of those assertions holds.
   */
  method CheckAgainstReference(recvbuf1: array<int>, recvbuf2: array<int>, len: nat) returns (ok: bool)
    requires len <= recvbuf1.Length && len <= recvbuf2.Length
    ensures ok <==> recvbuf1[..len] == recvbuf2[..len]
  {
    var i := 0;
    while i < len
      invariant 0 <= i <= len
      invariant recvbuf1[..i] == recvbuf2[..i]
    {
      if recvbuf1[i] != recvbuf2[i] {
        assert recvbuf1[..len][i] != recvbuf2[..len][i];
        return false;
      }
      assert recvbuf1[..i + 1] == recvbuf1[..i] + [recvbuf1[i]];
      assert recvbuf2[..i + 1] == recvbuf2[..i] + [recvbuf2[i]];
      i := i + 1;
    }
    assert recvbuf1[..len] == recvbuf1[..i];
    return true;
  }
}
