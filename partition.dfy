/** The partition arithmetic of compute_mi_parallel (mi_batch.cpp:16-33): the N columns of the
    column-major data matrix are cut into T equal contiguous worker blocks of N_part columns,
    followed by a remainder of N_res columns that the calling thread handles itself.
    A block b < T is worker b; the block b == T is the calling thread's remainder. */
module Partition {

  /** N_res: the columns left over for the calling thread (mi_batch.cpp:19). */
  function Residual(N: nat, T: int): nat
    requires T >= 1
  {
    2 * ((N / 2) % T)
  }

  /** N_part: the columns handed to each worker thread (mi_batch.cpp:20). */
  function PartSize(N: nat, T: int): nat
    requires T >= 1
  {
    assert (N / 2) % T <= N / 2;
    2 * (((N - Residual(N, T)) / 2) / T)
  }

  /** The first column of worker k, i = N_part * k (mi_batch.cpp:25). */
  function WorkerStart(N: nat, T: int, k: nat): nat
    requires T >= 1
  {
    PartSize(N, T) * k
  }

  /** The first column of the calling thread's remainder: the final i = N_part * T (mi_batch.cpp:29). */
  function RemainderStart(N: nat, T: int): nat
    requires T >= 1
  {
    PartSize(N, T) * T
  }

  /** Block b covers column c. */
  predicate Covers(N: nat, T: int, b: nat, c: nat)
    requires T >= 1 && b <= T
  {
    if b < T then WorkerStart(N, T, b) <= c < WorkerStart(N, T, b + 1)
    else RemainderStart(N, T) <= c < RemainderStart(N, T) + Residual(N, T)
  }

  /** The block that column c falls into. */
  function Owner(N: nat, T: int, c: nat): (b: nat)
    requires T >= 1
    ensures b <= T
  {
    BlockOf(PartSize(N, T), T, c)
  }

  /** With T blocks of s columns each followed by a remainder block T: the block holding column c. */
  function BlockOf(s: nat, T: int, c: nat): (b: nat)
    requires T >= 1
    ensures b <= T
    ensures b < T <==> c < s * T
    ensures b < T ==> b * s <= c < (b + 1) * s
  {
    if c < s * T then
      QuotientBelow(c, s, T);
      c / s
    else T
  }

  lemma MulLe(a: nat, b: nat, m: nat)
    requires a <= b
    ensures a * m <= b * m
  {
  }

  /** c / s < t whenever c < s * t. */
  lemma QuotientBelow(c: nat, s: nat, t: int)
    requires c < s * t
    ensures s > 0 && 0 <= c / s < t
    ensures (c / s) * s <= c < (c / s + 1) * s
  {
    assert s != 0;
    assert (c / s + 1) * s == (c / s) * s + s;
    if c / s >= t {
      MulLe(t, c / s, s);
    }
  }

  /** A multiple of an even number is even. */
  lemma EvenMultiple(s: nat, k: nat)
    requires s % 2 == 0
    ensures (s * k) % 2 == 0
  {
    assert s * k == 2 * ((s / 2) * k);
  }

  /** The quotient c / s is the only b with b * s <= c < (b + 1) * s. */
  lemma QuotientUnique(c: nat, s: nat, b: nat)
    requires s > 0
    ensures b * s <= c < (b + 1) * s <==> b == c / s
  {
    var o := c / s;
    assert o * s <= c < (o + 1) * s;
    if b < o {
      MulLe(b + 1, o, s);
    } else if o < b {
      MulLe(o + 1, b, s);
    }
  }

  /** With N even and T >= 1 the sizes add up: both sizes are even, the remainder is less than
      two columns per worker, and T worker blocks plus the remainder make N columns. */
  lemma {:induction false} SplitSizes(N: nat, T: int)
    requires T >= 1 && N % 2 == 0
    ensures PartSize(N, T) % 2 == 0 && Residual(N, T) % 2 == 0
    ensures Residual(N, T) < 2 * T
    ensures PartSize(N, T) * T + Residual(N, T) == N
  {
    var q, r := (N / 2) / T, (N / 2) % T;
    assert N / 2 == q * T + r;
    assert (N - Residual(N, T)) / 2 == q * T;
    assert (q * T) / T == q by {
      QuotientUnique(q * T, T, q);
    }
    assert PartSize(N, T) == 2 * q;
  }

  /** The sizes are the only ones with these properties: two even sizes s and r with r < 2 * T
      and s * T + r == N are N_part and N_res. */
  lemma {:induction false} SizesUnique(N: nat, T: int, s: nat, r: nat)
    requires T >= 1 && N % 2 == 0
    requires s % 2 == 0 && r % 2 == 0 && r < 2 * T && s * T + r == N
    ensures s == PartSize(N, T) && r == Residual(N, T)
  {
    var q, m := s / 2, r / 2;
    assert N / 2 == q * T + m by {
      assert s * T == 2 * (q * T);
    }
    assert m < T;
    QuotientUnique(N / 2, T, q);
    assert q == (N / 2) / T && m == (N / 2) % T;
    SplitSizes(N, T);
  }

  /** Lines 19-20 of compute_mi_parallel: N_res = 2 * ((N / 2) % T) and
      N_part = 2 * (((N - N_res) / 2) / T). For even N they are the even sizes with
      N_part * T + N_res == N and N_res < 2 * T (unique by SizesUnique). */
  method SplitColumns(N: nat, T: int) returns (nRes: nat, nPart: nat)
    requires T >= 1 && N % 2 == 0
    ensures nPart % 2 == 0 && nRes % 2 == 0 && nRes < 2 * T
    ensures nPart * T + nRes == N
    ensures nRes == Residual(N, T) && nPart == PartSize(N, T)
  {
    nRes := 2 * ((N / 2) % T);
    assert (N / 2) % T <= N / 2;
    nPart := 2 * (((N - nRes) / 2) / T);
    SplitSizes(N, T);
  }

  /** Worker blocks lie end to end in order: block j ends no later than block k starts, exactly
      where it starts when k == j + 1, and the last worker block ends where the remainder starts. */
  lemma {:induction false} WorkersEndToEnd(N: nat, T: int, j: nat, k: nat)
    requires T >= 1 && j < k <= T
    ensures WorkerStart(N, T, j) + PartSize(N, T) <= WorkerStart(N, T, k)
    ensures k == j + 1 ==> WorkerStart(N, T, j) + PartSize(N, T) == WorkerStart(N, T, k)
    ensures WorkerStart(N, T, k) <= RemainderStart(N, T)
    ensures WorkerStart(N, T, T) == RemainderStart(N, T)
  {
    MulLe(j + 1, k, PartSize(N, T));
    MulLe(k, T, PartSize(N, T));
  }

  /** The calling thread has work exactly when N_res > 0; its remainder then starts at
      column N_part * T and ends at column N. */
  lemma {:induction false} RemainderExactly(N: nat, T: int)
    requires T >= 1 && N % 2 == 0
    ensures RemainderStart(N, T) < N <==> Residual(N, T) > 0
    ensures RemainderStart(N, T) + Residual(N, T) == N
  {
    SplitSizes(N, T);
  }

  /** With more threads than pairs every worker block is empty and the calling thread covers
      every column. */
  lemma {:induction false} Oversubscribed(N: nat, T: int)
    requires T >= 1 && N % 2 == 0 && T > N / 2
    ensures PartSize(N, T) == 0 && Residual(N, T) == N
    ensures forall k: nat :: k <= T ==> WorkerStart(N, T, k) == 0
    ensures forall c: nat :: c < N ==> Owner(N, T, c) == T
  {
    assert (N / 2) % T == N / 2;
  }

  /** Worker block b < T of T blocks of s columns is the one holding column c exactly when c
      lies between its start s * b and its end s * (b + 1). */
  lemma {:induction false} BlockOfUnique(s: nat, T: int, c: nat, b: nat)
    requires T >= 1 && b < T
    ensures s * b <= c < s * (b + 1) <==> b == BlockOf(s, T, c)
  {
    var o := BlockOf(s, T, c);
    assert s * b == b * s && s * (b + 1) == (b + 1) * s;
    if o < T {
      QuotientUnique(c, s, b);
      QuotientUnique(c, s, o);
    } else {
      MulLe(b + 1, T, s);
    }
  }

  /** Every column c < N is covered by exactly one block, its owner: the blocks are disjoint and
      together cover all N columns. */
  lemma {:induction false} OwnerUnique(N: nat, T: int, c: nat, b: nat)
    requires T >= 1 && N % 2 == 0 && c < N && b <= T
    ensures Covers(N, T, b, c) <==> b == Owner(N, T, c)
  {
    SplitSizes(N, T);
    if b < T {
      BlockOfUnique(PartSize(N, T), T, c, b);
    }
  }

  /** Blocks of an even number of columns start at even columns, so both columns of a pair fall
      into the same block. */
  lemma {:induction false} BlockOfPair(s: nat, T: int, q: nat)
    requires T >= 1 && s % 2 == 0
    ensures BlockOf(s, T, 2 * q) == BlockOf(s, T, 2 * q + 1)
  {
    EvenMultiple(s, T);
    var o := BlockOf(s, T, 2 * q);
    if o < T {
      EvenMultiple(s, o + 1);
      EvenGap(2 * q, s * (o + 1));
      EvenGap(2 * q, s * T);
      QuotientUnique(2 * q + 1, s, o);
    }
  }

  /** Between two even numbers a < b there is room for a + 1. */
  lemma EvenGap(a: int, b: int)
    requires a % 2 == 0 && b % 2 == 0 && a < b
    ensures a + 1 < b
  {
  }

  /** Both columns of pair q have the same owner. */
  lemma {:induction false} PairOwner(N: nat, T: int, q: nat)
    requires T >= 1 && N % 2 == 0 && q < N / 2
    ensures Owner(N, T, 2 * q) == Owner(N, T, 2 * q + 1)
  {
    SplitSizes(N, T);
    BlockOfPair(PartSize(N, T), T, q);
  }
}
