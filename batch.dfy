/** The batch dispatcher of mi_batch.cpp. The data matrix is a column-major buffer of M rows;
    columns 2p and 2p + 1 hold the two signals of pair p, and the estimate for pair p goes to
    output slot p. The data matrix is only ever read (the estimator copies the samples it needs),
    so it is a sequence; the output buffer is an array that the methods update in place. The
    source's pointer arguments (&x[j * M], &mi[i / 2]) become the buffer plus an element offset.
    The KSG estimator compute_mi_2D_ksg is opaque: it is the parameter `ksg`,
    applied to the 2 * M samples of one column pair, the row count M and the neighbour count K.
    Worker threads are modelled as their sequential composition: they write disjoint slots. */
module Batch {
  import opened Partition

  /** compute_mi_2D_ksg(&x[c * M], M, K): reads x[c * M + i] and x[c * M + i + M] for i < M. */
  type Estimator = (seq<real>, nat, int) -> real

  /** The loop `for (j = 0; j < N; j += 2)` visits (N + 1) / 2 values of j. */
  function PairCount(N: nat): nat
  {
    (N + 1) / 2
  }

  /** The 2 * M samples of the column pair that starts at element lo of x: x[lo .. lo + 2 * M].
      Past the end of x there are none; no caller asks for those. */
  function Window(x: seq<real>, lo: nat, M: nat): seq<real>
  {
    if lo + 2 * M <= |x| then x[lo .. lo + 2 * M] else []
  }

  /** The estimates of P consecutive column pairs of an M-row buffer whose first column starts at
      element base: entry p is the estimator applied to the 2 * M samples at base + p * 2 * M. */
  function Pairs(x: seq<real>, base: nat, M: nat, P: nat, K: int, ksg: Estimator): (r: seq<real>)
    ensures |r| == P
  {
    if P == 0 then []
    else Pairs(x, base, M, P - 1, K, ksg) + [ksg(Window(x, base + (P - 1) * (2 * M), M), M, K)]
  }

  /** s with the elements from index at on replaced by v. */
  function Overwrite(s: seq<real>, at: nat, v: seq<real>): (r: seq<real>)
    requires at + |v| <= |s|
    ensures |r| == |s|
  {
    s[..at] + v + s[at + |v|..]
  }

  /** The output slots at, at + 1, ..., at + n - 1, in the order they are written. */
  predicate IsSlots(w: seq<nat>, at: nat, n: nat)
  {
    |w| == n && forall t :: 0 <= t < n ==> w[t] == at + t
  }

  lemma MulPred(P: nat, W: nat)
    requires P >= 1
    ensures (P - 1) * W + W == P * W
  {
  }

  lemma MulAdd(a: nat, b: nat, W: nat)
    ensures (a + b) * W == a * W + b * W
  {
  }

  /** Column j (even) of an M-row buffer starts at element (j / 2) * 2 * M. */
  lemma ColumnOffset(j: nat, M: nat)
    requires j % 2 == 0
    ensures j * M == (j / 2) * (2 * M)
    ensures j * M + 2 * M == (j / 2 + 1) * (2 * M)
  {
    var p := j / 2;
    assert j == 2 * p;
  }

  /** Where iteration j = 2 * p of compute_mi_serial reads: inside a buffer that holds P pairs. */
  lemma SerialBounds(xo: nat, j: nat, p: nat, M: nat, P: nat, len: nat)
    requires j == 2 * p && p < P && xo + P * (2 * M) <= len
    ensures j / 2 == p && 0 <= j * M == p * (2 * M)
    ensures xo + p * (2 * M) + 2 * M == xo + (p + 1) * (2 * M) <= len
  {
    MulLe(p + 1, P, 2 * M);
  }

  /** Worker k of blocks of s (even) columns starts at column s * k, element (s * k) * M,
      pair and slot (s / 2) * k. */
  lemma BlockOffset(s: nat, k: nat, M: nat)
    requires s % 2 == 0
    ensures (s * k) % 2 == 0 && (s * k) / 2 == (s / 2) * k
    ensures (s * k) * M == ((s / 2) * k) * (2 * M)
    ensures (s / 2) * k + s / 2 == (s / 2) * (k + 1)
  {
    var b := s / 2;
    assert s * k == 2 * (b * k);
  }

  /** Where worker k < T of compute_mi_parallel reads and writes, with s = N_part and res = N_res
      as SplitColumns characterizes them: from column s * k, that is element (s * k) * M and slot
      (s * k) / 2, (s / 2) * k pairs in. Its s / 2 pairs stay inside the M-row, N-column matrix
      of xlen elements and below pair N / 2. */
  lemma WorkerBounds(N: nat, T: int, k: nat, M: nat, s: nat, res: nat, xlen: nat)
    requires T >= 1 && N % 2 == 0 && k < T && s % 2 == 0 && s * T + res == N && N * M <= xlen
    ensures PairCount(s) == s / 2
    ensures (s * k) / 2 == (s / 2) * k && 0 <= (s * k) * M == ((s / 2) * k) * (2 * M)
    ensures (s * k) * M + (s / 2) * (2 * M) <= xlen
    ensures (s / 2) * k + s / 2 == (s / 2) * (k + 1) <= N / 2
  {
    var b := s / 2;
    BlockOffset(s, k, M);
    assert b * T <= N / 2 by {
      BlockOffset(s, T, M);
    }
    assert b * (k + 1) <= b * T by {
      MulLe(k + 1, T, b);
    }
    MulLe(b * (k + 1), N / 2, 2 * M);
    MulAdd(b * k, b, 2 * M);
    ColumnOffset(N, M);
  }

  /** Where the calling thread's remainder of compute_mi_parallel reads and writes: from column
      s * T, that is element (s * T) * M and slot (s * T) / 2, (s / 2) * T pairs in. Its
      res / 2 pairs end exactly at pair N / 2 and at the end of the matrix, and it has work
      exactly when res > 0. */
  lemma RemainderBounds(N: nat, T: int, M: nat, s: nat, res: nat, xlen: nat)
    requires T >= 1 && N % 2 == 0 && s % 2 == 0 && res % 2 == 0 && s * T + res == N && N * M <= xlen
    ensures PairCount(res) == res / 2 && (s / 2) * T + res / 2 == N / 2
    ensures (s * T) / 2 == (s / 2) * T && 0 <= (s * T) * M == ((s / 2) * T) * (2 * M)
    ensures (s * T) * M + (res / 2) * (2 * M) <= xlen
    ensures s * T < N <==> res > 0
  {
    BlockOffset(s, T, M);
    ColumnOffset(N, M);
    MulAdd((s / 2) * T, res / 2, 2 * M);
  }

  lemma SlotsAppend(u: seq<nat>, v: seq<nat>, at: nat, n: nat, m: nat)
    requires IsSlots(u, at, n) && IsSlots(v, at + n, m)
    ensures IsSlots(u + v, at, n + m)
  {
  }

  /** Entry p of Pairs is the estimate of the pair whose samples start at base + p * 2 * M. */
  lemma {:induction false} PairsAt(x: seq<real>, base: nat, M: nat, P: nat, K: int, ksg: Estimator, p: nat)
    requires base + P * (2 * M) <= |x| && p < P
    ensures base + p * (2 * M) + 2 * M <= |x|
    ensures Pairs(x, base, M, P, K, ksg)[p] == ksg(x[base + p * (2 * M) .. base + p * (2 * M) + 2 * M], M, K)
  {
    MulPred(P, 2 * M);
    if p < P - 1 {
      PairsAt(x, base, M, P - 1, K, ksg, p);
    }
  }

  /** Estimating A + B consecutive pairs is estimating the first A, then the B that start A pairs
      further on: splitting the columns into blocks changes no estimate. */
  lemma {:induction false} PairsSplit(x: seq<real>, base: nat, M: nat, A: nat, B: nat, K: int, ksg: Estimator)
    ensures Pairs(x, base, M, A + B, K, ksg)
         == Pairs(x, base, M, A, K, ksg) + Pairs(x, base + A * (2 * M), M, B, K, ksg)
  {
    if B > 0 {
      MulAdd(A, B - 1, 2 * M);
      PairsSplit(x, base, M, A, B - 1, K, ksg);
    }
  }

  /** Overwriting nothing leaves s as it is: no pair is finished before the first one runs. */
  lemma OverwriteNothing(s: seq<real>, at: nat, x: seq<real>, base: nat, M: nat, K: int, ksg: Estimator)
    requires at <= |s|
    ensures Overwrite(s, at, Pairs(x, base, M, 0, K, ksg)) == s
  {
    assert s[..at] + [] + s[at..] == s;
  }

  /** Overwriting u at a and then v right after it is overwriting u + v at a. */
  lemma OverwriteAdjacent(s: seq<real>, a: nat, u: seq<real>, v: seq<real>)
    requires a + |u| + |v| <= |s|
    ensures Overwrite(Overwrite(s, a, u), a + |u|, v) == Overwrite(s, a, u + v)
  {
    var t := Overwrite(s, a, u);
    assert t[..a + |u|] == s[..a] + u;
    assert t[a + |u| + |v|..] == s[a + |u| + |v|..];
  }

  /** Storing v into slot at is overwriting [v] at at. */
  lemma OverwriteOne(s: seq<real>, at: nat, v: real)
    requires at < |s|
    ensures s[at := v] == Overwrite(s, at, [v])
  {
    assert s[at := v] == s[..at] + [v] + s[at + 1..];
  }

  /** One iteration of compute_mi_serial: storing the estimate of pair p, whose samples start at
      element from, into slot at = mo + p extends the overwritten block by that estimate. */
  lemma SerialStep(s0: seq<real>, before: seq<real>, after: seq<real>, x: seq<real>, xo: nat, mo: nat,
                   M: nat, p: nat, at: nat, from: nat, K: int, ksg: Estimator)
    requires at == mo + p < |s0| && from == xo + p * (2 * M) && from + 2 * M <= |x|
    requires before == Overwrite(s0, mo, Pairs(x, xo, M, p, K, ksg))
    requires after == before[at := ksg(x[from .. from + 2 * M], M, K)]
    ensures after == Overwrite(s0, mo, Pairs(x, xo, M, p + 1, K, ksg))
  {
    var v := ksg(x[from .. from + 2 * M], M, K);
    var done := Pairs(x, xo, M, p, K, ksg);
    assert Pairs(x, xo, M, p + 1, K, ksg) == done + [v];
    OverwriteAdjacent(s0, mo, done, [v]);
    OverwriteOne(before, at, v);
  }

  /** compute_mi_serial (mi_batch.cpp:10-14) with x at element offset xo and mi at slot offset mo:
      for every even j < N it stores the estimate of the pair starting at column j into slot
      mo + j / 2. Exactly the slots mo .. mo + (N + 1) / 2 - 1 change, each once and in order. */
  method ComputeMiSerial(x: seq<real>, xo: nat, mi: array<real>, mo: nat, M: nat, N: nat, K: int, ksg: Estimator)
    returns (ghost written: seq<nat>)
    requires xo + PairCount(N) * (2 * M) <= |x|
    requires mo + PairCount(N) <= mi.Length
    modifies mi
    ensures mi[..] == Overwrite(old(mi[..]), mo, Pairs(x, xo, M, PairCount(N), K, ksg))
    ensures IsSlots(written, mo, PairCount(N))
  {
    ghost var s0 := mi[..];
    OverwriteNothing(s0, mo, x, xo, M, K, ksg);
    written := [];
    var j: nat := 0;
    ghost var p: nat := 0;
    while j < N
      invariant j == 2 * p && p <= PairCount(N)
      invariant mi[..] == Overwrite(s0, mo, Pairs(x, xo, M, p, K, ksg))
      invariant IsSlots(written, mo, p)
    {
      SerialBounds(xo, j, p, M, PairCount(N), |x|);
      ghost var before := mi[..];
      mi[mo + j / 2] := ksg(x[xo + j * M .. xo + j * M + 2 * M], M, K);
      SerialStep(s0, before, mi[..], x, xo, mo, M, p, mo + j / 2, xo + j * M, K, ksg);
      SlotsAppend(written, [mo + j / 2], mo, p, 1);
      written := written + [mo + j / 2];
      j, p := j + 2, p + 1;
    }
    assert p == PairCount(N);
  }

  /** Running one block of n pairs right after the first d pairs extends the finished prefix of
      the output to d + n pairs. The block is the call compute_mi_serial(&x[from], &mi[at], M,
      cols, K) with at the slot and from the element where pair d starts. */
  lemma BlockStep(s0: seq<real>, mid: seq<real>, after: seq<real>, x: seq<real>, M: nat, d: nat, n: nat,
                  at: nat, from: nat, cols: nat, K: int, ksg: Estimator)
    requires d + n <= |s0| && at == d && from == d * (2 * M) && PairCount(cols) == n
    requires mid == Overwrite(s0, 0, Pairs(x, 0, M, d, K, ksg))
    requires after == Overwrite(mid, at, Pairs(x, from, M, PairCount(cols), K, ksg))
    ensures after == Overwrite(s0, 0, Pairs(x, 0, M, d + n, K, ksg))
  {
    PairsSplit(x, 0, M, d, n, K, ksg);
    OverwriteAdjacent(s0, 0, Pairs(x, 0, M, d, K, ksg), Pairs(x, d * (2 * M), M, n, K, ksg));
  }

  /** One block of compute_mi_parallel: compute_mi_serial(&x[xo], &mi[mo], M, cols, K) on a
      block of n = (cols + 1) / 2 pairs that starts right after the first d finished pairs. The
      finished prefix of the output grows to d + n pairs, and exactly the slots d .. d + n - 1 are
      written, in order. */
  method RunBlock(x: seq<real>, xo: nat, mi: array<real>, mo: nat, M: nat, cols: nat, K: int, ksg: Estimator,
                  ghost s0: seq<real>, ghost d: nat, ghost n: nat)
    returns (ghost written: seq<nat>)
    requires mo == d && xo == d * (2 * M) && PairCount(cols) == n && xo + n * (2 * M) <= |x|
    requires d + n <= mi.Length == |s0|
    requires mi[..] == Overwrite(s0, 0, Pairs(x, 0, M, d, K, ksg))
    modifies mi
    ensures mi[..] == Overwrite(s0, 0, Pairs(x, 0, M, d + n, K, ksg))
    ensures IsSlots(written, d, n)
  {
    ghost var mid := mi[..];
    written := ComputeMiSerial(x, xo, mi, mo, M, cols, K, ksg);
    BlockStep(s0, mid, mi[..], x, M, d, n, mo, xo, cols, K, ksg);
  }

  /** Worker thread k of compute_mi_parallel (mi_batch.cpp:25-27): with i = N_part * k it runs
      compute_mi_serial(&x[i * M], &mi[i / 2], M, N_part, K). Its N_part / 2 pairs follow the
      d = (N_part / 2) * k pairs of the workers before it; it writes slots d .. d + N_part / 2 - 1,
      in order. */
  method RunWorker(x: seq<real>, mi: array<real>, M: nat, N: nat, K: int, T: int, k: nat,
                   nRes: nat, nPart: nat, ksg: Estimator, ghost s0: seq<real>, ghost d: nat)
    returns (ghost written: seq<nat>)
    requires T >= 1 && N % 2 == 0 && nPart % 2 == 0 && nPart * T + nRes == N
    requires k < T && d == (nPart / 2) * k && d <= N / 2
    requires N * M <= |x| && N / 2 <= mi.Length == |s0|
    requires mi[..] == Overwrite(s0, 0, Pairs(x, 0, M, d, K, ksg))
    modifies mi
    ensures d + nPart / 2 == (nPart / 2) * (k + 1) <= N / 2
    ensures mi[..] == Overwrite(s0, 0, Pairs(x, 0, M, d + nPart / 2, K, ksg))
    ensures IsSlots(written, d, nPart / 2)
  {
    var i := nPart * k;
    WorkerBounds(N, T, k, M, nPart, nRes, |x|);
    written := RunBlock(x, i * M, mi, i / 2, M, nPart, K, ksg, s0, d, nPart / 2);
  }

  /** The calling thread's share of compute_mi_parallel (mi_batch.cpp:29-30): with the T worker
      blocks done, i = N_part * T (the value k has after the launch loop), and if i < N the N_res columns from column i go
      through compute_mi_serial. Afterwards all N / 2 pairs are finished; the slots written here
      are d .. N / 2 - 1, in order. */
  method RunRemainder(x: seq<real>, mi: array<real>, M: nat, N: nat, K: int, T: int,
                      nRes: nat, nPart: nat, ksg: Estimator, ghost s0: seq<real>, ghost d: nat)
    returns (ghost written: seq<nat>)
    requires T >= 1 && N % 2 == 0 && nPart % 2 == 0 && nRes % 2 == 0 && nPart * T + nRes == N
    requires d == (nPart / 2) * T && d <= N / 2
    requires N * M <= |x| && N / 2 <= mi.Length == |s0|
    requires mi[..] == Overwrite(s0, 0, Pairs(x, 0, M, d, K, ksg))
    modifies mi
    ensures mi[..] == Overwrite(s0, 0, Pairs(x, 0, M, N / 2, K, ksg))
    ensures IsSlots(written, d, N / 2 - d)
  {
    var i := nPart * T;
    RemainderBounds(N, T, M, nPart, nRes, |x|);
    written := [];
    if i < N {
      written := RunBlock(x, i * M, mi, i / 2, M, nRes, K, ksg, s0, d, nRes / 2);
    }
  }

  /** The launch loop of compute_mi_parallel (mi_batch.cpp:23-28): workers k = 0 .. T - 1, each
      on its block of N_part columns, one after another. Afterwards the first (N_part / 2) * T
      pairs are finished, and those slots were written once each, in order. */
  method RunWorkers(x: seq<real>, mi: array<real>, M: nat, N: nat, K: int, T: int,
                    nRes: nat, nPart: nat, ksg: Estimator)
    returns (ghost written: seq<nat>)
    requires T >= 1 && N % 2 == 0 && nPart % 2 == 0 && nPart * T + nRes == N
    requires N * M <= |x| && N / 2 <= mi.Length
    modifies mi
    ensures (nPart / 2) * T <= N / 2
    ensures mi[..] == Overwrite(old(mi[..]), 0, Pairs(x, 0, M, (nPart / 2) * T, K, ksg))
    ensures IsSlots(written, 0, (nPart / 2) * T)
  {
    ghost var s0 := mi[..];
    OverwriteNothing(s0, 0, x, 0, M, K, ksg);
    ghost var d: nat := 0;
    written := [];
    var k := 0;
    while k < T
      invariant 0 <= k <= T && d == (nPart / 2) * k && d <= N / 2
      invariant mi[..] == Overwrite(s0, 0, Pairs(x, 0, M, d, K, ksg))
      invariant IsSlots(written, 0, d)
    {
      var w := RunWorker(x, mi, M, N, K, T, k, nRes, nPart, ksg, s0, d);
      SlotsAppend(written, w, 0, d, nPart / 2);
      written := written + w;
      k, d := k + 1, d + nPart / 2;
    }
  }

  /** compute_mi_parallel (mi_batch.cpp:16-33) for N even and T >= 1 worker threads. Worker k
      runs compute_mi_serial on the N_part columns from column N_part * k into the slots from
      N_part * k / 2; afterwards the calling thread does the same for the N_res columns from
      column N_part * T, if any are left. The threads are composed in sequence. The result is
      what compute_mi_serial over all N columns stores, and every slot 0 .. N / 2 - 1 is written
      exactly once. */
  method ComputeMiParallel(x: seq<real>, mi: array<real>, M: nat, N: nat, K: int, T: int, ksg: Estimator)
    returns (ghost written: seq<nat>)
    requires T >= 1
    requires N % 2 == 0
    requires N * M <= |x|
    requires N / 2 <= mi.Length
    modifies mi
    ensures mi[..] == Overwrite(old(mi[..]), 0, Pairs(x, 0, M, N / 2, K, ksg))
    ensures IsSlots(written, 0, N / 2)
  {
    ghost var s0 := mi[..];
    var nRes, nPart := SplitColumns(N, T);
    written := RunWorkers(x, mi, M, N, K, T, nRes, nPart, ksg);
    ghost var d := (nPart / 2) * T;
    var w := RunRemainder(x, mi, M, N, K, T, nRes, nPart, ksg, s0, d);
    SlotsAppend(written, w, 0, d, N / 2 - d);
    written := written + w;
  }
}
