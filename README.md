# MILCA batch dispatcher, modelled in Dafny

MILCA estimates the mutual information of many pairs of signals with the
Kraskov–Stögbauer–Grassberger (KSG) k-nearest-neighbour estimator. The data matrix is
column-major, with `M` rows and `N` columns. Columns `2p` and `2p + 1` form pair `p`, and
the estimate for pair `p` goes to output slot `p`. This project models the integer logic
around the estimator:

- `partition.dfy` (module `Partition`): the arithmetic of `compute_mi_parallel`. It computes
  `N_res = 2 * ((N / 2) % T)` and `N_part = 2 * (((N - N_res) / 2) / T)`. It places `T`
  worker blocks end to end and gives the rest to the calling thread. It proves which block owns
  each column.
- `batch.dfy` (module `Batch`): `compute_mi_serial` and `compute_mi_parallel` as methods. The
  output `mi` is an array that they update in place. The data matrix `x` is only read (the
  estimator copies the samples it needs into its own buffers), so it is a sequence. A C pointer
  such as `&x[j * M]` or `&mi[i / 2]` becomes the buffer plus an element offset. The
  estimator `compute_mi_2D_ksg` is opaque: it is the function parameter `ksg`. It is applied
  to the `2 * M` samples of one column pair, the row count and the neighbour count.
  The worker threads are composed in sequence, which is sound because they write disjoint
  slots. A ghost log `written` records the order in which slots are written.
- `entry.dfy` (module `Entry`): the argument handling of the MEX entry point `mexFunction`. It
  covers the defaults, the rejections, the `0`/`-1` thread sentinels, the even-column check,
  the output size and the serial-or-parallel choice. It also models the whole call.

The model follows the code. The estimator itself never checks `K < M`, and neither does the
entry point. It only rejects `K <= 0`, so the model does not compare `K` with `M` either.

## Model

| member | source | states |
|---|---|---|
| `Partition.Residual` | mi_batch.cpp:19 | Computes `N_res = 2 * ((N / 2) % T)`. Its properties are stated by `Partition.SplitSizes` and `Partition.SizesUnique`. |
| `Partition.PartSize` | mi_batch.cpp:20 | Computes `N_part = 2 * (((N - N_res) / 2) / T)`. Its properties are stated by `Partition.SplitSizes` and `Partition.SizesUnique`. |
| `Partition.WorkerStart` | mi_batch.cpp:25 | The first column `i = N_part * k` of worker `k`. `Partition.WorkersEndToEnd` places the worker blocks end to end. |
| `Partition.RemainderStart` | mi_batch.cpp:29 | The first column `i = N_part * T` of the calling thread's remainder. `Partition.WorkersEndToEnd` and `Partition.RemainderExactly` state where it lies. |
| `Partition.SplitSizes` | mi_batch.cpp:19-20 | For even `N` and `T >= 1`: `N_part` and `N_res` are even, `N_res < 2 * T`, and `N_part * T + N_res == N`. |
| `Partition.SizesUnique` | mi_batch.cpp:19-20 | For even `N` and `T >= 1`, any even `s` and `r` with `r < 2 * T` and `s * T + r == N` are exactly `N_part` and `N_res`. So those four facts characterize the split. |
| `Partition.SplitColumns` | mi_batch.cpp:19-20 | The two assignments compute even `N_res < 2 * T` and even `N_part` with `N_part * T + N_res == N`. These are the values of `Residual` and `PartSize`, so the ownership lemmas apply to what the method computes. |
| `Partition.WorkersEndToEnd` | mi_batch.cpp:23-27 | Worker `k` starts at column `N_part * k`. Block `j` ends no later than any later block `k` starts, and exactly where block `j + 1` starts. The last worker block ends where the remainder starts. |
| `Partition.RemainderExactly` | mi_batch.cpp:29-30 | The calling thread gets work (`N_part * T < N`) exactly when `N_res > 0`. Its remainder starts at `N_part * T` and ends at `N`. |
| `Partition.Oversubscribed` | mi_batch.cpp:19-30 | When `T > N / 2`: `N_part == 0`, every worker starts at column 0 with an empty block, `N_res == N`, and the calling thread owns every column. |
| `Partition.OwnerUnique` | mi_batch.cpp:23-30 | Every column `c < N` lies in exactly one block, its owner. Block `b <= T` covers `c` iff `b == Owner(N, T, c)`. So the blocks are disjoint and cover everything. |
| `Partition.BlockOfUnique` | mi_batch.cpp:23-27 | For blocks of `s` columns and a worker `b < T`: column `c` lies in `[s * b, s * (b + 1))` iff `BlockOf(s, T, c) == b`. |
| `Partition.BlockOfPair` | mi_batch.cpp:23-30 | With blocks of an even number of columns, columns `2q` and `2q + 1` fall into the same block. |
| `Partition.PairOwner` | mi_batch.cpp:25-30 | Both columns of a pair have the same owner. So each output slot `q < N / 2` is written by exactly one thread. |
| `Batch.Pairs` | mi_batch.cpp:10-14 | The reference result: the list of `P` estimates, one per column pair, that the serial loop produces. Every `ComputeMi*` contract is stated against it. `Batch.PairsAt` gives its entries and `Batch.PairsSplit` shows that it splits into blocks. |
| `Batch.PairsAt` | mi_batch.cpp:12-13 | Entry `p` of the specification `Pairs` is the estimator applied to the `2 * M` samples starting at element `base + 2pM`. These are the two adjacent columns that `compute_mi_2D_ksg` reads. |
| `Batch.PairsSplit` | mi_batch.cpp:25-30 | Estimating `A + B` pairs gives the first `A` estimates followed by the `B` estimates of the pairs that start `A` pairs later. Cutting the columns into blocks changes no estimate. |
| `Batch.OverwriteAdjacent` | mi_batch.cpp:12-13 | Overwriting `u` at slot `a` and then `v` right after it is overwriting `u + v` at `a`. |
| `Batch.SerialStep` | mi_batch.cpp:12-13 | One iteration of the serial loop stores pair `p`'s estimate, read at element `xo + 2pM`, into slot `mo + p`. This turns the output with `p` finished estimates into the output with `p + 1`. |
| `Batch.ComputeMiSerial` | mi_batch.cpp:10-14 | For every even `j < N`, slot `mo + j / 2` gets the estimate of the pair at column `j`. The new `mi` is the old one with exactly slots `mo .. mo + (N + 1) / 2 - 1` replaced. Each slot is written once, in increasing order. |
| `Batch.BlockStep` | mi_batch.cpp:25-30 | A call `compute_mi_serial(&x[from], &mi[at], M, cols, K)` with `at` and `from` the slot and element where pair `d` starts, run right after the first `d` finished pairs, gives the estimates of the first `d + (cols + 1) / 2` pairs. |
| `Batch.WorkerBounds` | mi_batch.cpp:25-27 | With `N_part`, `N_res` as `SplitColumns` characterizes them: worker `k < T` reads from element `N_part * k * M` and writes from slot `N_part * k / 2`. Both are `(N_part / 2) * k` pairs in. Its `N_part / 2` pairs stay inside the `M x N` matrix and the `N / 2` output slots. |
| `Batch.RemainderBounds` | mi_batch.cpp:29-30 | The remainder starts `(N_part / 2) * T` pairs in and covers `N_res / 2` pairs. It ends exactly at pair `N / 2`, which is element `N * M`. It has work (`i < N`) iff `N_res > 0`; otherwise the workers already finished all `N / 2` pairs. |
| `Batch.RunBlock` | mi_batch.cpp:26-27 | One `compute_mi_serial` call on a block of `cols` columns that starts right after the first `d` finished pairs. Afterwards the first `d + (cols + 1) / 2` pairs are finished, and exactly that block's slots were written, once each and in order. |
| `Batch.RunWorker` | mi_batch.cpp:25-27 | Worker `k` with `i = N_part * k` runs `compute_mi_serial(&x[i * M], &mi[i / 2], M, N_part, K)`. It extends the finished prefix from `(N_part / 2) * k` to `(N_part / 2) * (k + 1)` pairs, still within `N / 2`, and writes exactly those slots. |
| `Batch.RunWorkers` | mi_batch.cpp:23-28 | After the launch loop over all `T` workers, the first `(N_part / 2) * T` pairs are finished and the rest of `mi` is untouched. Those slots were written once each, in order. |
| `Batch.RunRemainder` | mi_batch.cpp:29-30 | With the `T` worker blocks done, the calling thread's `if (i < N)` call finishes all `N / 2` pairs. It writes exactly the remaining slots, once each and in order. |
| `Batch.ComputeMiParallel` | mi_batch.cpp:16-33 | For even `N` and `T >= 1`, the `T` worker blocks followed by the remainder store the same estimates in slots `0 .. N / 2 - 1` as the serial loop over all `N` columns. Every other slot is untouched. The write log is `0, 1, ..., N / 2 - 1`, so every slot is written exactly once. |
| `Entry.RequestedThreads` | mi_2D.cpp:29-41 | The thread count before resolution: `prhs[2]` when at least 3 arguments are given, else 1. `Entry.Configure` states the defaults and checks built on it. |
| `Entry.RequestedNeighbours` | mi_2D.cpp:29-41 | The neighbour count: `prhs[1]` when at least 2 arguments are given, else 10. `Entry.Configure` states the defaults and checks built on it. |
| `Entry.ResolveThreadsAsWritten` | mi_2D.cpp:48-50 | The sentinel substitution as the source writes it: 0 becomes the hardware count and -1 becomes the hardware count minus one, with no lower bound. `Entry.AsWrittenBelowOne` and `Entry.ParallelWithoutWorkers` state when it drops below one thread. |
| `Entry.AsWrittenBelowOne` | mi_2D.cpp:43-50 | For a thread argument that passed the `< -1` check, the resolution as written gives fewer than one thread iff the argument is 0 and the hardware count is 0, or the argument is -1 and the hardware count is 0 or 1. |
| `Entry.ParallelWithoutWorkers` | mi_2D.cpp:48-64 | Two column pairs with thread argument 0 on a host reporting 0 cores reach `compute_mi_parallel` with `T = 0`. So does argument -1 with 1 core. Argument -1 with 0 cores gives `T = -1`. |
| `Entry.ResolveThreads` | mi_2D.cpp:48-50 | Corrected resolution, always `>= 1`. A positive request is kept. 0 becomes the hardware count when that is at least 1. -1 becomes the hardware count minus one when that is at least 1. It differs from the as-written value exactly when that value is below 1, and then it is exactly 1. |
| `Entry.Configure` | mi_2D.cpp:24-64 | The checks run in the source's order: missing data, then thread count `< -1`, then neighbour count `<= 0`, then an odd column count. Each failure holds iff its condition does and the earlier checks passed. Defaults are 1 thread when fewer than 3 arguments are given and 10 neighbours when fewer than 2 are given. On success the thread count is resolved and `>= 1`, the output has `N / 2` slots, and the path (mi_2D.cpp:61-64) is serial iff the thread count is 1 or `N == 2`. The parallel path gets exactly the resolved count, which is at least 1. Argument 0 on a host reporting 0 cores, or -1 on a host reporting 0 or 1, runs serially with one thread. |
| `Entry.MexFunction` | mi_2D.cpp:12-65 | With no arguments the call fails before anything is allocated or computed. Otherwise it fails with the message of the first check that fails, in the source's order: thread count `< -1`, then neighbour count `<= 0`, then an odd column count. It succeeds iff every check passes. It then returns a fresh `N / 2`-slot vector whose slot `p` holds the estimate of columns `2p` and `2p + 1`, the same on the serial and the parallel path. |

## Findings

| source | as written | input that shows it | evidently intended | confidence | as-written member | corrected member |
|---|---|---|---|---|---|---|
| mi_2D.cpp:48-64 | The `0`/`-1` sentinels are replaced by `threadpool` and `threadpool - 1` with no lower bound. Any count other than 1 takes the parallel path when `N != 2`. | 3 arguments, thread argument `0`, `hardware_concurrency()` returning 0, and a 4-column matrix. This calls `compute_mi_parallel(..., n_threads = 0)`, which evaluates `(N / 2) % 0` and declares `std::thread t[0]`. Argument `-1` with 1 reported core gives the same call. With 0 reported cores it gives `n_threads = -1`, a negative array size. | The resolved count is at least one thread, so a host reporting too few cores runs serially. | not executed; high | `Entry.ParallelWithoutWorkers` | `Entry.ResolveThreads` |

## Left out

- The KSG estimator `compute_mi_2D_ksg` and `mi2r` are left out. That covers the digamma table, the tie-break offset `-(N - 5) / DBL_MAX` and the neighbour search. They are double-precision numerics, and `mi2r` lives in `miutils.h`, which is not part of this model. The estimator is the opaque parameter `ksg`.
- Doubles are modelled as `real`. The estimator is opaque, so no floating-point behaviour is involved.
- Thread creation and `join` are not modelled. The workers and the calling thread's remainder run in sequence. The source does that work concurrently, but the blocks are disjoint, as `Partition.OwnerUnique` shows.
- The MEX API calls are left out: `mxGetPr`, `mxGetScalar`, `mxGetM`, `mxGetN`, `mxCreateDoubleMatrix` and `mexErrMsgTxt`. Arguments are plain parameters, and errors are the `Failure` values of a `Result`. The double-to-int truncation of `mxGetScalar` is not modelled.
- `std::thread::hardware_concurrency()` is the parameter `hw: nat`. Its conversion from `unsigned` to `int` for values above `2^31 - 1` is not modelled.
- C `int` overflow of `j * M`, `N_part * k` and `i * M` is not modelled. The model uses unbounded integers.
- `Entry.Configure`, `Entry.MexFunction`: use the corrected thread resolution, which keeps at least one thread (see Findings). The as-written resolution is `Entry.ResolveThreadsAsWritten`.
- The data matrix is a read-only sequence, so writes to `mi` that alias `x` are not modelled. The C code does not check that the two buffers are distinct, but its only caller passes a fresh output vector.
- `Batch.ComputeMiParallel`: requires `N` even, as its only caller guarantees. What it would do with an odd column count (the last column is dropped) is not modelled.
- `mi_batch.hpp` holds only declarations.
