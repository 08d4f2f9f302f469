/** The MATLAB/Octave entry point mexFunction (mi_2D.cpp:12-65): it resolves the optional
    neighbour and thread-count arguments, rejects bad values, checks that the data matrix has an
    even number of columns, allocates the N / 2-slot result and hands the work either to
    compute_mi_serial or to compute_mi_parallel. The MEX marshalling is replaced by parameters:
    nrhs is the argument count, neighboursArg and threadsArg are the scalars prhs[1] and prhs[2]
    (read only when present), data, M and N are prhs[0]'s buffer, rows and columns, and hw is
    what std::thread::hardware_concurrency() reports. */
module Entry {
  import opened Batch

  /** The four messages mexErrMsgTxt can raise. */
  datatype Failure = MissingData | BadThreadCount | BadNeighbourCount | OddColumnCount

  datatype Result<T> = Ok(value: T) | Err(failure: Failure)

  /** Which batch procedure the call ends in (mi_2D.cpp:61-64). */
  datatype Path = Serial | Parallel(workers: int)

  /** The resolved call: neighbour count K, thread count, number of output slots, procedure. */
  datatype Config = Config(neighbours: int, threads: int, slots: nat, path: Path)

  const DefaultNeighbours: int := 10
  const DefaultThreads: int := 1

  /** The thread count before resolution: prhs[2] if given, else 1 (mi_2D.cpp:29-41). */
  function RequestedThreads(nrhs: nat, threadsArg: int): int
  {
    if nrhs < 3 then DefaultThreads else threadsArg
  }

  /** The neighbour count: prhs[1] if given, else 10 (mi_2D.cpp:29-41). */
  function RequestedNeighbours(nrhs: nat, neighboursArg: int): int
  {
    if nrhs < 2 then DefaultNeighbours else neighboursArg
  }

  /** The sentinel substitution exactly as mi_2D.cpp:48-50 writes it: 0 becomes the hardware
      count and -1 the hardware count minus one; nothing keeps the result positive. */
  function ResolveThreadsAsWritten(requested: int, hw: nat): int
  {
    var n := requested;
    var n' := if n == 0 then hw else n;
    if n' == -1 then hw - 1 else n'
  }

  /** The serial-or-parallel choice of mi_2D.cpp:61-64. */
  function ChoosePath(threads: int, N: nat): Path
  {
    if threads == 1 || N == 2 then Serial else Parallel(threads)
  }

  /** For a thread count that passed the check at mi_2D.cpp:43, the as-written resolution
      yields fewer than one thread exactly when the hardware count is too small for the
      sentinel: 0 on a host reporting 0 cores, -1 on a host reporting 0 or 1. */
  lemma AsWrittenBelowOne(requested: int, hw: nat)
    requires requested >= -1
    ensures ResolveThreadsAsWritten(requested, hw) < 1
        <==> (requested == 0 && hw == 0) || (requested == -1 && hw <= 1)
  {
  }

  /** A concrete call that hands compute_mi_parallel no worker threads: two column pairs, the
      thread argument 0 on a host whose hardware count is 0 (or -1 on a host reporting one core)
      reach the parallel path with T = 0, violating its requirement T >= 1; -1 on a host
      reporting 0 gives T = -1. */
  lemma ParallelWithoutWorkers()
    ensures ChoosePath(ResolveThreadsAsWritten(0, 0), 4) == Parallel(0)
    ensures ChoosePath(ResolveThreadsAsWritten(-1, 1), 4) == Parallel(0)
    ensures ChoosePath(ResolveThreadsAsWritten(-1, 0), 4) == Parallel(-1)
  {
  }

  /** The corrected resolution: as written, but never below one thread, so a host that reports
      too few cores runs serially. Positive requests are kept, 0 means every reported core and
      -1 every reported core but one whenever that is at least one. */
  function ResolveThreads(requested: int, hw: nat): (t: int)
    ensures t >= 1
    ensures requested >= 1 ==> t == requested
    ensures requested == 0 && hw >= 1 ==> t == hw
    ensures requested == -1 && hw >= 2 ==> t == hw - 1
    ensures t != ResolveThreadsAsWritten(requested, hw) <==> ResolveThreadsAsWritten(requested, hw) < 1
    ensures ResolveThreadsAsWritten(requested, hw) < 1 ==> t == 1
  {
    var t := ResolveThreadsAsWritten(requested, hw);
    if t < 1 then 1 else t
  }

  /** The argument handling of mexFunction (mi_2D.cpp:24-64): checks in the source's order,
      defaults, thread resolution (corrected to at least one thread), the even-column check, the
      output size and the choice of procedure. The neighbour count is never compared with M. */
  method Configure(nrhs: nat, neighboursArg: int, threadsArg: int, hw: nat, N: nat) returns (r: Result<Config>)
    ensures r == Err(MissingData) <==> nrhs == 0
    ensures r == Err(BadThreadCount) <==> nrhs > 0 && RequestedThreads(nrhs, threadsArg) < -1
    ensures r == Err(BadNeighbourCount)
        <==> nrhs > 0 && RequestedThreads(nrhs, threadsArg) >= -1 && RequestedNeighbours(nrhs, neighboursArg) <= 0
    ensures r == Err(OddColumnCount)
        <==> nrhs > 0 && RequestedThreads(nrhs, threadsArg) >= -1 && RequestedNeighbours(nrhs, neighboursArg) > 0
             && N % 2 != 0
    ensures r.Ok? <==> nrhs > 0 && RequestedThreads(nrhs, threadsArg) >= -1
                       && RequestedNeighbours(nrhs, neighboursArg) > 0 && N % 2 == 0
    ensures r.Ok? ==> r.value.neighbours == RequestedNeighbours(nrhs, neighboursArg) > 0
    ensures r.Ok? ==> r.value.threads == ResolveThreads(RequestedThreads(nrhs, threadsArg), hw)
    ensures r.Ok? ==> 2 * r.value.slots == N
    ensures r.Ok? ==> (r.value.path == Serial <==> r.value.threads == 1 || N == 2)
    ensures r.Ok? && r.value.path.Parallel? ==> r.value.path.workers == r.value.threads >= 1
    ensures r.Ok? && nrhs < 3 ==> r.value.threads == 1 && r.value.path == Serial
    ensures r.Ok? && ((RequestedThreads(nrhs, threadsArg) == 0 && hw == 0)
                      || (RequestedThreads(nrhs, threadsArg) == -1 && hw <= 1))
            ==> r.value.threads == 1 && r.value.path == Serial
    ensures r.Ok? && nrhs < 2 ==> r.value.neighbours == 10
  {
    if nrhs == 0 {
      return Err(MissingData);
    }
    var nThreads: int;
    var nNeighbours: int;
    if nrhs < 3 {
      nThreads := DefaultThreads;
      if nrhs < 2 {
        nNeighbours := DefaultNeighbours;
      } else {
        nNeighbours := neighboursArg;
      }
    } else {
      nThreads := threadsArg;
      nNeighbours := neighboursArg;
    }
    if nThreads < -1 {
      return Err(BadThreadCount);
    }
    if nNeighbours <= 0 {
      return Err(BadNeighbourCount);
    }
    var threadpool: int := hw;
    if nThreads == 0 {
      nThreads := threadpool;
    }
    if nThreads == -1 {
      nThreads := threadpool - 1;
    }
    if nThreads < 1 {
      nThreads := 1;
    }
    if N % 2 != 0 {
      return Err(OddColumnCount);
    }
    r := Ok(Config(nNeighbours, nThreads, N / 2, ChoosePath(nThreads, N)));
  }

  /** mexFunction (mi_2D.cpp:12-65) end to end: on success the result is a fresh vector of
      N / 2 estimates, slot p holding the estimate of columns 2p and 2p + 1, whichever procedure
      ran; on failure nothing is allocated or computed. */
  method MexFunction(nrhs: nat, neighboursArg: int, threadsArg: int, hw: nat,
                     data: seq<real>, M: nat, N: nat, ksg: Estimator)
    returns (r: Result<array<real>>)
    requires nrhs > 0 ==> |data| == M * N
    ensures r == Err(MissingData) <==> nrhs == 0
    ensures r == Err(BadThreadCount) <==> nrhs > 0 && RequestedThreads(nrhs, threadsArg) < -1
    ensures r == Err(BadNeighbourCount)
        <==> nrhs > 0 && RequestedThreads(nrhs, threadsArg) >= -1 && RequestedNeighbours(nrhs, neighboursArg) <= 0
    ensures r == Err(OddColumnCount)
        <==> nrhs > 0 && RequestedThreads(nrhs, threadsArg) >= -1 && RequestedNeighbours(nrhs, neighboursArg) > 0
             && N % 2 != 0
    ensures r.Ok? <==> nrhs > 0 && RequestedThreads(nrhs, threadsArg) >= -1
                       && RequestedNeighbours(nrhs, neighboursArg) > 0 && N % 2 == 0
    ensures r.Ok? ==> fresh(r.value) && r.value.Length == N / 2
    ensures r.Ok? ==> N * M <= |data|
    ensures r.Ok? ==> r.value[..] == Pairs(data, 0, M, N / 2, RequestedNeighbours(nrhs, neighboursArg), ksg)
  {
    var c := Configure(nrhs, neighboursArg, threadsArg, hw, N);
    if c.Err? {
      return Err(c.failure);
    }
    var cfg := c.value;
    var mi := new real[cfg.slots];
    ColumnOffset(N, M);
    assert PairCount(N) == N / 2;
    match cfg.path {
      case Serial =>
        var _ := ComputeMiSerial(data, 0, mi, 0, M, N, cfg.neighbours, ksg);
      case Parallel(t) =>
        var _ := ComputeMiParallel(data, mi, M, N, cfg.neighbours, t, ksg);
    }
    ghost var estimates := Pairs(data, 0, M, N / 2, cfg.neighbours, ksg);
    assert mi[..] == Overwrite(mi[..], 0, estimates) == estimates;
    r := Ok(mi);
  }
}
