/** Whole runs of the five benchmarks between one sender and one receiver, in the order of their collectives.
    Module Interleaved shows that with any number of receivers and any overlap nothing changes. */
module Engines {
  import opened Iovec
  import opened Script
  import opened Shmem
  import opened Pipeline
  import opened Cma

  /** A receiver's memory after `iters` transfers of one message. */
  function AfterIterations(mem: seq<byte>, v: seq<IoVec>, msg: seq<byte>, iters: nat): (r: seq<byte>)
    requires |msg| == Total(v)
    ensures |r| == |mem|
  {
    if iters == 0 then mem else Unpacked(AfterIterations(mem, v, msg, iters - 1), v, msg, Total(v))
  }

  lemma UnpackedPrefix(mem: seq<byte>, v: seq<IoVec>, data: seq<byte>, data': seq<byte>, n: nat)
    requires n <= Total(v) && n <= |data| && n <= |data'| && data[..n] == data'[..n]
    ensures Unpacked(mem, v, data, n) == Unpacked(mem, v, data', n)
  {
    assert forall k :: 0 <= k < n ==> data[k] == data[..n][k] == data'[k];
  }

  /** Unpacking from a region that holds the message at its front is unpacking the message. */
  lemma RegionHoldsMessage(mem: seq<byte>, v: seq<IoVec>, region: seq<byte>, msg: seq<byte>)
    requires |msg| == Total(v) <= |region|
    ensures Unpacked(mem, v, Splice(region, 0, msg), Total(v)) == Unpacked(mem, v, msg, Total(v))
  {
    UnpackedPrefix(mem, v, Splice(region, 0, msg), msg, Total(v));
  }

  /** Layouts may differ: if the receiver's blocks are disjoint, they hold the sender's stream afterwards. */
  lemma MessageArrives(mem: seq<byte>, v: seq<IoVec>, msg: seq<byte>, iters: nat)
    requires InMemory(v, |mem|) && |msg| == Total(v) && Disjoint(v) && iters > 0
    ensures Packed(AfterIterations(mem, v, msg, iters), v) == msg
  {
    DisjointRoundTrips(AfterIterations(mem, v, msg, iters - 1), v, msg);
  }

  lemma OneMoreTransfer(mem: seq<byte>, was: seq<byte>, base: nat, bs: nat, n: nat, msg: seq<byte>)
    requires base + n * bs <= |mem| && |msg| == n * bs && (was == mem || was == Splice(mem, base, msg))
    ensures Total(Uniform(base, bs, n)) == n * bs
    ensures Unpacked(was, Uniform(base, bs, n), msg, n * bs) == Splice(mem, base, msg)
  {
    UniformBuffer(was, base, bs, n, msg);
    SpliceAgain(mem, base, msg, msg);
  }

  /** Consecutive blocks: any positive number of transfers leaves exactly the message in the buffer. */
  lemma {:induction false} AfterIterationsUniform(mem: seq<byte>, base: nat, bs: nat, n: nat, msg: seq<byte>, iters: nat)
    requires base + n * bs <= |mem| && |msg| == n * bs
    ensures Total(Uniform(base, bs, n)) == n * bs
    ensures AfterIterations(mem, Uniform(base, bs, n), msg, iters) == if iters == 0 then mem else Splice(mem, base, msg)
  {
    UniformInMemory(base, bs, n, |mem|);
    if iters == 0 {
    } else {
      AfterIterationsUniform(mem, base, bs, n, msg, iters - 1);
      OneMoreTransfer(mem, AfterIterations(mem, Uniform(base, bs, n), msg, iters - 1), base, bs, n, msg);
    }
  }

  lemma ListBytes(bs: nat, bufsize: nat)
    requires bs > 0
    ensures (bufsize / bs) * bs <= bufsize
    ensures (bufsize / bs) * bs == bufsize <==> bufsize % bs == 0
  {
    assert bufsize == (bufsize / bs) * bs + bufsize % bs;
  }

  /** After a positive number of transfers of the sender's buffer the receiver's buffer equals it. */
  lemma SameBuffer(smem: seq<byte>, rmem: seq<byte>, sbase: nat, rbase: nat, bufsize: nat, bs: nat, iters: nat)
    requires sbase + bufsize <= |smem| && rbase + bufsize <= |rmem| && bs > 0 && iters > 0 && bufsize % bs == 0
    ensures var n := bufsize / bs; var s, r := Uniform(sbase, bs, n), Uniform(rbase, bs, n);
      && InMemory(s, |smem|) && Total(s) == Total(r) == bufsize
      && AfterIterations(rmem, r, Packed(smem, s), iters) == Splice(rmem, rbase, smem[sbase..sbase + bufsize])
      && Packed(smem, s) == smem[sbase..sbase + bufsize]
  {
    ListBytes(bs, bufsize);
    var n := bufsize / bs;
    var msg := smem[sbase..sbase + bufsize];
    UniformBuffer(smem, sbase, bs, n, msg);
    AfterIterationsUniform(rmem, rbase, bs, n, msg, iters);
  }

  // --------------------------------------------------------------------------------------------

  /** Receiver and region after j iterations. */
  ghost predicate Transferred(mem: seq<byte>, shm: seq<byte>, before: seq<byte>, region: seq<byte>, v: seq<IoVec>,
                              msg: seq<byte>, j: nat) {
    && |msg| == Total(v) <= |region|
    && mem == AfterIterations(before, v, msg, j)
    && shm == if j == 0 then region else Splice(region, 0, msg)
  }

  lemma TransferredNext(mem: seq<byte>, shm: seq<byte>, before: seq<byte>, region: seq<byte>, v: seq<IoVec>,
                        msg: seq<byte>, j: nat)
    requires Transferred(mem, shm, before, region, v, msg, j)
    ensures |msg| <= |shm|
    ensures Transferred(Unpacked(mem, v, msg, Total(v)), Splice(shm, 0, msg), before, region, v, msg, j + 1)
  {
    SpliceAgain(region, 0, msg, msg);
  }

  /** benchmark_shmem: `ok` is false when an assert on the transfer size fails. The logs are the actions of the
      sender and of the receiver. */
  method RunShmem(shm: array<byte>, smem: array<byte>, rmem: array<byte>, sliov: seq<IoVec>, rliov: seq<IoVec>,
                  blocksize: nat, bufsize: nat, iters: nat)
    returns (ok: bool, ghost slog: seq<Action>, ghost rlog: seq<Action>)
    requires shm != smem && shm != rmem && smem != rmem && blocksize > 0
    requires |sliov| == |rliov| == bufsize / blocksize && Total(sliov) == Total(rliov) <= shm.Length
    requires InMemory(sliov, smem.Length) && InMemory(rliov, rmem.Length)
    modifies shm, rmem
    ensures ok <==> iters == 0 || Total(sliov) == bufsize
    ensures ok ==> rmem[..] == AfterIterations(old(rmem[..]), rliov, Packed(smem[..], sliov), iters)
    ensures ok ==> shm[..] == if iters == 0 then old(shm[..]) else Splice(old(shm[..]), 0, Packed(smem[..], sliov))
    ensures ok ==> slog == Repeated(SenderScript(1, Total(sliov)), iters)
    ensures ok ==> rlog == Repeated(ReceiverScript(1, Total(sliov)), iters)
  {
    ghost var before, source, region0 := rmem[..], smem[..], shm[..];
    ok, slog, rlog := true, [], [];
    OneChunkScripts(Total(sliov));
    for i := 0 to iters
      invariant shm[..] == if i == 0 then region0 else Splice(region0, 0, Packed(source, sliov))
      invariant slog == Repeated(SenderScript(1, Total(sliov)), i)
      invariant rlog == Repeated(ReceiverScript(1, Total(sliov)), i)
      invariant ok && (i > 0 ==> Total(sliov) == bufsize) && smem[..] == source
      invariant rmem[..] == AfterIterations(before, rliov, Packed(source, sliov), i)
    {
      ghost var region, was := shm[..], rmem[..];
      var nread, log := CopyToShmem(shm, smem, sliov, blocksize, bufsize);
      if nread != bufsize {
        return false, slog, rlog;
      }
      SpliceAgain(region0, 0, Packed(source, sliov), Packed(source, sliov));
      slog := slog + (log + [Bcast] + [Gather]);
      RegionHoldsMessage(was, rliov, region, Packed(source, sliov));
      nread, log := CopyFromShmem(shm, rmem, rliov, blocksize, bufsize);
      if nread != bufsize {
        return false, slog, rlog;
      }
      rlog := rlog + ([Bcast] + log + [Gather]);
    }
  }

  /** One iteration of benchmark_shmem_pip; n is the number of whole chunks. */
  method PipelinedIteration(shm: array<byte>, smem: array<byte>, rmem: array<byte>, sliov: seq<IoVec>,
                            rliov: seq<IoVec>, full: nat, blocksize: nat, bufsize: nat)
    returns (ok: bool, ghost slog: seq<Action>, ghost rlog: seq<Action>)
    requires shm != smem && shm != rmem && smem != rmem && blocksize > 0 && full > 0
    requires |sliov| == |rliov| == bufsize / blocksize && Total(sliov) == Total(rliov) <= shm.Length
    requires InMemory(sliov, smem.Length) && InMemory(rliov, rmem.Length)
    modifies shm, rmem
    ensures ok <==> ChunksFit(sliov, full) && ChunksFit(rliov, full) && Total(sliov) == bufsize
    ensures ok ==> shm[..] == Splice(old(shm[..]), 0, Packed(smem[..], sliov))
    ensures ok ==> rmem[..] == Unpacked(old(rmem[..]), rliov, Packed(smem[..], sliov), Total(rliov))
    ensures ok ==> slog == SenderScript(Chunks(Total(sliov), full), full)
    ensures ok ==> rlog == ReceiverScript(Chunks(Total(sliov), full), full)
  {
    var niov := bufsize / blocksize;
    ghost var msg := Packed(smem[..], sliov);
    var inBounds, iovcnt, nread;
    inBounds, iovcnt, nread, slog := PackPipelined(shm, smem, sliov, full, blocksize, bufsize);
    rlog := [];
    if !inBounds || iovcnt != niov || nread != bufsize {
      return false, slog, rlog;
    }
    var packed := shm[..];
    inBounds, iovcnt, nread, rlog := UnpackPipelined(rmem, rliov, full, blocksize, bufsize, _ => packed, msg);
    if !inBounds || iovcnt != niov || nread != bufsize {
      return false, slog, rlog;
    }
    return true, slog, rlog;
  }

  /** benchmark_shmem_pip: `ok` is false when a loop is about to leave its block list or an assert fails. */
  method RunPipelined(shm: array<byte>, smem: array<byte>, rmem: array<byte>, sliov: seq<IoVec>, rliov: seq<IoVec>,
                      full: nat, blocksize: nat, bufsize: nat, iters: nat)
    returns (ok: bool, ghost slog: seq<Action>, ghost rlog: seq<Action>)
    requires shm != smem && shm != rmem && smem != rmem && blocksize > 0 && full > 0
    requires |sliov| == |rliov| == bufsize / blocksize && Total(sliov) == Total(rliov) <= shm.Length
    requires InMemory(sliov, smem.Length) && InMemory(rliov, rmem.Length)
    modifies shm, rmem
    ensures ok <==> iters == 0 || (ChunksFit(sliov, full) && ChunksFit(rliov, full) && Total(sliov) == bufsize)
    ensures ok ==> rmem[..] == AfterIterations(old(rmem[..]), rliov, Packed(smem[..], sliov), iters)
    ensures ok ==> shm[..] == if iters == 0 then old(shm[..]) else Splice(old(shm[..]), 0, Packed(smem[..], sliov))
    ensures ok ==> slog == Repeated(SenderScript(Chunks(Total(sliov), full), full), iters)
    ensures ok ==> rlog == Repeated(ReceiverScript(Chunks(Total(sliov), full), full), iters)
  {
    ghost var before, source, region, msg := rmem[..], smem[..], shm[..], Packed(smem[..], sliov);
    ghost var script := SenderScript(Chunks(Total(sliov), full), full);
    ghost var script' := ReceiverScript(Chunks(Total(sliov), full), full);
    ghost var fits := ChunksFit(sliov, full) && ChunksFit(rliov, full) && Total(sliov) == bufsize;
    ok, slog, rlog := true, [], [];
    for j := 0 to iters
      invariant ok && smem[..] == source
      invariant j > 0 ==> fits
      invariant Transferred(rmem[..], shm[..], before, region, rliov, msg, j)
      invariant slog == Repeated(script, j) && rlog == Repeated(script', j)
    {
      ghost var log, log';
      TransferredNext(rmem[..], shm[..], before, region, rliov, msg, j);
      ok, log, log' := PipelinedIteration(shm, smem, rmem, sliov, rliov, full, blocksize, bufsize);
      if !ok {
        return;
      }
      slog, rlog := slog + log, rlog + log';
    }
  }

  /** benchmark_cma: the receiver reads the sender's memory directly, window by window. The windows of each
      iteration are logged. */
  method RunCma(smem: array<byte>, rmem: array<byte>, sliov: seq<IoVec>, rliov: seq<IoVec>,
                limit: nat, blocksize: nat, bufsize: nat, iters: nat)
    returns (ok: bool, ghost windows: seq<seq<nat>>)
    requires smem != rmem && blocksize > 0 && limit > 0
    requires |rliov| == |sliov| == bufsize / blocksize && Total(sliov) <= bufsize
    requires forall i :: 0 <= i < |rliov| ==> rliov[i].len == sliov[i].len
    requires forall i :: 0 <= i < |sliov| ==> sliov[i].len > 0
    requires InMemory(sliov, smem.Length) && InMemory(rliov, rmem.Length)
    modifies rmem
    ensures Total(rliov) == Total(sliov)
    ensures ok <==> iters == 0 || (WindowsFit(|rliov|, limit) && Total(sliov) == bufsize)
    ensures ok ==> rmem[..] == AfterIterations(old(rmem[..]), rliov, Packed(smem[..], sliov), iters)
    ensures ok ==> |windows| == iters && forall j :: 0 <= j < iters ==> windows[j] == Cuts(|rliov|, limit)
  {
    ghost var before, source := rmem[..], smem[..];
    SameShapeTotal(rliov, sliov);
    ok, windows := true, [];
    for j := 0 to iters
      invariant ok && smem[..] == source
      invariant |windows| == j && forall i :: 0 <= i < j ==> windows[i] == Cuts(|rliov|, limit)
      invariant j > 0 ==> WindowsFit(|rliov|, limit) && Total(sliov) == bufsize
      invariant rmem[..] == AfterIterations(before, rliov, Packed(source, sliov), j)
    {
      var inBounds, totalCopied, remaining, cuts := CmaReceive(rmem, smem, rliov, sliov, limit, blocksize, bufsize);
      if !inBounds || totalCopied != bufsize {
        return false, windows;
      }
      assert cuts == Cuts(|rliov|, limit);
      windows := windows + [cuts];
    }
  }
}
