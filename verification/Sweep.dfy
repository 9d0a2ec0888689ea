/** The block-size sweep of the unified benchmark, with every size check the program makes or relies on. */
module Sweep {
  import opened Iovec
  import opened Arithmetic
  import opened Pages
  import opened Pipeline
  import opened Script
  import opened Protocol
  import opened ProtocolTheorems
  import opened Cma
  import opened Xpmem
  import opened XpmemEngines
  import opened PageMemo
  import opened Engines
  import opened Interleaved

  /** NUM_ITER + SKIP_ITER */
  const ITERS := 110
  /** SHMEM_PIPELINE_DEPTH */
  const DEPTH := 65536
  /** sizeof(struct iovec) */
  const IOVEC_SIZE := 16

  /** What must hold of one block size, with n = bufsize / bs blocks, for all five engines to run to the end
      with every assert true. */
  predicate CountsSafe(bufsize: nat, bs: nat, n: nat, page: nat, limit: nat)
    requires bs > 0 && limit > 0
  {
    && bufsize % bs == 0
    && bufsize % DEPTH == 0
    && WindowsFit(n, limit)
    && n * IOVEC_SIZE <= INT_MAX
    && SizesSafe(bs, n, page)
  }

  predicate StepSafe(bufsize: nat, bs: nat, page: nat, limit: nat)
    requires bs > 0 && limit > 0
  {
    CountsSafe(bufsize, bs, bufsize / bs, page, limit)
  }

  /** Where lbuf lies in the two processes. posix_memalign puts it on a page boundary, memory is mapped in
      whole pages, and page 0 is never mapped. */
  ghost predicate Layout(ssize: nat, rsize: nat, sbase: nat, rbase: nat, bufsize: nat, page: nat) {
    && IsPageSize(page) && page > 0
    && sbase > 0 && sbase % page == 0 && ssize % page == 0 && sbase + bufsize <= ssize
    && rbase + bufsize <= rsize
  }

  // --------------------------------------------------------------------------------------------
  // Facts about the lists of one step.

  lemma StepLists(ssize: nat, rsize: nat, sbase: nat, rbase: nat, bufsize: nat, bs: nat, page: nat)
    requires Layout(ssize, rsize, sbase, rbase, bufsize, page) && bs > 0
    ensures var n := bufsize / bs; var s, r := Uniform(sbase, bs, n), Uniform(rbase, bs, n);
      && InMemory(s, ssize) && InMemory(r, rsize)
      && Total(s) == Total(r) == n * bs <= bufsize
      && SameShape(r, s)
      && (Total(s) == bufsize <==> bufsize % bs == 0)
  {
    ListBytes(bs, bufsize);
    UniformInMemory(sbase, bs, bufsize / bs, ssize);
    UniformInMemory(rbase, bs, bufsize / bs, rsize);
  }

  lemma PageInMemory(a: nat, page: nat, size: nat)
    requires IsPageSize(page) && page > 0 && size % page == 0 && a < size
    ensures PageBase(a, page) + page <= size
  {
    PageBaseIs(a, page);
    QuotientForm(size, page);
    var p, s := a / page, size / page;
    if p >= s {
      MulMonotone(s, p, page);
    } else {
      MulStep(p, page);
      MulMonotone(p + 1, s, page);
    }
  }

  lemma StepPages(ssize: nat, rsize: nat, sbase: nat, rbase: nat, bufsize: nat, bs: nat, page: nat)
    requires Layout(ssize, rsize, sbase, rbase, bufsize, page) && bs > 0
    ensures PagesMapped(Uniform(sbase, bs, bufsize / bs), page, ssize)
  {
    StepLists(ssize, rsize, sbase, rbase, bufsize, bs, page);
    var v := Uniform(sbase, bs, bufsize / bs);
    forall i | 0 <= i < |v| && Small(v[i], page)
      ensures PageBase(v[i].base, page) + page <= ssize
    {
      assert v[i].base + v[i].len <= ssize;
      PageInMemory(v[i].base, page, ssize);
    }
  }

  lemma UniformChunksFit(base: nat, bs: nat, n: nat, full: nat)
    requires bs > 0 && full > 0
    ensures ChunksFit(Uniform(base, bs, n), full) <==> (n * bs) % full == 0
  {
    UniformOffset(base, bs, n, n);
    if n == 0 {
      DivisionUnique(0, full, 0, 0);
    }
  }

  // --------------------------------------------------------------------------------------------
  // The five engines on one block size. Each clears the receiver's buffer and leaves the sender's in it.

  /** The loop that fills liov. */
  method InitList(base: nat, bs: nat, n: nat) returns (liov: seq<IoVec>)
    ensures liov == Uniform(base, bs, n)
  {
    liov := [];
    for i := 0 to n
      invariant |liov| == i && forall k :: 0 <= k < i ==> liov[k] == IoVec(base + k * bs, bs)
    {
      liov := liov + [IoVec(base + i * bs, bs)];
    }
  }

  function Zeros(len: nat): (z: seq<byte>)
    ensures |z| == len && forall i :: 0 <= i < len ==> z[i] == 0
  {
    seq(len, _ => 0)
  }

  /** memset(lbuf, 0, bufsize) */
  method Clear(mem: array<byte>, at: nat, len: nat)
    requires at + len <= mem.Length
    modifies mem
    ensures mem[..] == Splice(old(mem[..]), at, Zeros(len))
  {
    forall i | 0 <= i < len {
      mem[at + i] := 0;
    }
  }

  ghost predicate Delivered(rmem: seq<byte>, rbase: nat, msg: seq<byte>, before: seq<byte>) {
    rbase + |msg| <= |before| && rmem == Splice(before, rbase, msg)
  }

  method StepShmem(smem: array<byte>, rmem: array<byte>, sbase: nat, rbase: nat, bs: nat, bufsize: nat, page: nat,
                   sliov: seq<IoVec>, rliov: seq<IoVec>)
    returns (ok: bool, ghost start: seq<byte>, ghost slog: seq<Action>, ghost rlog: seq<Action>)
    requires smem != rmem && bs > 0 && Layout(smem.Length, rmem.Length, sbase, rbase, bufsize, page)
    requires sliov == Uniform(sbase, bs, bufsize / bs) && rliov == Uniform(rbase, bs, bufsize / bs)
    modifies rmem
    ensures ok <==> bufsize % bs == 0
    ensures ok ==> start == Splice(old(rmem[..]), rbase, Zeros(bufsize))
    ensures ok ==> rmem[..] == Splice(start, rbase, smem[sbase..sbase + bufsize])
    ensures ok ==> slog == Repeated(SenderScript(1, bufsize), ITERS)
    ensures ok ==> rlog == Repeated(ReceiverScript(1, bufsize), ITERS)
  {
    ghost var source := smem[..];
    StepLists(smem.Length, rmem.Length, sbase, rbase, bufsize, bs, page);
    var shm := new byte[bufsize];
    Clear(rmem, rbase, bufsize);
    start := rmem[..];
    ok, slog, rlog := RunShmem(shm, smem, rmem, sliov, rliov, bs, bufsize, ITERS);
    if ok {
      SameBuffer(source, start, sbase, rbase, bufsize, bs, ITERS);
      assert smem[sbase..sbase + bufsize] == source[sbase..sbase + bufsize];
    }
  }

  method StepPipelined(smem: array<byte>, rmem: array<byte>, sbase: nat, rbase: nat, bs: nat, bufsize: nat, page: nat,
                   sliov: seq<IoVec>, rliov: seq<IoVec>)
    returns (ok: bool, ghost start: seq<byte>, ghost slog: seq<Action>, ghost rlog: seq<Action>)
    requires smem != rmem && bs > 0 && Layout(smem.Length, rmem.Length, sbase, rbase, bufsize, page)
    requires sliov == Uniform(sbase, bs, bufsize / bs) && rliov == Uniform(rbase, bs, bufsize / bs)
    modifies rmem
    ensures ok <==> bufsize % bs == 0 && bufsize % DEPTH == 0
    ensures ok ==> start == Splice(old(rmem[..]), rbase, Zeros(bufsize))
    ensures ok ==> rmem[..] == Splice(start, rbase, smem[sbase..sbase + bufsize])
    ensures ok ==> slog == Repeated(SenderScript(bufsize / DEPTH, DEPTH), ITERS)
    ensures ok ==> rlog == Repeated(ReceiverScript(bufsize / DEPTH, DEPTH), ITERS)
  {
    ghost var source := smem[..];
    StepLists(smem.Length, rmem.Length, sbase, rbase, bufsize, bs, page);
    UniformChunksFit(sbase, bs, bufsize / bs, DEPTH);
    UniformChunksFit(rbase, bs, bufsize / bs, DEPTH);
    var shm := new byte[bufsize];
    Clear(rmem, rbase, bufsize);
    start := rmem[..];
    ok, slog, rlog := RunPipelined(shm, smem, rmem, sliov, rliov, DEPTH, bs, bufsize, ITERS);
    if ok {
      SameBuffer(source, start, sbase, rbase, bufsize, bs, ITERS);
      assert smem[sbase..sbase + bufsize] == source[sbase..sbase + bufsize];
    }
  }

  /** The block list is broadcast first, as nblocks * sizeof(struct iovec) bytes. */
  method StepCma(smem: array<byte>, rmem: array<byte>, sbase: nat, rbase: nat, bs: nat, bufsize: nat, page: nat,
                 limit: nat, sliov: seq<IoVec>, rliov: seq<IoVec>)
    returns (ok: bool, ghost start: seq<byte>, ghost windows: seq<seq<nat>>)
    requires smem != rmem && bs > 0 && limit > 0 && Layout(smem.Length, rmem.Length, sbase, rbase, bufsize, page)
    requires sliov == Uniform(sbase, bs, bufsize / bs) && rliov == Uniform(rbase, bs, bufsize / bs)
    modifies rmem
    ensures ok <==> (bufsize / bs) * IOVEC_SIZE <= INT_MAX && WindowsFit(bufsize / bs, limit) && bufsize % bs == 0
    ensures ok ==> start == Splice(old(rmem[..]), rbase, Zeros(bufsize))
    ensures ok ==> rmem[..] == Splice(start, rbase, smem[sbase..sbase + bufsize])
    ensures ok ==> |windows| == ITERS && forall j :: 0 <= j < ITERS ==> windows[j] == Cuts(bufsize / bs, limit)
  {
    ghost var source := smem[..];
    StepLists(smem.Length, rmem.Length, sbase, rbase, bufsize, bs, page);
    if |sliov| * IOVEC_SIZE > INT_MAX {
      return false, [], [];
    }
    Clear(rmem, rbase, bufsize);
    start := rmem[..];
    ok, windows := RunCma(smem, rmem, sliov, rliov, limit, bs, bufsize, ITERS);
    if ok {
      SameBuffer(source, start, sbase, rbase, bufsize, bs, ITERS);
      assert smem[sbase..sbase + bufsize] == source[sbase..sbase + bufsize];
    }
  }

  lemma XpmemSizes(reuse: bool, sbase: nat, bs: nat, bufsize: nat, page: nat)
    requires IsPageSize(page) && page > 0 && sbase % page == 0 && sbase > 0 && bs > 0 && bufsize > 0 && bufsize % bs == 0
    ensures var v := Uniform(sbase, bs, bufsize / bs);
      && (NocacheSafe(v, page, ITERS) <==> SizesSafe(bs, bufsize / bs, page))
      && (CachedSafe(v, page, ITERS) <==> CachedSizesSafe(bs, bufsize / bs, page))
      && StaleShowsInRun(reuse, v, page)
  {
    UniformStaleShows(reuse, sbase, bs, bufsize / bs, page);
    ListBytes(bs, bufsize);
    NocacheSafeSizes(sbase, bs, bufsize / bs, page, ITERS);
    CachedSafeSizes(sbase, bs, bufsize / bs, page, ITERS);
  }

  /** Both XPMEM engines broadcast the sender's list over the receiver's, and write lbuf front to back. */
  method StepXpmem(drv: Driver, smem: array<byte>, rmem: array<byte>, sbase: nat, rbase: nat, bs: nat, bufsize: nat,
                   page: nat, cached: bool, iov: seq<IoVec>)
    returns (ok: bool, ghost start: seq<byte>)
    requires smem != rmem && bs > 0 && Layout(smem.Length, rmem.Length, sbase, rbase, bufsize, page)
    requires bufsize > 0 && bufsize % bs == 0 && iov == Uniform(sbase, bs, bufsize / bs)
    requires drv.Valid() && Mapped(drv.live, smem.Length)
    modifies drv, rmem
    ensures drv.Valid() && Mapped(drv.live, smem.Length)
    ensures ok <==> (bufsize / bs) * IOVEC_SIZE <= INT_MAX
                    && if cached then CachedSizesSafe(bs, bufsize / bs, page) else SizesSafe(bs, bufsize / bs, page)
    ensures ok ==> drv.live == old(drv.live)
    ensures ok ==> start == Splice(old(rmem[..]), rbase, Zeros(bufsize))
    ensures ok ==> rmem[..] == Splice(start, rbase, smem[sbase..sbase + bufsize])
    ensures ok ==> drv.attaches == old(drv.attaches) + (if cached then 1 else ITERS) * TableCalls(bs, bufsize / bs, page)
  {
    ghost var source := smem[..];
    StepLists(smem.Length, rmem.Length, sbase, rbase, bufsize, bs, page);
    StepPages(smem.Length, rmem.Length, sbase, rbase, bufsize, bs, page);
    XpmemSizes(drv.reuse, sbase, bs, bufsize, page);
    if |iov| * IOVEC_SIZE > INT_MAX {
      return false, [];
    }
    Clear(rmem, rbase, bufsize);
    start := rmem[..];
    ghost var views;
    if cached {
      ok, views := RunCached(drv, smem, iov, page, rmem, rbase, ITERS);
    } else {
      ghost var tables;
      ok, views, tables := RunNocache(drv, smem, iov, page, rmem, rbase, ITERS);
    }
    if ok {
      SameBuffer(source, start, sbase, rbase, bufsize, bs, ITERS);
      TableCallsOfSizes(sbase, bs, bufsize / bs, page);
      assert smem[sbase..sbase + bufsize] == source[sbase..sbase + bufsize];
    }
  }

  /** What one block size leaves behind: the receiver's memory when each of the five engines starts its loop and
      when it ends; the actions of sender and receiver in the two shared-memory engines; the windows of the CMA
      engine in every iteration. (The attach calls of the XPMEM engines are counted by the driver.) */
  datatype StepRecord = StepRecord(starts: seq<seq<byte>>, views: seq<seq<byte>>,
                                   slog: seq<Action>, rlog: seq<Action>, pslog: seq<Action>, prlog: seq<Action>,
                                   windows: seq<seq<nat>>)

  /** Every engine starts from a cleared buffer and ends with the sender's buffer in place of the receiver's;
      nothing else has changed. */
  ghost predicate AllFiveDelivered(rec: StepRecord, rbase: nat, msg: seq<byte>, before: seq<byte>) {
    && |rec.starts| == |rec.views| == 5
    && (forall e :: 0 <= e < 5 ==> Delivered(rec.starts[e], rbase, Zeros(|msg|), before))
    && (forall e :: 0 <= e < 5 ==> Delivered(rec.views[e], rbase, msg, before))
  }

  /** Every engine has done what it is measured for: ITERS iterations of its own script or windows. */
  ghost predicate AllFiveRan(rec: StepRecord, bufsize: nat, bs: nat, limit: nat)
    requires bs > 0 && limit > 0
  {
    && rec.slog == Repeated(SenderScript(1, bufsize), ITERS)
    && rec.rlog == Repeated(ReceiverScript(1, bufsize), ITERS)
    && rec.pslog == Repeated(SenderScript(bufsize / DEPTH, DEPTH), ITERS)
    && rec.prlog == Repeated(ReceiverScript(bufsize / DEPTH, DEPTH), ITERS)
    && |rec.windows| == ITERS && forall j :: 0 <= j < ITERS ==> rec.windows[j] == Cuts(bufsize / bs, limit)
  }

  lemma OneEngine(v: seq<byte>, was: seq<byte>, start: seq<byte>, view: seq<byte>, rbase: nat, msg: seq<byte>)
    requires rbase + |msg| <= |v| && (was == v || was == Splice(v, rbase, msg))
    requires start == Splice(was, rbase, Zeros(|msg|)) && view == Splice(start, rbase, msg)
    ensures Delivered(start, rbase, Zeros(|msg|), v) && Delivered(view, rbase, msg, v)
  {
    SpliceAgain(v, rbase, msg, Zeros(|msg|));
    SpliceAgain(v, rbase, Zeros(|msg|), msg);
  }

  ghost predicate AllDelivered(mems: seq<seq<byte>>, rbases: seq<nat>, msg: seq<byte>, before: seq<seq<byte>>) {
    && |mems| == |rbases| == |before|
    && forall r :: 0 <= r < |rbases| ==> Delivered(mems[r], rbases[r], msg, before[r])
  }

  /** The shared-memory transfer in chunks of d bytes, with any number of receivers whose buffers may lie
      anywhere, under any interleaving that does not stop early: every receiver gets the sender's buffer. */
  ghost predicate DeliversToAll(smem: seq<byte>, sbase: nat, bufsize: nat, bs: nat, d: nat)
    requires bs > 0 && d > 0 && sbase + bufsize <= |smem|
  {
    forall rbases: seq<nat>, rmems: seq<seq<byte>>, run: seq<State>
      | |rbases| == |rmems| && (forall r :: 0 <= r < |rbases| ==> rbases[r] + bufsize <= |rmems[r]|)
        && IsRun(BufferTransfer(sbase, rbases, bs, bufsize, d, smem, rmems, ITERS), run)
        && Stuck(BufferTransfer(sbase, rbases, bs, bufsize, d, smem, rmems, ITERS), run[|run| - 1]) ::
      AllDelivered(run[|run| - 1].mems, rbases, smem[sbase..sbase + bufsize], rmems)
  }

  lemma RunDeliversToAll(smem: seq<byte>, sbase: nat, bufsize: nat, bs: nat, d: nat, rbases: seq<nat>,
                         rmems: seq<seq<byte>>, run: seq<State>)
    requires bs > 0 && d > 0 && bufsize > 0 && sbase + bufsize <= |smem| && bufsize % bs == 0 && bufsize % d == 0
    requires Receivers(rbases, rmems, bufsize)
    requires IsRun(BufferTransfer(sbase, rbases, bs, bufsize, d, smem, rmems, ITERS), run)
    requires Stuck(BufferTransfer(sbase, rbases, bs, bufsize, d, smem, rmems, ITERS), run[|run| - 1])
    ensures AllDelivered(run[|run| - 1].mems, rbases, smem[sbase..sbase + bufsize], rmems)
  {
    var mems, msg := run[|run| - 1].mems, smem[sbase..sbase + bufsize];
    ReceiversOfRun(sbase, rbases, bs, bufsize, d, smem, rmems, ITERS, run);
    forall r | 0 <= r < |rbases|
      ensures Delivered(mems[r], rbases[r], msg, rmems[r])
    {
      EveryReceiverGetsTheBuffer(sbase, rbases, bs, bufsize, d, smem, rmems, ITERS, run, r);
    }
  }

  lemma DividingSizesDeliver(smem: seq<byte>, sbase: nat, bufsize: nat, bs: nat, d: nat)
    requires bs > 0 && d > 0 && bufsize > 0 && sbase + bufsize <= |smem| && bufsize % bs == 0 && bufsize % d == 0
    ensures DeliversToAll(smem, sbase, bufsize, bs, d)
  {
    forall rbases: seq<nat>, rmems: seq<seq<byte>>, run: seq<State>
      | |rbases| == |rmems| && (forall r :: 0 <= r < |rbases| ==> rbases[r] + bufsize <= |rmems[r]|)
        && IsRun(BufferTransfer(sbase, rbases, bs, bufsize, d, smem, rmems, ITERS), run)
        && Stuck(BufferTransfer(sbase, rbases, bs, bufsize, d, smem, rmems, ITERS), run[|run| - 1])
      ensures AllDelivered(run[|run| - 1].mems, rbases, smem[sbase..sbase + bufsize], rmems)
    {
      RunDeliversToAll(smem, sbase, bufsize, bs, d, rbases, rmems, run);
    }
  }

  /** On a safe block size both shared-memory engines deliver to every receiver under every interleaving: the
      pipelined one in chunks of DEPTH bytes, the plain one in a single chunk. */
  lemma StepDeliversToAll(smem: seq<byte>, sbase: nat, bufsize: nat, bs: nat, page: nat, limit: nat)
    requires bs > 0 && limit > 0 && bufsize > 0 && sbase + bufsize <= |smem| && StepSafe(bufsize, bs, page, limit)
    ensures DeliversToAll(smem, sbase, bufsize, bs, DEPTH) && DeliversToAll(smem, sbase, bufsize, bs, bufsize)
  {
    DivisionUnique(bufsize, bufsize, 1, 0);
    DividingSizesDeliver(smem, sbase, bufsize, bs, DEPTH);
    DividingSizesDeliver(smem, sbase, bufsize, bs, bufsize);
  }

  /** One block size: all five engines, in the program's order. */
  method SweepStep(drv: Driver, smem: array<byte>, rmem: array<byte>, sbase: nat, rbase: nat, bs: nat, bufsize: nat,
                   page: nat, limit: nat)
    returns (ok: bool, ghost rec: StepRecord)
    requires smem != rmem && bs > 0 && limit > 0 && bufsize > 0
    requires Layout(smem.Length, rmem.Length, sbase, rbase, bufsize, page)
    requires drv.Valid() && Mapped(drv.live, smem.Length)
    modifies drv, rmem
    ensures drv.Valid() && Mapped(drv.live, smem.Length)
    ensures ok <==> StepSafe(bufsize, bs, page, limit)
    ensures ok ==> drv.live == old(drv.live)
    ensures ok ==> drv.attaches == old(drv.attaches) + (ITERS + 1) * TableCalls(bs, bufsize / bs, page)
    ensures ok ==> |rec.starts| == |rec.views| == 5 && rmem[..] == rec.views[4]
    ensures ok ==> forall e :: 0 <= e < 5 ==> rec.starts[e] == Splice(old(rmem[..]), rbase, Zeros(bufsize))
    ensures ok ==> forall e :: 0 <= e < 5 ==>
              rec.views[e] == Splice(old(rmem[..]), rbase, smem[sbase..sbase + bufsize])
    ensures ok ==> rec.slog == Repeated(SenderScript(1, bufsize), ITERS)
    ensures ok ==> rec.rlog == Repeated(ReceiverScript(1, bufsize), ITERS)
    ensures ok ==> rec.pslog == Repeated(SenderScript(bufsize / DEPTH, DEPTH), ITERS)
    ensures ok ==> rec.prlog == Repeated(ReceiverScript(bufsize / DEPTH, DEPTH), ITERS)
    ensures ok ==> |rec.windows| == ITERS && forall j :: 0 <= j < ITERS ==> rec.windows[j] == Cuts(bufsize / bs, limit)
    ensures ok ==> DeliversToAll(smem[..], sbase, bufsize, bs, DEPTH)
    ensures ok ==> DeliversToAll(smem[..], sbase, bufsize, bs, bufsize)
  {
    ghost var v, msg := rmem[..], smem[sbase..sbase + bufsize];
    ghost var s0, s1, s2, s3, s4, v0, v1, v2, v3;
    rec := StepRecord([], [], [], [], [], [], []);
    var sliov := InitList(sbase, bs, bufsize / bs);
    var rliov := InitList(rbase, bs, bufsize / bs);
    ghost var slog, rlog, pslog, prlog, windows;
    ok, s0, slog, rlog := StepShmem(smem, rmem, sbase, rbase, bs, bufsize, page, sliov, rliov);
    if !ok { return; }
    v0 := rmem[..];
    OneEngine(v, v, s0, v0, rbase, msg);
    ok, s1, pslog, prlog := StepPipelined(smem, rmem, sbase, rbase, bs, bufsize, page, sliov, rliov);
    if !ok { return; }
    v1 := rmem[..];
    OneEngine(v, v0, s1, v1, rbase, msg);
    ok, s2, windows := StepCma(smem, rmem, sbase, rbase, bs, bufsize, page, limit, sliov, rliov);
    if !ok { return; }
    v2 := rmem[..];
    OneEngine(v, v1, s2, v2, rbase, msg);
    ok, s3 := StepXpmem(drv, smem, rmem, sbase, rbase, bs, bufsize, page, false, sliov);
    if !ok { return; }
    v3 := rmem[..];
    OneEngine(v, v2, s3, v3, rbase, msg);
    ok, s4 := StepXpmem(drv, smem, rmem, sbase, rbase, bs, bufsize, page, true, sliov);
    if !ok { return; }
    OneEngine(v, v3, s4, rmem[..], rbase, msg);
    rec := StepRecord([s0, s1, s2, s3, s4], [v0, v1, v2, v3, rmem[..]], slog, rlog, pslog, prlog, windows);
    StepDeliversToAll(smem[..], sbase, bufsize, bs, page, limit);
  }

  // --------------------------------------------------------------------------------------------
  // The sweep.

  /** The i-th block size of the sweep. */
  function BlockSize(minBs: nat, i: nat): (bs: nat)
    requires minBs > 0
    ensures bs > 0
  {
    if i == 0 then minBs else 2 * BlockSize(minBs, i - 1)
  }

  /** blocksize << 1 on a 64-bit size_t; sizes that fit an int do not wrap. */
  function Doubled(bs: nat): (r: nat)
    ensures bs <= INT_MAX ==> r == 2 * bs
  {
    (bs * 2) % 0x1_0000_0000_0000_0000
  }

  lemma {:induction false} BlockSizeGrows(minBs: nat, i: nat, j: nat)
    requires minBs > 0 && i <= j
    ensures BlockSize(minBs, i) <= BlockSize(minBs, j)
  {
    if i == j {
    } else {
      BlockSizeGrows(minBs, i, j - 1);
    }
  }

  /** The attach calls of one block size: one table for every uncached iteration and one for the cached engine. */
  function StepCalls(bufsize: nat, bs: nat, page: nat): nat
    requires bs > 0 && page > 0
  {
    (ITERS + 1) * TableCalls(bs, bufsize / bs, page)
  }

  /** The attach calls of the first i block sizes. */
  function SweepCalls(bufsize: nat, minBs: nat, page: nat, i: nat): nat
    requires minBs > 0 && page > 0
  {
    if i == 0 then 0
    else SweepCalls(bufsize, minBs, page, i - 1) + StepCalls(bufsize, BlockSize(minBs, i - 1), page)
  }

  /** Every block size the loop visits is safe. */
  ghost predicate SweepSafe(bufsize: nat, minBs: nat, maxBs: nat, page: nat, limit: nat)
    requires minBs > 0 && limit > 0
  {
    forall i: nat :: BlockSize(minBs, i) <= maxBs ==> StepSafe(bufsize, BlockSize(minBs, i), page, limit)
  }

  /** The shared-memory engines deliver to every receiver, at every block size the loop visits. */
  ghost predicate SweepDeliversToAll(smem: seq<byte>, sbase: nat, bufsize: nat, minBs: nat, maxBs: nat)
    requires minBs > 0 && bufsize > 0 && sbase + bufsize <= |smem|
  {
    forall i: nat | BlockSize(minBs, i) <= maxBs ::
      && DeliversToAll(smem, sbase, bufsize, BlockSize(minBs, i), DEPTH)
      && DeliversToAll(smem, sbase, bufsize, BlockSize(minBs, i), bufsize)
  }

  lemma SafeSweepDelivers(smem: seq<byte>, sbase: nat, bufsize: nat, minBs: nat, maxBs: nat, page: nat, limit: nat)
    requires minBs > 0 && limit > 0 && bufsize > 0 && sbase + bufsize <= |smem|
    requires SweepSafe(bufsize, minBs, maxBs, page, limit)
    ensures SweepDeliversToAll(smem, sbase, bufsize, minBs, maxBs)
  {
    forall i: nat | BlockSize(minBs, i) <= maxBs
      ensures DeliversToAll(smem, sbase, bufsize, BlockSize(minBs, i), DEPTH)
      ensures DeliversToAll(smem, sbase, bufsize, BlockSize(minBs, i), bufsize)
    {
      StepDeliversToAll(smem, sbase, bufsize, BlockSize(minBs, i), page, limit);
    }
  }

  /** What a complete sweep leaves: for every visited block size, all five engines ran and delivered the sender's
      buffer. */
  ghost predicate SweepDelivered(results: seq<StepRecord>, bufsize: nat, minBs: nat, maxBs: nat, limit: nat, rbase: nat,
                                 msg: seq<byte>, before: seq<byte>)
    requires minBs > 0 && limit > 0
  {
    && (forall i: nat :: i < |results| <==> BlockSize(minBs, i) <= maxBs)
    && (forall i :: 0 <= i < |results| ==> AllFiveDelivered(results[i], rbase, msg, before))
    && (forall i :: 0 <= i < |results| ==> AllFiveRan(results[i], bufsize, BlockSize(minBs, i), limit))
  }

  /** The first i block sizes are done. */
  ghost predicate Swept(results: seq<StepRecord>, bufsize: nat, minBs: nat, maxBs: nat, page: nat, limit: nat,
                        i: nat, rbase: nat, msg: seq<byte>, before: seq<byte>, now: seq<byte>)
    requires minBs > 0 && limit > 0
  {
    && |results| == i
    && (forall k :: 0 <= k < i ==> BlockSize(minBs, k) <= maxBs)
    && (forall k :: 0 <= k < i ==> StepSafe(bufsize, BlockSize(minBs, k), page, limit))
    && (forall k :: 0 <= k < i ==> AllFiveDelivered(results[k], rbase, msg, before))
    && (forall k :: 0 <= k < i ==> AllFiveRan(results[k], bufsize, BlockSize(minBs, k), limit))
    && (if i == 0 then now == before else Delivered(now, rbase, msg, before))
  }

  lemma SweptOneMore(results: seq<StepRecord>, bufsize: nat, minBs: nat, maxBs: nat, page: nat, limit: nat,
                     i: nat, rbase: nat, msg: seq<byte>, before: seq<byte>, mid: seq<byte>, rec: StepRecord)
    requires minBs > 0 && limit > 0
    requires Swept(results, bufsize, minBs, maxBs, page, limit, i, rbase, msg, before, mid)
    requires BlockSize(minBs, i) <= maxBs && StepSafe(bufsize, BlockSize(minBs, i), page, limit)
    requires AllFiveDelivered(rec, rbase, msg, mid) && AllFiveRan(rec, bufsize, BlockSize(minBs, i), limit)
    ensures Swept(results + [rec], bufsize, minBs, maxBs, page, limit, i + 1, rbase, msg, before, rec.views[4])
  {
    if i > 0 {
      forall e | 0 <= e < 5
        ensures Delivered(rec.starts[e], rbase, Zeros(|msg|), before) && Delivered(rec.views[e], rbase, msg, before)
      {
        SpliceAgain(before, rbase, msg, Zeros(|msg|));
        SpliceAgain(before, rbase, msg, msg);
      }
    }
  }

  lemma SweptAll(results: seq<StepRecord>, bufsize: nat, minBs: nat, maxBs: nat, page: nat, limit: nat,
                 i: nat, rbase: nat, msg: seq<byte>, before: seq<byte>, now: seq<byte>)
    requires minBs > 0 && limit > 0
    requires Swept(results, bufsize, minBs, maxBs, page, limit, i, rbase, msg, before, now)
    requires BlockSize(minBs, i) > maxBs
    ensures SweepSafe(bufsize, minBs, maxBs, page, limit)
    ensures SweepDelivered(results, bufsize, minBs, maxBs, limit, rbase, msg, before)
  {
    forall k: nat | k >= i
      ensures BlockSize(minBs, k) > maxBs
    {
      BlockSizeGrows(minBs, i, k);
    }
  }

  /** The body of the main loop. */
  method SweepBody(drv: Driver, smem: array<byte>, rmem: array<byte>, sbase: nat, rbase: nat, bufsize: nat,
                   blocksize: nat, page: nat, limit: nat, ghost minBs: nat, ghost maxBs: nat, ghost i: nat,
                   ghost results: seq<StepRecord>, ghost before: seq<byte>)
    returns (ok: bool, ghost results': seq<StepRecord>)
    requires smem != rmem && limit > 0 && bufsize > 0
    requires Layout(smem.Length, rmem.Length, sbase, rbase, bufsize, page)
    requires drv.Valid() && Mapped(drv.live, smem.Length)
    requires minBs > 0 && blocksize == BlockSize(minBs, i) <= maxBs
    requires Swept(results, bufsize, minBs, maxBs, page, limit, i, rbase, smem[sbase..sbase + bufsize], before, rmem[..])
    modifies drv, rmem
    ensures drv.Valid() && Mapped(drv.live, smem.Length)
    ensures !ok ==> !SweepSafe(bufsize, minBs, maxBs, page, limit)
    ensures ok ==> drv.live == old(drv.live)
    ensures ok ==> drv.attaches == old(drv.attaches) + StepCalls(bufsize, blocksize, page)
    ensures ok ==> Swept(results', bufsize, minBs, maxBs, page, limit, i + 1, rbase, smem[sbase..sbase + bufsize], before,
                         rmem[..])
  {
    ghost var mid, msg := rmem[..], smem[sbase..sbase + bufsize];
    ghost var rec;
    ok, rec := SweepStep(drv, smem, rmem, sbase, rbase, blocksize, bufsize, page, limit);
    results' := results + [rec];
    if ok {
      SweptOneMore(results, bufsize, minBs, maxBs, page, limit, i, rbase, msg, before, mid, rec);
    }
  }

  /** The main loop. Sizes come from atoi, so they fit in an int, and doubling them cannot wrap a size_t.
      `ok` is false when an argument check, an assert or an engine fails. */
  method RunSweep(drv: Driver, smem: array<byte>, rmem: array<byte>, sbase: nat, rbase: nat,
                  bufsize: nat, minBs: nat, maxBs: nat, page: nat, limit: nat)
    returns (ok: bool, ghost results: seq<StepRecord>)
    requires smem != rmem && limit > 0 && bufsize <= INT_MAX
    requires page > 0 && exists k: nat :: page == Pow2(k)
    requires sbase > 0 && sbase % page == 0 && smem.Length % page == 0 && sbase + bufsize <= smem.Length
    requires rbase + bufsize <= rmem.Length
    requires drv.Valid() && Mapped(drv.live, smem.Length)
    modifies drv, rmem
    ensures ok <==> 0 < minBs <= maxBs <= bufsize && SweepSafe(bufsize, minBs, maxBs, page, limit)
    ensures ok ==> drv.live == old(drv.live)
    ensures ok ==> drv.attaches == old(drv.attaches) + SweepCalls(bufsize, minBs, page, |results|)
    ensures ok ==> SweepDelivered(results, bufsize, minBs, maxBs, limit, rbase, smem[sbase..sbase + bufsize], old(rmem[..]))
    ensures ok ==> SweepDeliversToAll(smem[..], sbase, bufsize, minBs, maxBs)
  {
    results := [];
    if !(bufsize > 0) || !(minBs <= maxBs && maxBs <= bufsize && maxBs > 0 && minBs > 0) {
      return false, results;
    }
    ghost var before, msg := rmem[..], smem[sbase..sbase + bufsize];
    ghost var i: nat := 0;
    var blocksize := minBs;
    while blocksize <= maxBs
      invariant drv.Valid() && Mapped(drv.live, smem.Length) && drv.live == old(drv.live)
      invariant drv.attaches == old(drv.attaches) + SweepCalls(bufsize, minBs, page, i)
      invariant smem[sbase..sbase + bufsize] == msg && blocksize == BlockSize(minBs, i)
      invariant Swept(results, bufsize, minBs, maxBs, page, limit, i, rbase, msg, before, rmem[..])
      decreases maxBs - blocksize
    {
      ok, results := SweepBody(drv, smem, rmem, sbase, rbase, bufsize, blocksize, page, limit, minBs, maxBs, i, results,
                               before);
      if !ok {
        return;
      }
      blocksize := Doubled(blocksize);
      i := i + 1;
    }
    SweptAll(results, bufsize, minBs, maxBs, page, limit, i, rbase, msg, before, rmem[..]);
    SafeSweepDelivers(smem[..], sbase, bufsize, minBs, maxBs, page, limit);
    ok := true;
  }

  // --------------------------------------------------------------------------------------------
  // Sizes that are powers of two.

  lemma Pow2Constants()
    ensures Pow2(4) == IOVEC_SIZE && Pow2(16) == DEPTH && Pow2(30) <= INT_MAX < Pow2(31)
  {
    assert Pow2(4) == 16;
    Pow2Product(4, 8);
    Pow2Product(8, 16);
    assert Pow2(16) == 2 * Pow2(15);
    Pow2Product(15, 30);
  }

  lemma PowerDepth(a: nat)
    ensures Pow2(a) % DEPTH == 0 <==> a >= 16
  {
    Pow2Constants();
    if a >= 16 {
      Pow2Divides(16, a);
    } else {
      Pow2Order(a, 16);
      DivisionUnique(Pow2(a), DEPTH, 0, Pow2(a));
    }
  }

  lemma PowerWindows(e: nat, l: nat)
    ensures WindowsFit(Pow2(e), Pow2(l))
  {
    Pow2Order(e, l);
    if e > l {
      Pow2Divides(l, e);
    }
  }

  lemma PowerCount(e: nat)
    ensures Pow2(e) * IOVEC_SIZE <= INT_MAX <==> e <= 26
  {
    Pow2Constants();
    Pow2Product(4, e + 4);
    Pow2Order(e + 4, 30);
    Pow2Order(31, e + 4);
  }

  lemma PowerSizes(a: nat, c: nat, p: nat)
    requires c <= a
    ensures SizesSafe(Pow2(c), Pow2(a - c), Pow2(p)) <==> c >= p || a > p
  {
    Pow2Product(c, a);
    Pow2Order(p, c);
    Pow2Order(c, p);
    Pow2Order(a, p);
    Pow2Order(p, a);
    if c < p {
      Pow2Divides(c, p);
    }
  }

  lemma PowerCounts(a: nat, c: nat, p: nat, l: nat)
    requires c <= a
    ensures CountsSafe(Pow2(a), Pow2(c), Pow2(a - c), Pow2(p), Pow2(l))
       <==> a >= 16 && a - c <= 26 && (c >= p || a > p)
  {
    Pow2Divides(c, a);
    PowerDepth(a);
    PowerWindows(a - c, l);
    PowerCount(a - c);
    PowerSizes(a, c, p);
  }

  /** One power-of-two block size in a power-of-two buffer. */
  lemma PowerStepSafe(a: nat, c: nat, p: nat, l: nat)
    requires c <= a
    ensures StepSafe(Pow2(a), Pow2(c), Pow2(p), Pow2(l)) <==> a >= 16 && a - c <= 26 && (c >= p || a > p)
  {
    Pow2Divides(c, a);
    PowerCounts(a, c, p, l);
  }

  lemma {:induction false} PowerBlockSize(b: nat, i: nat)
    ensures BlockSize(Pow2(b), i) == Pow2(b + i)
  {
    if i == 0 {
    } else {
      PowerBlockSize(b, i - 1);
    }
  }

  lemma PowerConditions(a: nat, b: nat, p: nat)
    requires b <= a
    ensures Pow2(a) >= DEPTH <==> a >= 16
    ensures Pow2(a - b) < 0x800_0000 <==> a - b <= 26
    ensures Pow2(b) >= Pow2(p) <==> b >= p
    ensures Pow2(a) > Pow2(p) <==> a > p
  {
    Pow2Constants();
    Pow2Order(16, a);
    Pow2Product(4, 31);
    Pow2Order(27, a - b);
    Pow2Order(p, b);
    Pow2Order(a, p);
  }

  lemma PowerStepSafeAt(a: nat, c: nat, p: nat, l: nat, bs: nat)
    requires c <= a && bs == Pow2(c)
    ensures StepSafe(Pow2(a), bs, Pow2(p), Pow2(l)) <==> a >= 16 && a - c <= 26 && (c >= p || a > p)
  {
    PowerStepSafe(a, c, p, l);
  }

  lemma PowerBlockFits(a: nat, b: nat, maxBs: nat, i: nat)
    requires 0 < Pow2(b) <= maxBs <= Pow2(a) && BlockSize(Pow2(b), i) <= maxBs
    ensures BlockSize(Pow2(b), i) == Pow2(b + i) && b + i <= a
  {
    PowerBlockSize(b, i);
    Pow2Order(b + i, a);
  }

  /** The block sizes a power-of-two sweep visits. */
  lemma PowerVisited(a: nat, b: nat, p: nat, l: nat, maxBs: nat, i: nat)
    requires 0 < Pow2(b) <= maxBs <= Pow2(a) && BlockSize(Pow2(b), i) <= maxBs
    ensures b + i <= a
    ensures StepSafe(Pow2(a), BlockSize(Pow2(b), i), Pow2(p), Pow2(l))
       <==> a >= 16 && a - (b + i) <= 26 && (b + i >= p || a > p)
  {
    PowerBlockFits(a, b, maxBs, i);
    PowerStepSafeAt(a, b + i, p, l, BlockSize(Pow2(b), i));
  }

  lemma PowerAllVisited(a: nat, b: nat, p: nat, l: nat, maxBs: nat)
    requires 0 < Pow2(b) <= maxBs <= Pow2(a) && b <= a
    requires a >= 16 && a - b <= 26 && (b >= p || a > p)
    ensures SweepSafe(Pow2(a), Pow2(b), maxBs, Pow2(p), Pow2(l))
  {
    forall i: nat | BlockSize(Pow2(b), i) <= maxBs
      ensures StepSafe(Pow2(a), BlockSize(Pow2(b), i), Pow2(p), Pow2(l))
    {
      PowerVisited(a, b, p, l, maxBs, i);
    }
  }

  lemma PowerSweepExponents(a: nat, b: nat, p: nat, l: nat, maxBs: nat)
    requires 0 < Pow2(b) <= maxBs <= Pow2(a)
    ensures b <= a
    ensures SweepSafe(Pow2(a), Pow2(b), maxBs, Pow2(p), Pow2(l)) <==> a >= 16 && a - b <= 26 && (b >= p || a > p)
  {
    assert BlockSize(Pow2(b), 0) == Pow2(b) <= maxBs;
    PowerVisited(a, b, p, l, maxBs, 0);
    if a >= 16 && a - b <= 26 && (b >= p || a > p) {
      PowerAllVisited(a, b, p, l, maxBs);
    }
  }

  /** With power-of-two buffer, smallest block, page size and list limit, the whole sweep is safe exactly if
      the buffer holds at least one pipeline chunk, it has fewer than 2^27 smallest blocks, and it is larger
      than a page unless all blocks are at least a page. */
  lemma PowerSweepSafe(a: nat, b: nat, p: nat, l: nat, maxBs: nat)
    requires 0 < Pow2(b) <= maxBs <= Pow2(a)
    ensures SweepSafe(Pow2(a), Pow2(b), maxBs, Pow2(p), Pow2(l))
       <==> Pow2(a) >= DEPTH && Pow2(a) / Pow2(b) < 0x800_0000 && (Pow2(b) >= Pow2(p) || Pow2(a) > Pow2(p))
  {
    PowerSweepExponents(a, b, p, l, maxBs);
    PowerConditions(a, b, p);
    Pow2Divides(b, a);
  }

  lemma PowerTableCalls(a: nat, c: nat, p: nat)
    requires c <= a && p <= a
    ensures TableCalls(Pow2(c), Pow2(a - c), Pow2(p)) == if c >= p then Pow2(a - c) else Pow2(a - p)
  {
    Pow2Order(p, c);
    Pow2Product(c, a);
    if c < p {
      Pow2Product(p, a);
      DivisionUnique(Pow2(a) + Pow2(p) - 1, Pow2(p), Pow2(a - p), Pow2(p) - 1);
    }
  }

  lemma PowerStepCalls(a: nat, c: nat, p: nat)
    requires c <= a && p <= a
    ensures StepCalls(Pow2(a), Pow2(c), Pow2(p)) == (ITERS + 1) * if c >= p then Pow2(a - c) else Pow2(a - p)
  {
    Pow2Divides(c, a);
    PowerTableCalls(a, c, p);
  }

  /** The tables of the first i block sizes: as many attach calls as there are pages while blocks are smaller than
      a page, then half as many from one size to the next. */
  function PowerTables(a: nat, b: nat, p: nat, i: nat): int
    requires b <= p <= a && b + i <= a + 1
  {
    if b + i <= p then i * Pow2(a - p) else (p - b) * Pow2(a - p) + 2 * Pow2(a - p) - Pow2(a + 1 - b - i)
  }

  lemma PowerTablesNext(a: nat, b: nat, p: nat, i: nat)
    requires b <= p <= a && b + i <= a
    ensures PowerTables(a, b, p, i + 1)
         == PowerTables(a, b, p, i) + if b + i >= p then Pow2(a - (b + i)) else Pow2(a - p)
  {
    MulStep(i, Pow2(a - p));
    assert Pow2(a + 1 - b - i) == 2 * Pow2(a - b - i);
  }

  lemma {:induction false} PowerSweepCalls(a: nat, b: nat, p: nat, i: nat)
    requires b <= p <= a && b + i <= a + 1
    ensures SweepCalls(Pow2(a), Pow2(b), Pow2(p), i) == (ITERS + 1) * PowerTables(a, b, p, i)
  {
    if i == 0 {
      assert PowerTables(a, b, p, 0) == 0;
    } else {
      PowerSweepCalls(a, b, p, i - 1);
      PowerTablesNext(a, b, p, i - 1);
      PowerBlockSize(b, i - 1);
      PowerStepCalls(a, b + i - 1, p);
    }
  }

  // --------------------------------------------------------------------------------------------
  // Accepted arguments on which the sweep stops, one for each condition, with all other conditions met.

  lemma UnsafeSize(bufsize: nat, minBs: nat, maxBs: nat, page: nat, limit: nat, i: nat)
    requires minBs > 0 && limit > 0 && BlockSize(minBs, i) <= maxBs
    requires !StepSafe(bufsize, BlockSize(minBs, i), page, limit)
    ensures !SweepSafe(bufsize, minBs, maxBs, page, limit)
  {
  }

  /** 100000 bytes are not a whole number of pipeline chunks. */
  lemma DepthWitness()
    ensures 0 < 5000 <= 5000 <= 100000 && !SweepSafe(100000, 5000, 5000, 4096, 1024)
    ensures 100000 % 5000 == 0 && WindowsFit(20, 1024) && 20 * IOVEC_SIZE <= INT_MAX && SizesSafe(5000, 20, 4096)
  {
    UnsafeSize(100000, 5000, 5000, 4096, 1024, 0);
  }

  /** 39 blocks of 5000 bytes leave a rest of the buffer. The sweep also reaches such a size by doubling. */
  lemma DivisionWitness()
    ensures 0 < 5000 <= 5000 <= 196608 && !SweepSafe(196608, 5000, 5000, 4096, 1024)
    ensures 196608 % DEPTH == 0 && WindowsFit(39, 1024) && 39 * IOVEC_SIZE <= INT_MAX && SizesSafe(5000, 39, 4096)
    ensures 0 < 65536 <= 131072 <= 196608 && !SweepSafe(196608, 65536, 131072, 4096, 1024)
    ensures StepSafe(196608, 65536, 4096, 1024)
  {
    UnsafeSize(196608, 5000, 5000, 4096, 1024, 0);
    assert BlockSize(65536, 1) == 2 * BlockSize(65536, 0);
    UnsafeSize(196608, 65536, 131072, 4096, 1024, 1);
  }

  /** 1536 blocks are more than one window of 1024 and not a whole number of them. */
  lemma WindowWitness()
    ensures 0 < 128 <= 128 <= 196608 && !SweepSafe(196608, 128, 128, 4096, 1024)
    ensures 196608 % 128 == 0 && 196608 % DEPTH == 0 && 1536 * IOVEC_SIZE <= INT_MAX && SizesSafe(128, 1536, 4096)
  {
    UnsafeSize(196608, 128, 128, 4096, 1024, 0);
  }

  /** A gigabyte in blocks of 8 bytes is a list of 2^27 entries, 2^31 bytes. */
  lemma CountWitness()
    ensures 0 < 8 <= 8 <= 0x4000_0000 && !SweepSafe(0x4000_0000, 8, 8, 4096, 1024)
    ensures 0x4000_0000 % 8 == 0 && 0x4000_0000 % DEPTH == 0
    ensures WindowsFit(0x800_0000, 1024) && SizesSafe(8, 0x800_0000, 4096)
  {
    UnsafeSize(0x4000_0000, 8, 8, 4096, 1024, 0);
  }

  /** Blocks of 192 bytes straddle pages of 4096. */
  lemma StraddleWitness()
    ensures 0 < 192 <= 192 <= 196608 && !SweepSafe(196608, 192, 192, 4096, 1024)
    ensures 196608 % 192 == 0 && 196608 % DEPTH == 0 && WindowsFit(1024, 1024) && 1024 * IOVEC_SIZE <= INT_MAX
  {
    UnsafeSize(196608, 192, 192, 4096, 1024, 0);
  }

  /** One page of 65536 bytes in sixteen blocks: only the uncached XPMEM engine fails. */
  lemma OnePageWitness()
    ensures 0 < 4096 <= 4096 <= 65536 && !SweepSafe(65536, 4096, 4096, 65536, 1024)
    ensures 65536 % 4096 == 0 && 65536 % DEPTH == 0 && WindowsFit(16, 1024) && 16 * IOVEC_SIZE <= INT_MAX
    ensures CachedSizesSafe(4096, 16, 65536)
  {
    UnsafeSize(65536, 4096, 4096, 65536, 1024, 0);
  }

  // --------------------------------------------------------------------------------------------
  // The documented example, a buffer of 4194304 bytes in blocks of 4 to 4194304 bytes, on pages of 4096 bytes and
  // with lists of 1024 entries: a sweep whose largest block is the whole buffer.

  lemma ExampleSizes()
    ensures Pow2(2) == 4 && Pow2(10) == 1024 && Pow2(12) == 4096 && Pow2(22) == 4194304
  {
    assert Pow2(5) == 32;
    Pow2Product(5, 10);
    Pow2Product(10, 12);
    Pow2Product(10, 20);
    Pow2Product(2, 22);
  }

  lemma ExampleIsSafe()
    ensures SweepSafe(4194304, 4, 4194304, 4096, 1024)
  {
    ExampleSizes();
    PowerSweepSafe(22, 2, 12, 10, 4194304);
  }

  /** The sweep makes 21 measurements. */
  lemma ExampleCount(n: nat)
    requires forall i: nat :: i < n <==> BlockSize(4, i) <= 4194304
    ensures n == 21
  {
    ExampleSizes();
    PowerBlockSize(2, 20);
    PowerBlockSize(2, 21);
    assert Pow2(23) == 2 * Pow2(22);
  }

  /** One measurement attaches (110 + 1) * 512 times at 8192 bytes; the whole sweep (110 + 1) * (10 * 1024 + 2047)
      times. */
  lemma ExampleCalls()
    ensures StepCalls(4194304, 8192, 4096) == 56832
    ensures SweepCalls(4194304, 4, 4096, 21) == 1363857
  {
    ExampleSizes();
    PowerSweepCalls(22, 2, 12, 21);
    assert Pow2(11) == 2048;
  }

  method RunExample() returns (ok: bool, calls: nat, ghost results: seq<StepRecord>)
    ensures ok && |results| == 21 && calls == 1363857
  {
    var drv := new Driver(true);
    var smem, rmem := new byte[4096 + 4194304], new byte[4194304];
    ExampleSizes();
    ExampleIsSafe();
    ok, results := RunSweep(drv, smem, rmem, 4096, 0, 4194304, 4, 4194304, 4096, 1024);
    ExampleCount(|results|);
    ExampleCalls();
    calls := drv.attaches;
  }
}
