/** The two shared-memory engines with any number of receivers, under every interleaving: the chunk protocol,
    run on the lists of the sequential engines, leaves in every receiver what those engines leave. */
module Interleaved {
  import opened Iovec
  import opened Script
  import opened StreamCopy
  import opened Pipeline
  import opened Protocol
  import opened ProtocolTheorems
  import opened Engines

  /** Every process lists blocks of its own memory, and all lists hold the same number of bytes. */
  ghost predicate ListsAgree(sliov: seq<IoVec>, rliovs: seq<seq<IoVec>>, smem: seq<byte>, rmems: seq<seq<byte>>) {
    && InMemory(sliov, |smem|) && |rliovs| == |rmems|
    && forall r :: 0 <= r < |rliovs| ==> Total(rliovs[r]) == Total(sliov) && InMemory(rliovs[r], |rmems[r]|)
  }

  /** A transfer in chunks of `full` bytes, of the same message in every iteration. With full equal to the
      depth this is benchmark_shmem_pip; with a single chunk it is benchmark_shmem. */
  function Transfer(sliov: seq<IoVec>, rliovs: seq<seq<IoVec>>, full: nat, smem: seq<byte>, rmems: seq<seq<byte>>,
                    iters: nat): Config
    requires full > 0
  {
    Config(Total(sliov) / full, full, iters, sliov, seq(iters, _ => smem), rliovs, rmems)
  }

  lemma TransferIsValid(sliov: seq<IoVec>, rliovs: seq<seq<IoVec>>, full: nat, smem: seq<byte>, rmems: seq<seq<byte>>,
                        iters: nat)
    requires ListsAgree(sliov, rliovs, smem, rmems)
    requires full > 0 && Total(sliov) > 0 && Total(sliov) % full == 0
    ensures ValidConfig(Transfer(sliov, rliovs, full, smem, rmems, iters))
  {
    var n := Total(sliov) / full;
    assert Total(sliov) == n * full + Total(sliov) % full;
    assert n > 0;
  }

  /** Lists on which the unguarded loops stay in bounds are configurations of the protocol. */
  lemma FittingListsAreValid(sliov: seq<IoVec>, rliovs: seq<seq<IoVec>>, full: nat, smem: seq<byte>,
                             rmems: seq<seq<byte>>, iters: nat)
    requires InMemory(sliov, |smem|) && |rliovs| == |rmems|
    requires forall r :: 0 <= r < |rliovs| ==> Total(rliovs[r]) == Total(sliov) && InMemory(rliovs[r], |rmems[r]|)
    requires full > 0 && |sliov| > 0 && ChunksFit(sliov, full)
    ensures ValidConfig(Transfer(sliov, rliovs, full, smem, rmems, iters))
  {
    OffsetMonotone(sliov, |sliov| - 1, |sliov|);
    assert Total(sliov) > 0;
    TransferIsValid(sliov, rliovs, full, smem, rmems, iters);
  }

  lemma {:induction false} MemAfterIs(c: Config, r: nat, j: nat, mem: seq<byte>)
    requires ValidConfig(c) && r < |c.riovs| && j <= c.iters
    requires InMemory(c.siov, |mem|) && forall i :: 0 <= i < c.iters ==> c.src[i] == mem
    ensures MemAfter(c, r, j) == AfterIterations(c.init[r], c.riovs[r], Packed(mem, c.siov), j)
  {
    if j == 0 {
    } else {
      MemAfterIs(c, r, j - 1, mem);
    }
  }

  /** Any lists, any number of receivers, any interleaving that does not stop early: every receiver ends with
      the memory that the sequential engines leave, and every process has carried out the actions they log. */
  lemma EveryInterleaving(sliov: seq<IoVec>, rliovs: seq<seq<IoVec>>, full: nat, smem: seq<byte>,
                          rmems: seq<seq<byte>>, iters: nat, run: seq<State>, r: nat)
    requires InMemory(sliov, |smem|) && |rliovs| == |rmems| && r < |rliovs|
    requires forall q :: 0 <= q < |rliovs| ==> Total(rliovs[q]) == Total(sliov) && InMemory(rliovs[q], |rmems[q]|)
    requires full > 0 && Total(sliov) > 0 && Total(sliov) % full == 0
    requires IsRun(Transfer(sliov, rliovs, full, smem, rmems, iters), run)
    requires Stuck(Transfer(sliov, rliovs, full, smem, rmems, iters), run[|run| - 1])
    ensures |run[|run| - 1].mems| == |rliovs|
    ensures run[|run| - 1].mems[r] == AfterIterations(rmems[r], rliovs[r], Packed(smem, sliov), iters)
    ensures SenderTrace(Transfer(sliov, rliovs, full, smem, rmems, iters), run, |run| - 1)
         == Repeated(SenderScript(Total(sliov) / full, full), iters)
    ensures forall j :: 0 <= j < |run| ==> r < |run[j].recvs|
    ensures ReceiverTrace(Transfer(sliov, rliovs, full, smem, rmems, iters), run, r, |run| - 1)
         == Repeated(ReceiverScript(Total(sliov) / full, full), iters)
  {
    var c := Transfer(sliov, rliovs, full, smem, rmems, iters);
    TransferIsValid(sliov, rliovs, full, smem, rmems, iters);
    MaximalRunIsCorrect(c, run, r);
    MemAfterIs(c, r, iters, smem);
    TracesAreScripts(c, run, r);
  }

  function Values(shm: seq<Cell>): (s: seq<byte>)
    ensures |s| == |shm|
  {
    seq(|shm|, k requires 0 <= k < |shm| => shm[k].val)
  }

  /** When a receiver's Bcast has returned, the region holds the announced chunk of its iteration, and keeps
      what the receiver has not read yet: this is what UnpackPipelined takes for granted. */
  lemma BcastAnnouncesChunk(c: Config, run: seq<State>, i: nat, r: nat)
    requires ValidConfig(c) && IsRun(c, run) && i < |run| && r < |run[i].recvs|
    requires run[i].recvs[r].iter < c.iters
    ensures Holds(Values(run[i].shm), Message(c, run[i].recvs[r].iter), run[i].recvs[r].pos,
                  run[i].recvs[r].chunk * c.d)
  {
    var q := run[i].recvs[r];
    var region, msg, hi := Values(run[i].shm), Message(c, q.iter), q.chunk * c.d;
    RunInv(c, run, i);
    assert |region| == |msg|;
    forall k | q.pos <= k < hi && k < |msg|
      ensures region[k] == msg[k]
    {
      ReadsAreFresh(c, run, i, r, k);
    }
  }

  // --------------------------------------------------------------------------------------------
  // The program's lists.

  /** Where the receivers keep their buffers, and their memories when the transfer starts. */
  ghost predicate Receivers(rbases: seq<nat>, rmems: seq<seq<byte>>, bufsize: nat) {
    |rbases| == |rmems| && forall r :: 0 <= r < |rbases| ==> rbases[r] + bufsize <= |rmems[r]|
  }

  function ReceiverLists(rbases: seq<nat>, bs: nat, n: nat): (v: seq<seq<IoVec>>)
    ensures |v| == |rbases| && forall r :: 0 <= r < |v| ==> v[r] == Uniform(rbases[r], bs, n)
  {
    seq(|rbases|, r requires 0 <= r < |rbases| => Uniform(rbases[r], bs, n))
  }

  /** The transfer of a buffer in blocks of bs bytes, in chunks of d bytes. */
  function BufferTransfer(sbase: nat, rbases: seq<nat>, bs: nat, bufsize: nat, d: nat, smem: seq<byte>,
                          rmems: seq<seq<byte>>, iters: nat): Config
    requires bs > 0 && d > 0
  {
    Transfer(Uniform(sbase, bs, bufsize / bs), ReceiverLists(rbases, bs, bufsize / bs), d, smem, rmems, iters)
  }

  lemma BufferLists(sbase: nat, rbases: seq<nat>, bs: nat, bufsize: nat, smem: seq<byte>, rmems: seq<seq<byte>>)
    requires bs > 0 && bufsize % bs == 0 && sbase + bufsize <= |smem| && Receivers(rbases, rmems, bufsize)
    ensures Total(Uniform(sbase, bs, bufsize / bs)) == bufsize
    ensures ListsAgree(Uniform(sbase, bs, bufsize / bs), ReceiverLists(rbases, bs, bufsize / bs), smem, rmems)
  {
    var n := bufsize / bs;
    ListBytes(bs, bufsize);
    UniformInMemory(sbase, bs, n, |smem|);
    forall r | 0 <= r < |rbases|
      ensures Total(Uniform(rbases[r], bs, n)) == bufsize && InMemory(Uniform(rbases[r], bs, n), |rmems[r]|)
    {
      UniformInMemory(rbases[r], bs, n, |rmems[r]|);
    }
  }

  lemma ReceiversOfRun(sbase: nat, rbases: seq<nat>, bs: nat, bufsize: nat, d: nat, smem: seq<byte>,
                       rmems: seq<seq<byte>>, iters: nat, run: seq<State>)
    requires bs > 0 && d > 0 && bufsize > 0 && bufsize % bs == 0 && bufsize % d == 0
    requires sbase + bufsize <= |smem| && Receivers(rbases, rmems, bufsize)
    requires IsRun(BufferTransfer(sbase, rbases, bs, bufsize, d, smem, rmems, iters), run)
    ensures |run[|run| - 1].mems| == |rbases|
  {
    BufferLists(sbase, rbases, bs, bufsize, smem, rmems);
    TransferIsValid(Uniform(sbase, bs, bufsize / bs), ReceiverLists(rbases, bs, bufsize / bs), d, smem, rmems, iters);
    RunInv(BufferTransfer(sbase, rbases, bs, bufsize, d, smem, rmems, iters), run, |run| - 1);
  }

  /** If block size and chunk size divide the buffer, then under every interleaving every receiver ends with
      the sender's buffer in place of its own and nothing else changed. */
  lemma EveryReceiverGetsTheBuffer(sbase: nat, rbases: seq<nat>, bs: nat, bufsize: nat, d: nat, smem: seq<byte>,
                                   rmems: seq<seq<byte>>, iters: nat, run: seq<State>, r: nat)
    requires bs > 0 && d > 0 && bufsize > 0 && iters > 0 && bufsize % bs == 0 && bufsize % d == 0
    requires sbase + bufsize <= |smem| && r < |rbases| == |rmems|
    requires forall q :: 0 <= q < |rbases| ==> rbases[q] + bufsize <= |rmems[q]|
    requires IsRun(BufferTransfer(sbase, rbases, bs, bufsize, d, smem, rmems, iters), run)
    requires Stuck(BufferTransfer(sbase, rbases, bs, bufsize, d, smem, rmems, iters), run[|run| - 1])
    ensures |run[|run| - 1].mems| == |rbases|
    ensures run[|run| - 1].mems[r] == Splice(rmems[r], rbases[r], smem[sbase..sbase + bufsize])
  {
    var n := bufsize / bs;
    BufferLists(sbase, rbases, bs, bufsize, smem, rmems);
    EveryInterleaving(Uniform(sbase, bs, n), ReceiverLists(rbases, bs, n), d, smem, rmems, iters, run, r);
    SameBuffer(smem, rmems[r], sbase, rbases[r], bufsize, bs, iters);
  }
}
