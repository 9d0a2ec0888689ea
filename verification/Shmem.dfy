/** The plain shared-memory copy: a whole block list at a time (copy_to_shmem, copy_from_shmem). */
module Shmem {
  import opened Iovec
  import opened Script
  import opened StreamCopy

  /** Packs the list into the region; the log holds the stream bytes in the order they were stored. */
  method CopyToShmem(shm: array<byte>, mem: array<byte>, liov: seq<IoVec>, blocksize: nat, bufsize: nat)
    returns (sum: nat, ghost log: seq<Action>)
    requires shm != mem && blocksize > 0 && |liov| == bufsize / blocksize
    requires InMemory(liov, mem.Length) && Total(liov) <= shm.Length
    modifies shm
    ensures sum == Total(liov)
    ensures shm[..] == Splice(old(shm[..]), 0, Packed(mem[..], liov))
    ensures log == Copies(0, Total(liov))
  {
    var nblocks := bufsize / blocksize;
    var offset: nat := 0;
    sum, log := 0, [];
    ghost var region, source := shm[..], mem[..];
    for i := 0 to nblocks
      invariant offset == sum == Offset(liov, i) <= Total(liov)
      invariant mem[..] == source && shm[..] == Stored(region, 0, source, liov, sum)
      invariant log == Copies(0, sum)
    {
      StoreSegment(shm, offset, mem, liov[i].base, liov[i].len, 0, liov, i, 0, region);
      log := Logged(log, 0, sum, sum + liov[i].len);
      offset := offset + liov[i].len;
      sum := sum + liov[i].len;
    }
    StoredAll(region, 0, source, liov);
  }

  method CopyFromShmem(shm: array<byte>, mem: array<byte>, liov: seq<IoVec>, blocksize: nat, bufsize: nat)
    returns (sum: nat, ghost log: seq<Action>)
    requires shm != mem && blocksize > 0 && |liov| == bufsize / blocksize
    requires InMemory(liov, mem.Length) && Total(liov) <= shm.Length
    modifies mem
    ensures sum == Total(liov)
    ensures mem[..] == Unpacked(old(mem[..]), liov, shm[..], Total(liov))
    ensures log == Copies(0, Total(liov))
  {
    var nblocks := bufsize / blocksize;
    var offset: nat := 0;
    ghost var before, stream := mem[..], shm[..];
    UnpackedNothing(before, liov, stream);
    sum, log := 0, [];
    for i := 0 to nblocks
      invariant offset == sum == Offset(liov, i) <= Total(liov)
      invariant shm[..] == stream && mem[..] == Unpacked(before, liov, stream, sum)
      invariant log == Copies(0, sum)
    {
      LoadSegment(mem, liov[i].base, shm, offset, liov[i].len, stream, liov, i, 0, before);
      log := Logged(log, 0, sum, sum + liov[i].len);
      offset := offset + liov[i].len;
      sum := sum + liov[i].len;
    }
  }

  /** The assert nread == bufsize of benchmark_shmem holds exactly when the block size divides the buffer size. */
  lemma SizeAssertIff(base: nat, blocksize: nat, bufsize: nat)
    requires blocksize > 0
    ensures Total(Uniform(base, blocksize, bufsize / blocksize)) == bufsize <==> bufsize % blocksize == 0
  {
    UniformOffset(base, blocksize, bufsize / blocksize, bufsize / blocksize);
    assert bufsize == (bufsize / blocksize) * blocksize + bufsize % blocksize;
  }

  /** The plain transfer is the one-chunk case of the pipelined one: same order of copies and collectives. */
  lemma OneChunkScripts(total: nat)
    ensures Copies(0, total) + [Bcast] + [Gather] == SenderScript(1, total)
    ensures [Bcast] + Copies(0, total) + [Gather] == ReceiverScript(1, total)
  {
    assert SenderRounds(1, total) == SenderRounds(0, total) + Copies(0, total) + [Bcast];
    assert ReceiverRounds(1, total) == ReceiverRounds(0, total) + [Bcast] + Copies(0, total);
  }
}
