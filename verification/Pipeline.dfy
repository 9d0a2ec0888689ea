/** The pipelined shared-memory copy: the block stream is cut into chunks of `full` bytes, and chunk and
    block boundaries fall anywhere relative to each other (the inner loops of benchmark_shmem_pip). */
module Pipeline {
  import opened Iovec
  import opened Arithmetic
  import opened Script
  import opened StreamCopy

  /** A cursor is inside a block, or at the start of one (of any length), or at the end of the list. */
  ghost predicate AtCursor(v: seq<IoVec>, iovcnt: nat, iovOff: nat) {
    && iovcnt <= |v|
    && (iovOff > 0 ==> iovcnt < |v| && iovOff < v[iovcnt].len)
  }

  /** What a caller can check beforehand: the chunks end exactly where the list ends, and the list does
      not end in an empty block. */
  predicate ChunksFit(v: seq<IoVec>, full: nat)
    requires full > 0
  {
    |v| == 0 || (v[|v| - 1].len > 0 && Total(v) % full == 0)
  }

  lemma CursorInList(v: seq<IoVec>, iovcnt: nat, iovOff: nat)
    requires AtCursor(v, iovcnt, iovOff)
    ensures Offset(v, iovcnt) + iovOff <= Total(v)
    ensures iovcnt < |v| ==> Offset(v, iovcnt + 1) <= Total(v)
  {
    OffsetMonotone(v, iovcnt, |v|);
    if iovcnt < |v| {
      OffsetMonotone(v, iovcnt + 1, |v|);
    }
  }

  /** iovcnt, iov_off and shm_off are ints. Sizes come from atoi, so no cursor wraps, and neither does the
      position after one more segment of the current block. */
  lemma CursorFitsInt(v: seq<IoVec>, iovcnt: nat, iovOff: nat, len: nat, blocksize: nat, bufsize: nat)
    requires AtCursor(v, iovcnt, iovOff) && blocksize > 0 && |v| == bufsize / blocksize
    requires Total(v) <= bufsize <= INT_MAX
    requires iovcnt < |v| ==> iovOff + len <= v[iovcnt].len
    ensures iovcnt <= INT_MAX && iovOff <= INT_MAX && Offset(v, iovcnt) + iovOff <= INT_MAX
    ensures iovcnt < |v| ==> iovcnt + 1 <= INT_MAX && iovOff + len <= INT_MAX && Offset(v, iovcnt) + iovOff + len <= INT_MAX
  {
    CursorInList(v, iovcnt, iovOff);
    QuotientBound(bufsize, blocksize);
  }

  /** If a chunk starts with blocks left but no bytes left, the last block is empty. */
  lemma EmptyTail(v: seq<IoVec>, iovcnt: nat, iovOff: nat)
    requires AtCursor(v, iovcnt, iovOff) && iovcnt < |v|
    requires Offset(v, iovcnt) + iovOff == Total(v)
    ensures v[|v| - 1].len == 0
  {
    CursorInList(v, iovcnt, iovOff);
    OffsetMonotone(v, iovcnt, |v| - 1);
  }

  /** One round of the inner loop of the sender: the rest of a block, or as much of it as fits in the chunk. */
  method PackSegment(shm: array<byte>, mem: array<byte>, liov: seq<IoVec>, capacity: nat, iovcnt0: nat, iovOff0: nat,
                     shmOff: nat, ghost region: seq<byte>)
    returns (iovcnt: nat, iovOff: nat, len: nat)
    requires shm != mem && capacity > 0
    requires InMemory(liov, mem.Length) && Total(liov) <= shm.Length && |region| == shm.Length
    requires AtCursor(liov, iovcnt0, iovOff0) && iovcnt0 < |liov|
    requires shmOff == Offset(liov, iovcnt0) + iovOff0 <= Total(liov)
    requires shm[..] == Stored(region, 0, mem[..], liov, shmOff)
    modifies shm
    ensures len <= capacity && (len == capacity || iovcnt > iovcnt0) && iovcnt0 <= iovcnt
    ensures AtCursor(liov, iovcnt, iovOff) && shmOff + len == Offset(liov, iovcnt) + iovOff <= Total(liov)
    ensures iovcnt == |liov| && len == capacity ==> liov[|liov| - 1].len > 0
    ensures shm[..] == Stored(region, 0, mem[..], liov, shmOff + len)
  {
    iovcnt, iovOff := iovcnt0, iovOff0;
    CursorInList(liov, iovcnt, iovOff);
    var rest := liov[iovcnt].len - iovOff;
    len := if capacity >= rest then rest else capacity;
    StoreSegment(shm, shmOff, mem, liov[iovcnt].base + iovOff, len, 0, liov, iovcnt, iovOff, region);
    if capacity >= rest {
      iovcnt := iovcnt + 1;
      iovOff := 0;
    } else {
      iovOff := iovOff + len;
    }
  }

  /** One outer round of the sender. The inner loop never tests iovcnt < niov; `inBounds` is false when it is
      about to read liov[niov]. */
  method PackChunk(shm: array<byte>, mem: array<byte>, liov: seq<IoVec>, full: nat, niov: nat,
                   iovcnt0: nat, iovOff0: nat, shmOff0: nat, ghost region: seq<byte>)
    returns (inBounds: bool, iovcnt: nat, iovOff: nat, shmOff: nat, ghost log: seq<Action>)
    requires shm != mem && full > 0 && niov == |liov|
    requires InMemory(liov, mem.Length) && Total(liov) <= shm.Length && |region| == shm.Length
    requires AtCursor(liov, iovcnt0, iovOff0) && shmOff0 == Offset(liov, iovcnt0) + iovOff0 <= Total(liov)
    requires shm[..] == Stored(region, 0, mem[..], liov, shmOff0)
    modifies shm
    ensures AtCursor(liov, iovcnt, iovOff)
    ensures shmOff0 <= shmOff == Offset(liov, iovcnt) + iovOff <= Total(liov)
    ensures inBounds ==> shmOff == shmOff0 + full && (iovcnt == niov ==> liov[niov - 1].len > 0)
    ensures !inBounds ==> iovcnt == niov && shmOff < shmOff0 + full
    ensures shm[..] == Stored(region, 0, mem[..], liov, shmOff)
    ensures log == Copies(shmOff0, shmOff)
  {
    inBounds, iovcnt, iovOff, shmOff, log := true, iovcnt0, iovOff0, shmOff0, [];
    var capacity: nat := full;
    ghost var source := mem[..];
    while capacity > 0
      invariant AtCursor(liov, iovcnt, iovOff)
      invariant shmOff0 <= shmOff == Offset(liov, iovcnt) + iovOff <= Total(liov)
      invariant shmOff + capacity == shmOff0 + full
      invariant capacity == 0 && iovcnt == niov ==> liov[niov - 1].len > 0
      invariant mem[..] == source && shm[..] == Stored(region, 0, source, liov, shmOff)
      invariant log == Copies(shmOff0, shmOff)
      decreases niov - iovcnt, capacity
    {
      if iovcnt == niov {
        inBounds := false;
        return;
      }
      var len;
      iovcnt, iovOff, len := PackSegment(shm, mem, liov, capacity, iovcnt, iovOff, shmOff, region);
      log := Logged(log, shmOff0, shmOff, shmOff + len);
      shmOff := shmOff + len;
      capacity := capacity - len;
    }
  }

  /** The sender's part of one iteration. The contract says exactly when the unguarded inner loop leaves the
      list, and otherwise fixes the whole region and the order of copies and collectives. */
  method PackPipelined(shm: array<byte>, mem: array<byte>, liov: seq<IoVec>, full: nat, blocksize: nat, bufsize: nat)
    returns (inBounds: bool, iovcnt: nat, nread: nat, ghost log: seq<Action>)
    requires shm != mem && full > 0 && blocksize > 0 && |liov| == bufsize / blocksize
    requires InMemory(liov, mem.Length) && Total(liov) <= shm.Length
    modifies shm
    ensures inBounds <==> ChunksFit(liov, full)
    ensures inBounds ==> iovcnt == |liov| && nread == Total(liov)
    ensures inBounds ==> shm[..] == Splice(old(shm[..]), 0, Packed(mem[..], liov))
    ensures inBounds ==> log == SenderScript(Total(liov) / full, full)
  {
    var niov := bufsize / blocksize;
    var iovOff: nat := 0;
    ghost var rounds: nat, chunk: seq<Action> := 0, [];
    inBounds, iovcnt, nread, log := true, 0, 0, [];
    StoredNothing(shm[..], 0, mem[..], liov);
    while iovcnt < niov
      invariant AtCursor(liov, iovcnt, iovOff)
      invariant nread == Offset(liov, iovcnt) + iovOff == rounds * full <= Total(liov)
      invariant iovcnt == niov > 0 ==> liov[niov - 1].len > 0
      invariant shm[..] == Stored(old(shm[..]), 0, mem[..], liov, nread)
      invariant log == SenderRounds(rounds, full)
      decreases Total(liov) - nread
    {
      if nread == Total(liov) {
        EmptyTail(liov, iovcnt, iovOff);
      }
      MulStep(rounds, full);
      inBounds, iovcnt, iovOff, nread, chunk := PackChunk(shm, mem, liov, full, niov, iovcnt, iovOff, nread, old(shm[..]));
      if !inBounds {
        WholeChunks(Total(liov), rounds, full);
        return;
      }
      log := log + chunk + [Bcast];
      rounds := rounds + 1;
    }
    StoredAll(old(shm[..]), 0, mem[..], liov);
    WholeChunks(Total(liov), rounds, full);
    log := log + [Gather];
  }

  /** One round of the inner loop of a receiver: the rest of a block, or as much of it as the chunk has left. */
  method UnpackSegment(shm: array<byte>, mem: array<byte>, liov: seq<IoVec>, capacity: nat, iovcnt0: nat, iovOff0: nat,
                       shmOff: nat, ghost msg: seq<byte>, ghost before: seq<byte>)
    returns (iovcnt: nat, iovOff: nat, len: nat)
    requires shm != mem && capacity > 0
    requires InMemory(liov, mem.Length) && |msg| == Total(liov) <= shm.Length && |before| == mem.Length
    requires AtCursor(liov, iovcnt0, iovOff0) && iovcnt0 < |liov|
    requires shmOff == Offset(liov, iovcnt0) + iovOff0 <= Total(liov)
    requires Holds(shm[..], msg, shmOff, shmOff + capacity)
    requires mem[..] == Unpacked(before, liov, msg, shmOff)
    modifies mem
    ensures len <= capacity && (len == capacity || iovcnt > iovcnt0) && iovcnt0 <= iovcnt
    ensures AtCursor(liov, iovcnt, iovOff) && shmOff + len == Offset(liov, iovcnt) + iovOff <= Total(liov)
    ensures iovcnt == |liov| && len == capacity ==> liov[|liov| - 1].len > 0
    ensures mem[..] == Unpacked(before, liov, msg, shmOff + len)
  {
    iovcnt, iovOff := iovcnt0, iovOff0;
    CursorInList(liov, iovcnt, iovOff);
    var rest := liov[iovcnt].len - iovOff;
    len := if capacity >= rest then rest else capacity;
    HoldsPart(shm[..], msg, shmOff, shmOff + capacity, shmOff, shmOff + len);
    LoadSegment(mem, liov[iovcnt].base + iovOff, shm, shmOff, len, msg, liov, iovcnt, iovOff, before);
    if capacity >= rest {
      iovcnt := iovcnt + 1;
      iovOff := 0;
    } else {
      iovOff := iovOff + len;
    }
  }

  /** One outer round of a receiver: the chunk that has been announced is the next one of the stream. */
  method UnpackChunk(shm: array<byte>, mem: array<byte>, liov: seq<IoVec>, full: nat, niov: nat,
                     iovcnt0: nat, iovOff0: nat, shmOff0: nat, ghost msg: seq<byte>, ghost before: seq<byte>)
    returns (inBounds: bool, iovcnt: nat, iovOff: nat, shmOff: nat, ghost log: seq<Action>)
    requires shm != mem && full > 0 && niov == |liov|
    requires InMemory(liov, mem.Length) && |msg| == Total(liov) <= shm.Length && |before| == mem.Length
    requires AtCursor(liov, iovcnt0, iovOff0) && shmOff0 == Offset(liov, iovcnt0) + iovOff0 <= Total(liov)
    requires Holds(shm[..], msg, shmOff0, shmOff0 + full)
    requires mem[..] == Unpacked(before, liov, msg, shmOff0)
    modifies mem
    ensures AtCursor(liov, iovcnt, iovOff)
    ensures shmOff0 <= shmOff == Offset(liov, iovcnt) + iovOff <= Total(liov)
    ensures inBounds ==> shmOff == shmOff0 + full && (iovcnt == niov ==> liov[niov - 1].len > 0)
    ensures !inBounds ==> iovcnt == niov && shmOff < shmOff0 + full
    ensures mem[..] == Unpacked(before, liov, msg, shmOff)
    ensures log == Copies(shmOff0, shmOff)
  {
    inBounds, iovcnt, iovOff, shmOff, log := true, iovcnt0, iovOff0, shmOff0, [];
    var capacity: nat := full;
    while capacity > 0
      invariant AtCursor(liov, iovcnt, iovOff)
      invariant shmOff0 <= shmOff == Offset(liov, iovcnt) + iovOff <= Total(liov)
      invariant shmOff + capacity == shmOff0 + full
      invariant capacity == 0 && iovcnt == niov ==> liov[niov - 1].len > 0
      invariant mem[..] == Unpacked(before, liov, msg, shmOff)
      invariant log == Copies(shmOff0, shmOff)
      decreases niov - iovcnt, capacity
    {
      if iovcnt == niov {
        inBounds := false;
        return;
      }
      HoldsPart(shm[..], msg, shmOff0, shmOff0 + full, shmOff, shmOff + capacity);
      var len;
      iovcnt, iovOff, len := UnpackSegment(shm, mem, liov, capacity, iovcnt, iovOff, shmOff, msg, before);
      log := Logged(log, shmOff0, shmOff, shmOff + len);
      shmOff := shmOff + len;
      capacity := capacity - len;
    }
  }

  /** MPI_Bcast on a receiver: the region as the receiver finds it when the call returns. Other processes may
      have written to it meanwhile. */
  method AwaitChunk(found: seq<byte>) returns (shm: array<byte>)
    ensures fresh(shm) && shm[..] == found
  {
    shm := new byte[|found|];
    forall i | 0 <= i < |found| {
      shm[i] := found[i];
    }
  }

  /** A receiver's part of one iteration. `found(k)` is the region as the receiver finds it when it has
      unpacked k bytes and the next announcement arrives. All that an announcement promises is that the next
      chunk is there; everything else in the region may have changed. The receiver only reads the region. */
  method UnpackPipelined(mem: array<byte>, liov: seq<IoVec>, full: nat, blocksize: nat, bufsize: nat,
                         found: nat -> seq<byte>, ghost msg: seq<byte>)
    returns (inBounds: bool, iovcnt: nat, nread: nat, ghost log: seq<Action>)
    requires full > 0 && blocksize > 0 && |liov| == bufsize / blocksize
    requires InMemory(liov, mem.Length) && |msg| == Total(liov)
    requires forall lo: nat :: |found(lo)| >= |msg|
    requires forall lo: nat, k: nat | lo % full == 0 && lo <= k < lo + full && k < |msg| :: found(lo)[k] == msg[k]
    modifies mem
    ensures inBounds <==> ChunksFit(liov, full)
    ensures inBounds ==> iovcnt == |liov| && nread == Total(liov)
    ensures inBounds ==> mem[..] == Unpacked(old(mem[..]), liov, msg, Total(liov))
    ensures inBounds ==> log == ReceiverScript(Total(liov) / full, full)
  {
    var niov := bufsize / blocksize;
    var iovOff: nat := 0;
    ghost var rounds: nat, chunk: seq<Action> := 0, [];
    inBounds, iovcnt, nread, log := true, 0, 0, [];
    UnpackedNothing(mem[..], liov, msg);
    while iovcnt < niov
      invariant AtCursor(liov, iovcnt, iovOff)
      invariant nread == Offset(liov, iovcnt) + iovOff == rounds * full <= Total(liov)
      invariant iovcnt == niov > 0 ==> liov[niov - 1].len > 0
      invariant mem[..] == Unpacked(old(mem[..]), liov, msg, nread)
      invariant log == ReceiverRounds(rounds, full)
      decreases Total(liov) - nread
    {
      if nread == Total(liov) {
        EmptyTail(liov, iovcnt, iovOff);
      }
      MulStep(rounds, full);
      WholeChunks(nread, rounds, full);
      var shm := AwaitChunk(found(nread));
      inBounds, iovcnt, iovOff, nread, chunk := UnpackChunk(shm, mem, liov, full, niov, iovcnt, iovOff, nread, msg,
                                                              old(mem[..]));
      if !inBounds {
        WholeChunks(Total(liov), rounds, full);
        return;
      }
      log := log + [Bcast] + chunk;
      rounds := rounds + 1;
    }
    WholeChunks(Total(liov), rounds, full);
    log := log + [Gather];
  }
}
